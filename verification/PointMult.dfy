/** sb_sw_lib.c: the resumable co-Z Montgomery ladder. */
module PointMult {
  import opened ModArith
  import opened Primes
  import opened QuasiField
  import opened Curve
  import opened CoZ
  import opened Scalars

  const STAGE_LADDER: nat := 0
  const STAGE_INV_Z: nat := 1
  const STAGE_DONE: nat := 2
  const POINT_ITERATIONS: nat := 16

  function Flag(b: bool): nat { if b then 1 else 0 }

  /** Calls that loop iterations take, 16 at a time. */
  function Slices(iterations: nat): nat {
    (iterations + POINT_ITERATIONS - 1) / POINT_ITERATIONS
  }

  /** How many calls of sb_sw_point_mult_continue are left. */
  function MultCallsLeft(stage: nat, i: nat): nat {
    if stage == STAGE_LADDER then 1 + Slices(i) else if stage == STAGE_INV_Z then 1 else 0
  }

  /** The integers whose Montgomery forms the two point registers hold. */
  datatype Regs = Regs(x1: int, y1: int, x2: int, y2: int) {
    ghost function Swapped(): Regs { Regs(x2, y2, x1, y1) }

    ghost function SwappedIf(flag: nat): Regs { if flag == 1 then Swapped() else this }

    /** The registers after conjugate addition, and after addition with update. */
    ghost function Conj(): Regs {
      Regs(LineX(x1, x2, y2 - y1), LineY(x1, y1, x2, y2 - y1), LineX(x1, x2, y1 + y2), LineY(x1, y1, x2, -(y1 + y2)))
    }

    ghost function Sum(): Regs {
      Regs(LineX(x1, x2, y2 - y1), LineY(x1, y1, x2, y2 - y1), ScaledX(x1, x2), ScaledY(x1, y1, x2))
    }
  }

  ghost predicate Hold(c: Context, f: Field, r: Regs)
    requires f.m > 0
    reads c`x1, c`y1, c`x2, c`y2
  {
    c.x1 == f.Mont(r.x1) && c.y1 == f.Mont(r.y1) && c.x2 == f.Mont(r.x2) && c.y2 == f.Mont(r.y2)
  }

  /** Two register contents of the same residues. */
  ghost predicate Same(f: Field, r: Regs, s: Regs)
    requires f.m > 0
  {
    && f.Mont(r.x1) == f.Mont(s.x1) && f.Mont(r.y1) == f.Mont(s.y1)
    && f.Mont(r.x2) == f.Mont(s.x2) && f.Mont(r.y2) == f.Mont(s.y2)
  }

  /** Points q and s in Jacobian coordinates with one common Z. */
  ghost function Pair(q: Point, s: Point, z: int): Regs
    requires q.Affine? && s.Affine?
  {
    Regs(JacX(q, z), JacY(q, z), JacX(s, z), JacY(s, z))
  }

  /** sb_fe_ctswap of the two point registers. */
  method SwapPoints(c: Context, flag: nat)
    modifies c`x1, c`y1, c`x2, c`y2
    ensures flag == 1 ==> c.x1 == old(c.x2) && c.y1 == old(c.y2) && c.x2 == old(c.x1) && c.y2 == old(c.y1)
    ensures flag != 1 ==> c.x1 == old(c.x1) && c.y1 == old(c.y1) && c.x2 == old(c.x2) && c.y2 == old(c.y2)
  {
    if flag == 1 {
      c.x1, c.x2 := c.x2, c.x1;
      c.y1, c.y2 := c.y2, c.y1;
    }
  }

  // ---- what one addition does to a pair of multiples ----

  lemma OnLineNum(p: nat, q: Point, rx: int, s: Point, num: int, num': int, den: int)
    requires p > 0 && OnLine(p, q, rx, s, num, den) && Cong(num, num', p)
    ensures OnLine(p, q, rx, s, num', den)
  {
    CongMul(num, num', num, num', p);
    CongMul(num, num', q.x - s.x, q.x - s.x, p);
  }

  lemma NextZNonzero(p: nat, qx: int, rx: int, z: int)
    requires IsPrime(p) && z % p != 0 && (rx - qx) % p != 0
    ensures NextZ(qx, rx, z) % p != 0
  {
    NextZIs(qx, rx, z);
    if NextZ(qx, rx, z) % p == 0 {
      PrimeDividesProduct(rx - qx, z * (z * z), p);
      PrimeDividesProduct(z, z * z, p);
      PrimeDividesProduct(z, z, p);
    }
  }

  /** Adding points along their chord. */
  lemma SumOnChord(sw: SwCurve, q: Point, r: Point, s: Point, z: int) returns (z': int)
    requires sw.Sound() && Chord(sw.cv.p, q, r, s) && (r.x - q.x) % sw.cv.p != 0 && z % sw.cv.p != 0
    ensures z' == NextZ(q.x, r.x, z) && z' % sw.cv.p != 0
    ensures Same(sw.fp, Pair(q, r, z).Sum(), Pair(s, q, z'))
  {
    z' := NextZ(q.x, r.x, z);
    NextZNonzero(sw.cv.p, q.x, r.x, z);
    Factor(q.y, r.y, z * (z * z));
    LineHolds(sw.fp, q, r.x, s, r.y - q.y, z);
    ScaledHolds(q, r.x, z);
  }

  /** Adding multiples u and v that are neither equal nor opposite. */
  lemma SumOfPair(sw: SwCurve, pt: int -> Point, u: int, v: int, z: int) returns (z': int)
    requires sw.Sound() && Multiples(sw.cv, pt) && z % sw.cv.p != 0
    requires u % sw.cv.n != 0 && v % sw.cv.n != 0 && (u + v) % sw.cv.n != 0 && (u - v) % sw.cv.n != 0
    ensures pt(u).Affine? && pt(v).Affine? && pt(u + v).Affine? && pt(u - v).Affine?
    ensures z' == NextZ(pt(u).x, pt(v).x, z) && z' % sw.cv.p != 0
    ensures Same(sw.fp, Pair(pt(u), pt(v), z).Sum(), Pair(pt(u + v), pt(u), z'))
  {
    hide Multiples, Same;
    IsAffine(sw.cv, pt, u - v);
    MultipleSum(sw.cv, pt, u, v);
    z' := SumOnChord(sw, pt(u), pt(v), pt(u + v), z);
  }

  /** Conjugate addition of multiples u and v. */
  lemma ConjOfPair(sw: SwCurve, pt: int -> Point, u: int, v: int, z: int) returns (z': int)
    requires sw.Sound() && Multiples(sw.cv, pt) && z % sw.cv.p != 0
    requires u % sw.cv.n != 0 && v % sw.cv.n != 0 && (u + v) % sw.cv.n != 0 && (u - v) % sw.cv.n != 0
    ensures pt(u).Affine? && pt(v).Affine? && pt(u + v).Affine? && pt(u - v).Affine?
    ensures z' == NextZ(pt(u).x, pt(v).x, z) && z' % sw.cv.p != 0
    ensures Same(sw.fp, Pair(pt(u), pt(v), z).Conj(), Pair(pt(u + v), pt(u - v), z'))
  {
    z' := SumOfPair(sw, pt, u, v, z);
    CongNeg(v, sw.cv.n);
    MultipleSum(sw.cv, pt, u, -v);
    MultipleNegate(sw.cv, pt, v);
    var q, r := pt(u), pt(v);
    assert u + (-v) == u - v;
    CongMod(-r.y, sw.cv.p);
    CongSub((-r.y) % sw.cv.p, -r.y, q.y, q.y, sw.cv.p);
    OnLineNum(sw.cv.p, q, r.x, pt(u - v), (-r.y) % sw.cv.p - q.y, -(q.y + r.y), r.x - q.x);
    LineHolds(sw.fp, q, r.x, pt(u - v), -(q.y + r.y), z);
    NegatedSum(q.y, r.y, z * (z * z));
    ConjugateY(JacX(q, z), JacY(q, z), JacX(r, z), JacY(q, z) + JacY(r, z));
  }

  lemma NegatedSum(a: int, b: int, w: int)
    ensures -(a + b) * w == -(a * w + b * w)
  {
  }

  // ---- the loop ----

  /** The registers hold the multiples j and j + 1; swap tells which is where. */
  ghost predicate HoldsStep(c: Context, sw: SwCurve, pt: int -> Point, j: int, z: int)
    requires sw.fp.m > 0 && pt(j).Affine? && pt(j + 1).Affine?
    reads c`x1, c`y1, c`x2, c`y2, c`swap
  {
    c.swap <= 1 && Hold(c, sw.fp, Pair(pt(j), pt(j + 1), z).SwappedIf(c.swap))
  }

  /** The body of the ladder loop for bit b.  r is what the registers hold when R_b is first; mid is what
      they hold between the two additions. */
  method LadderStep(c: Context, f: Field, b: nat, ghost r: Regs, ghost mid: Regs)
    requires f.Valid() && b <= 1 && c.swap <= 1
    requires Hold(c, f, r.SwappedIf((c.swap + b) % 2)) && Same(f, r.Conj(), mid)
    modifies c`x1, c`y1, c`x2, c`y2, c`t5, c`t6, c`t7, c`t8, c`swap
    ensures Hold(c, f, mid.Sum()) && c.swap == b
  {
    c.swap := (c.swap + b) % 2;
    SwapPoints(c, c.swap);
    c.swap := b;
    CoZConjAdd(c, f, r.x1, r.y1, r.x2, r.y2);
    CoZAddUpdate(c, f, mid.x1, mid.y1, mid.x2, mid.y2);
  }

  /** The multiple of P that conjugate addition leaves in the second register. */
  ghost function Sign(b: nat): int { if b == 1 then 1 else -1 }

  /** One safe ladder step, from prefix j to prefix 2 j + b.  Between its additions the registers hold the
      multiples 2 j + 1 and Sign(b), with Z = z1. */
  lemma StepOfPair(sw: SwCurve, pt: int -> Point, j: int, b: nat, z: int)
    returns (r: Regs, mid: Regs, z1: int, z': int)
    requires sw.Sound() && Multiples(sw.cv, pt) && z % sw.cv.p != 0 && b <= 1
    requires StepSafe(j, sw.cv.n)
    ensures pt(j).Affine? && pt(j + 1).Affine?
    ensures r == Pair(pt(j), pt(j + 1), z).SwappedIf(b) && Same(sw.fp, r.Conj(), mid)
    ensures pt(2 * j + 1).Affine? && pt(Sign(b)).Affine? && z1 % sw.cv.p != 0
    ensures mid == Pair(pt(2 * j + 1), pt(Sign(b)), z1)
    ensures (pt(Sign(b)).x - pt(2 * j + 1).x) % sw.cv.p != 0
    ensures z' == NextZ(pt(2 * j + 1).x, pt(Sign(b)).x, z1) && z' % sw.cv.p != 0
    ensures pt(2 * j + b).Affine? && pt(2 * j + b + 1).Affine?
    ensures Same(sw.fp, mid.Sum(), Pair(pt(2 * j + b), pt(2 * j + b + 1), z').SwappedIf(b))
  {
    var n := sw.cv.n;
    IsAffine(sw.cv, pt, j);
    IsAffine(sw.cv, pt, j + 1);
    var u, v := if b == 1 then j + 1 else j, if b == 1 then j else j + 1;
    assert u - v == Sign(b);
    SmallMod(1, n);
    CongNeg(1, n);
    z1 := ConjOfPair(sw, pt, u, v, z);
    r, mid := Pair(pt(u), pt(v), z), Pair(pt(2 * j + 1), pt(u - v), z1);
    MultipleDouble(sw.cv, pt, u);
    MultipleDouble(sw.cv, pt, v);
    z' := SumOfPair(sw, pt, 2 * j + 1, u - v, z1);
    MultipleSum(sw.cv, pt, 2 * j + 1, u - v);
    assert 2 * j + 1 + (u - v) == 2 * u && 2 * j + 1 - (u - v) == 2 * v;
  }

  /** Two multiplications by the same point are congruent in their first argument. */
  lemma ScalesAlike(f: Field, a: int, b: int, w: int)
    requires f.Valid() && Cong(a, b, f.m)
    ensures f.Mont(a * w) == f.Mont(b * w)
  {
    CongMul(a, b, w, w, f.m);
    MontEqual(f, a * w, b * w);
  }

  /** The step for bit 1 of the scalar 1 adds opposite points.  It leaves (0, 0) and the spurious pair
      (e^6, e^9), where e is the difference of the Y coordinates. */
  lemma StepOfOpposite(sw: SwCurve, pt: int -> Point, j: int, z: int) returns (r: Regs, mid: Regs, e: int)
    requires sw.Sound() && Multiples(sw.cv, pt) && j % sw.cv.n != 0 && 2 * j + 1 == sw.cv.n
    ensures pt(j).Affine? && pt(j + 1).Affine?
    ensures r == Pair(pt(j + 1), pt(j), z) && Same(sw.fp, r.Conj(), mid)
    ensures mid.Sum() == Regs(0, 0, e * e * e * (e * e * e), e * e * e * (e * e * e * (e * e * e)))
  {
    var q := pt(j + 1);
    IsAffine(sw.cv, pt, j);
    AddMultiple(-(j + 1), 1, sw.cv.n);
    MultipleCong(sw.cv, pt, -(j + 1), j);
    MultipleNegate(sw.cv, pt, j + 1);
    CongNeg(j, sw.cv.n);
    AddMultiple(-j, 1, sw.cv.n);
    assert q.Affine?;
    r := Pair(q, pt(j), z);
    e := r.y2 - r.y1;
    mid := Regs(e * e, -(e * e * e), 0, 0);
    OppositeConj(r, e);
    CongMod(-q.y, sw.cv.p);
    CongAdd(q.y, q.y, (-q.y) % sw.cv.p, -q.y, sw.cv.p);
    Factor(q.y, (-q.y) % sw.cv.p, z * (z * z));
    ScalesAlike(sw.fp, q.y + (-q.y) % sw.cv.p, 0, z * (z * z));
    VanishingConj(sw.fp, r.y1 + r.y2);
    OppositeSum(e);
  }

  lemma OppositeConj(r: Regs, e: int)
    requires r.x1 == r.x2 && e == r.y2 - r.y1
    ensures r.Conj() == Regs(e * e, -(e * e * e), (r.y1 + r.y2) * (r.y1 + r.y2),
                             (r.y1 + r.y2) * ((r.y1 + r.y2) * (r.y1 + r.y2)))
  {
    var s := r.y1 + r.y2;
    assert DX(r.x1, r.x2) == 0;
    assert (-s) * (-s) == s * s;
    assert (-s) * (0 - s * s) == s * (s * s);
  }

  lemma VanishingConj(f: Field, s: int)
    requires f.Valid() && f.Mont(s) == f.Mont(0)
    ensures f.Mont(s * s) == f.Mont(0) && f.Mont(s * (s * s)) == f.Mont(0)
  {
    MontEqual(f, s, 0);
    ScalesAlike(f, s, 0, s);
    ScalesAlike(f, s, 0, s * s);
  }

  lemma OppositeSum(e: int)
    ensures var t := e * e * e;
            Regs(e * e, -t, 0, 0).Sum() == Regs(0, 0, t * t, t * (t * t))
  {
    var t, q := e * e * e, e * e;
    assert DX(q, 0) == -q;
    assert (-q) * (-q) == q * q && (-q) * (q * q) == -(q * (q * q));
    assert q * (q * q) == t * t;
    assert (-t) * (-(t * t)) == t * (t * t);
    assert t * (t * t - 0) - t * (t * t) == 0;
  }

  /** Conjugate addition of (0, 0) and a pair with v^2 = u^3 is all zeros. */
  lemma ConjOfNothing(t: int)
    ensures Regs(0, 0, t * t, t * (t * t)).Conj() == Regs(0, 0, 0, 0)
  {
    var u, v := t * t, t * (t * t);
    assert v * v == u * (u * u);
    assert 0 * (u * u) == 0 && 0 * (u * (u * u)) == 0;
    assert LineX(0, u, v) == v * v - u * (u * u) == 0;
    assert (-v) * (-v) == v * v;
    assert v * 0 == 0 && (-v) * 0 == 0;
  }

  lemma SumOfNothing(mid: Regs)
    requires mid == Regs(0, 0, 0, 0)
    ensures mid.Sum() == mid
  {
    NothingOnLine(mid.x1, mid.y1, mid.x2, mid.y2 - mid.y1);
  }

  lemma NothingOnLine(x1: int, y1: int, x2: int, e: int)
    requires x1 == 0 && y1 == 0 && x2 == 0 && e == 0
    ensures LineX(x1, x2, e) == 0 && LineY(x1, y1, x2, e) == 0 && ScaledX(x1, x2) == 0 && ScaledY(x1, y1, x2) == 0
  {
    hide DX, ScaledX, ScaledY, LineX;
    NothingScaledX(x1, x2);
    NothingScaledY(x1, y1, x2);
    NothingAdded(x1, x2, e);
    ZeroTimes(e, ScaledX(x1, x2) - LineX(x1, x2, e));
  }

  lemma NothingScaledX(x1: int, x2: int)
    requires x1 == 0
    ensures ScaledX(x1, x2) == 0
  {
    hide DX;
    ZeroTimes(x1, DX(x1, x2) * DX(x1, x2));
  }

  lemma NothingScaledY(x1: int, y1: int, x2: int)
    requires y1 == 0
    ensures ScaledY(x1, y1, x2) == 0
  {
    hide DX;
    ZeroTimes(y1, DX(x1, x2) * (DX(x1, x2) * DX(x1, x2)));
  }

  lemma NothingAdded(x1: int, x2: int, e: int)
    requires x1 + x2 == 0 && e == 0
    ensures LineX(x1, x2, e) == 0
  {
    hide DX;
    ZeroTimes(x1 + x2, DX(x1, x2) * DX(x1, x2));
  }

  // ---- recovery of Z and output ----

  /** t8 := the inverse of the final Z, from the point P and the register pair holding R0 + R1 and +-P.
      w is the number that is inverted. */
  method RecoverZ(c: Context, f: Field, b: nat, ghost r: Regs, ghost xp: int, ghost yp: int)
    requires f.Valid() && Hold(c, f, r) && c.pointX == f.Mont(xp) && c.pointY == f.Mont(yp) && b <= 1
    modifies c`x1, c`y1, c`x2, c`y2, c`t5, c`t6, c`t8
    ensures Hold(c, f, r)
    ensures var w := (if b == 1 then r.x2 - r.x1 else r.x1 - r.x2) * r.y2 * xp;
            c.t8 == f.Mont(Inv(w, f.m) * yp * r.x2)
  {
    ghost var d := if b == 1 then r.x2 - r.x1 else r.x1 - r.x2;
    ghost var w := d * r.y2 * xp;
    SwapPoints(c, b);
    MontSub(f, r.x1, r.x2);
    MontSub(f, r.x2, r.x1);
    c.t8 := f.ModSub(c.x1, c.x2);
    SwapPoints(c, b);
    MontTimes(f, d, r.y2);
    c.t5 := f.MontMul(c.t8, c.y2);
    MontTimes(f, d * r.y2, xp);
    c.t8 := f.MontMul(c.t5, c.pointX);
    MontInverted(f, w);
    c.t8 := f.MontInv(c.t8);
    MontTimes(f, Inv(w, f.m), yp);
    c.t5 := f.MontMul(c.t8, c.pointY);
    MontTimes(f, Inv(w, f.m) * yp, r.x2);
    c.t8 := f.MontMul(c.t5, c.x2);
  }

  /** What RecoverZ computes is the inverse of the final Z: with X = xp z^2 and Y = +-yp z^3 in the second
      register, the sign being that of the difference that is inverted. */
  lemma RecoveredZ(p: nat, d: int, xp: int, yp: int, xb: int, yb: int, sign: int, z: int)
    requires IsPrime(p) && d % p != 0 && xp % p != 0 && yp % p != 0 && z % p != 0 && (sign == 1 || sign == -1)
    requires xb == xp * (z * z) && Cong(yb, sign * (yp * (z * (z * z))), p)
    ensures Cong(Inv((sign * d) * yb * xp, p) * yp * xb, Inv(z * d, p), p)
  {
    var w := (sign * d) * yb * xp;
    var u := yp * xb * (z * d);
    InvertedNumber(p, d, xp, yp, yb, sign, z);
    Nonzero3(yp, xb, z * d, xp, z, d, p);
    InvCorrect(w, p);
    CongMul(Inv(w, p), Inv(w, p), w, u, p);
    Reassociate(Inv(w, p), yp, xb, z * d);
    InvUnique(z * d, Inv(w, p) * yp * xb, p);
  }

  lemma Reassociate(i: int, a: int, b: int, c: int)
    ensures i * a * b * c == i * (a * b * c)
  {
    assert i * a * b == i * (a * b);
    assert i * (a * b) * c == i * ((a * b) * c);
  }

  lemma InvertedNumber(p: nat, d: int, xp: int, yp: int, yb: int, sign: int, z: int)
    requires p > 0 && (sign == 1 || sign == -1) && Cong(yb, sign * (yp * (z * (z * z))), p)
    ensures Cong((sign * d) * yb * xp, yp * (xp * (z * z)) * (z * d), p)
  {
    var y3, k := yp * (z * (z * z)), (sign * d) * xp;
    CongMul(yb, sign * y3, k, k, p);
    assert (sign * d) * yb * xp == yb * k;
    assert (sign * y3) * k == y3 * (d * xp) by {
      if sign == -1 { assert (-y3) * ((-d) * xp) == y3 * (d * xp); }
    }
    ProductShuffle(yp, z, d, xp);
  }

  lemma ProductShuffle(yp: int, z: int, d: int, xp: int)
    ensures yp * (z * (z * z)) * (d * xp) == yp * (xp * (z * z)) * (z * d)
  {
    var zz := z * z;
    assert (z * zz) * (d * xp) == (xp * zz) * (z * d);
    Reassociate(yp, z * zz, d * xp, 1);
    Reassociate(yp, xp * zz, z * d, 1);
  }

  lemma Nonzero3(yp: int, xb: int, zd: int, xp: int, z: int, d: int, p: nat)
    requires IsPrime(p) && d % p != 0 && xp % p != 0 && yp % p != 0 && z % p != 0
    requires xb == xp * (z * z) && zd == z * d
    ensures (yp * xb * zd) % p != 0
  {
    if (yp * xb * zd) % p == 0 {
      PrimeDividesProduct(yp * xb, zd, p);
      if zd % p == 0 {
        PrimeDividesProduct(z, d, p);
      } else {
        PrimeDividesProduct(yp, xb, p);
        PrimeDividesProduct(xp, z * z, p);
        PrimeDividesProduct(z, z, p);
      }
    }
  }

  ghost function PlusIf(flag: nat, v: int, w: int): int { if flag == 1 then v + w else v }

  ghost function NegateIf(flag: nat, v: int): int { if flag == 1 then -v else v }

  /** Apply Z^-1 = t, add P if the scalar is 1, leave the Montgomery domain and undo the negation. */
  method Output(c: Context, f: Field, ghost t: int, ghost x: int, ghost y: int, ghost xp: int, ghost yp: int)
    requires f.Valid() && c.t8 == f.Mont(t) && c.x2 == f.Mont(x) && c.y2 == f.Mont(y)
    requires c.pointX == f.Mont(xp) && c.pointY == f.Mont(yp)
    modifies c`x1, c`y1, c`x2, c`y2, c`t5, c`t6, c`t7
    ensures c.x1 == f.Qr(PlusIf(c.kOne, t * t * x, xp))
    ensures c.y1 == f.Qr(NegateIf(c.invK, PlusIf(c.kOne, t * t * t * y, yp)))
  {
    MontTimes(f, t, t);
    c.t5 := f.MontSquare(c.t8);
    MontTimes(f, t * t, t);
    c.t6 := f.MontMul(c.t5, c.t8);
    OutputCoordinateX(c, f, t * t, x, xp);
    OutputCoordinateY(c, f, t * t * t, y, yp);
    UndoNegation(c, f, PlusIf(c.kOne, t * t * t * y, yp));
  }

  method OutputCoordinateX(c: Context, f: Field, ghost t2: int, ghost x: int, ghost xp: int)
    requires f.Valid() && c.t5 == f.Mont(t2) && c.x2 == f.Mont(x) && c.pointX == f.Mont(xp)
    modifies c`x1, c`x2, c`t7
    ensures c.x1 == f.Qr(PlusIf(c.kOne, t2 * x, xp))
  {
    MontTimes(f, t2, x);
    c.t7 := f.MontMul(c.t5, c.x2);
    MontAdd(f, t2 * x, xp);
    c.x2 := f.ModAdd(c.t7, c.pointX);
    if c.kOne == 1 {
      c.t7, c.x2 := c.x2, c.t7;
    }
    MontReduced(f, PlusIf(c.kOne, t2 * x, xp));
    c.x1 := f.MontReduce(c.t7);
  }

  method OutputCoordinateY(c: Context, f: Field, ghost t3: int, ghost y: int, ghost yp: int)
    requires f.Valid() && c.t6 == f.Mont(t3) && c.y2 == f.Mont(y) && c.pointY == f.Mont(yp)
    modifies c`y1, c`y2, c`t7
    ensures c.y1 == f.Qr(PlusIf(c.kOne, t3 * y, yp))
  {
    MontTimes(f, t3, y);
    c.t7 := f.MontMul(c.t6, c.y2);
    MontAdd(f, t3 * y, yp);
    c.y2 := f.ModAdd(c.t7, c.pointY);
    if c.kOne == 1 {
      c.t7, c.y2 := c.y2, c.t7;
    }
    MontReduced(f, PlusIf(c.kOne, t3 * y, yp));
    c.y1 := f.MontReduce(c.t7);
  }

  /** If the scalar was negated, negate the output point. */
  method UndoNegation(c: Context, f: Field, ghost y: int)
    requires f.m > 0 && c.y1 == f.Qr(y)
    modifies c`y1, c`t5
    ensures c.y1 == f.Qr(NegateIf(c.invK, y))
  {
    NegatedQr(f, y);
    c.t5 := f.ModNegate(c.y1);
    if c.invK == 1 {
      c.y1, c.t5 := c.t5, c.y1;
    }
  }

  lemma NegatedQr(f: Field, v: int)
    requires f.m > 0
    ensures f.ModNegate(f.Qr(v)) == f.Qr(-v)
  {
    MultipleMod(1, f.m);
    SmallMod(0, f.m);
    CongSub(f.m, 0, f.Qr(v), v, f.m);
  }

  /** Subtract the overflow, reduce, and undo the negation of the scalar. */
  method RestoreScalar(c: Context, fn: Field, ghost k: nat)
    requires fn.m > 3 && fn.m < fn.radix < 2 * fn.m && 1 <= k < fn.m && c.invK <= 1
    requires c.k + fn.radix == Regular(k, fn.m, fn.radix)
    modifies c`k, c`t5
    ensures c.k == if c.invK == 1 then fn.m - k else k
  {
    var n := fn.m;
    RestoredScalar(fn, k);
    c.k := fn.ModReduce((c.k - n) % fn.radix);
    c.t5 := fn.ModNegate(c.k);
    if c.invK == 1 {
      c.t5, c.k := c.k, c.t5;
    }
  }

  lemma RestoredScalar(fn: Field, k: nat)
    requires fn.m > 3 && fn.m < fn.radix < 2 * fn.m && 1 <= k < fn.m
    ensures var s := Regular(k, fn.m, fn.radix) - fn.radix;
            fn.ModReduce((s - fn.m) % fn.radix) == k && fn.ModNegate(k) == fn.m - k
  {
    var n := fn.m;
    if k + n >= fn.radix {
      DivModUnique(k - fn.radix, -1, k, fn.radix);
    } else {
      DivModUnique(k + n - fn.radix, -1, k + n, fn.radix);
      AddMultiple(k, 1, n);
    }
    QrFixed(fn, k);
    QrFixed(fn, n - k);
  }

  // ---- the resumable multiplication ----

  /** Register contents (0, 0) and (t^2, t^3): what the scalar 1 leaves after its last loop iteration. */
  ghost predicate Spurious(c: Context, f: Field, t: int)
    requires f.m > 0
    reads c`x1, c`y1, c`x2, c`y2, c`swap
  {
    c.swap == 1 && Hold(c, f, Regs(0, 0, t * t, t * (t * t)))
  }

  /** pt gives the multiples of a point whose x coordinate is not zero. */
  ghost predicate Base(sw: SwCurve, pt: int -> Point) {
    sw.Sound() && Multiples(sw.cv, pt) && pt(1).Affine? && pt(1).x % sw.cv.p != 0
  }

  /** The point P = pt(1) and the conditionally negated scalar k of a multiplication in progress. */
  ghost predicate Loaded(c: Context, sw: SwCurve, pt: int -> Point, k: nat)
    requires sw.fp.m > 0 && pt(1).Affine? && sw.bits > 0
    reads c`pointX, c`pointY, c`k, c`invK, c`kOne
  {
    && c.pointX == sw.fp.Mont(pt(1).x) && c.pointY == sw.fp.Mont(pt(1).y)
    && 1 <= k < Pow2(sw.bits - 1) && c.k + sw.fn.radix == Regular(k, sw.cv.n, sw.fn.radix)
    && c.invK <= 1 && c.kOne == if k == 1 then 1 else 0
  }

  /** The prefix of the regularized scalar that has been processed. */
  ghost function Processed(sw: SwCurve, k: nat, i: nat): nat {
    Prefix(Regular(k, sw.cv.n, sw.fn.radix), i + 1)
  }

  /** Between two iterations: the registers hold the multiples j and j + 1 of P with the common Z z, where
      j is the processed prefix; only the last step of the scalar 1 is exceptional. */
  ghost predicate Position(c: Context, sw: SwCurve, pt: int -> Point, k: nat, z: int)
    requires sw.fp.m > 0 && sw.cv.p > 0
    reads c`x1, c`y1, c`x2, c`y2, c`swap, c`i
  {
    && c.i < sw.bits
    && if k == 1 && c.i == 0 then Spurious(c, sw.fp, z)
       else var j := Processed(sw, k, c.i);
            z % sw.cv.p != 0 && pt(j).Affine? && pt(j + 1).Affine? && HoldsStep(c, sw, pt, j, z)
  }

  /** The affine result: k P, negated if the input scalar was, and the scalar restored. */
  ghost predicate Finished(c: Context, sw: SwCurve, pt: int -> Point, k: nat)
    requires sw.fp.m > 0
    reads c`x1, c`y1, c`k, c`invK
  {
    && pt(k).Affine? && c.invK <= 1
    && c.x1 == sw.fp.Qr(pt(k).x) && c.y1 == sw.fp.Qr(NegateIf(c.invK, pt(k).y))
    && c.k == if c.invK == 1 then sw.cv.n - k else k
  }

  lemma SameHold(c: Context, f: Field, r: Regs, s: Regs)
    requires f.m > 0 && Hold(c, f, r) && Same(f, r, s)
    ensures Hold(c, f, s)
  {
  }

  /** The multiples held after the next iteration. */
  ghost predicate Next(sw: SwCurve, pt: int -> Point, k: nat, i: nat, b: nat, after: Regs, z: int)
    requires sw.cv.p > 0
  {
    if k == 1 && i == 0 then b == 1 && after == Regs(0, 0, z * z, z * (z * z))
    else var j := Processed(sw, k, i);
         z % sw.cv.p != 0 && pt(j).Affine? && pt(j + 1).Affine?
         && after == Pair(pt(j), pt(j + 1), z).SwappedIf(b)
  }

  /** What the next iteration adds: r before and mid between its two additions, and what is held after. */
  lemma NextStep(sw: SwCurve, pt: int -> Point, k: nat, i: nat, z: int)
    returns (r: Regs, mid: Regs, after: Regs, z': int)
    requires sw.Sound() && Multiples(sw.cv, pt) && 1 <= k < Pow2(sw.bits - 1) && 0 < i < sw.bits
    requires z % sw.cv.p != 0
    ensures var b, j := Bit(Regular(k, sw.cv.n, sw.fn.radix), i), Processed(sw, k, i);
            && pt(j).Affine? && pt(j + 1).Affine? && r == Pair(pt(j), pt(j + 1), z).SwappedIf(b)
            && Same(sw.fp, r.Conj(), mid) && Same(sw.fp, mid.Sum(), after)
            && Next(sw, pt, k, i - 1, b, after, z')
  {
    hide Multiples, LineX, LineY, ScaledX, ScaledY, JacX, JacY, Field.Mont, Pow2, Bit, Regular, IsPrime;
    var n, kk, j := sw.cv.n, Regular(k, sw.cv.n, sw.fn.radix), Processed(sw, k, i);
    PrefixStep(kk, i);
    if k == 1 && i == 1 {
      LadderOfOne(n, sw.bits);
      NotMultiple(j, 0, n);
      var e;
      r, mid, e := StepOfOpposite(sw, pt, j, z);
      z', after := e * e * e, mid.Sum();
    } else {
      SafeStep(sw, k, i);
      var z1;
      r, mid, z1, z' := StepOfPair(sw, pt, j, Bit(kk, i), z);
      j := Processed(sw, k, i - 1);
      after := Pair(pt(j), pt(j + 1), z').SwappedIf(Bit(kk, i));
    }
  }

  lemma SafeStep(sw: SwCurve, k: nat, i: nat)
    requires IsOrder(sw.cv.n, sw.bits) && sw.fn.radix == Pow2(sw.bits)
    requires 1 <= k < Pow2(sw.bits - 1) && i < sw.bits && (k == 1 ==> i >= 2)
    ensures StepSafe(Processed(sw, k, i), sw.cv.n)
  {
    if k == 1 {
      StepSafeHigh(k, sw.cv.n, sw.bits, i);
    } else {
      LadderSafe(k, sw.cv.n, sw.bits, i);
    }
  }

  lemma SwapTwice(r: Regs, s: nat, b: nat)
    requires s <= 1 && b <= 1
    ensures r.SwappedIf(b).SwappedIf((s + b) % 2) == r.SwappedIf(s)
  {
  }

  lemma Arrived(c: Context, sw: SwCurve, pt: int -> Point, k: nat, b: nat, after: Regs, z: int)
    requires sw.fp.m > 0 && sw.cv.p > 0 && c.i < sw.bits && c.swap == b <= 1
    requires Next(sw, pt, k, c.i, b, after, z) && Hold(c, sw.fp, after)
    ensures Position(c, sw, pt, k, z)
  {
  }

  /** One iteration of the ladder loop. */
  method LadderIteration(c: Context, sw: SwCurve, ghost pt: int -> Point, ghost k: nat, ghost z: int)
    returns (ghost z': int)
    requires Base(sw, pt) && Loaded(c, sw, pt, k) && Position(c, sw, pt, k, z) && c.i > 0
    modifies c`x1, c`y1, c`x2, c`y2, c`t5, c`t6, c`t7, c`t8, c`swap, c`i
    ensures c.i == old(c.i) - 1 && Position(c, sw, pt, k, z')
  {
    hide Multiples, Field.Mont, Prefix, Pow2, Regular, Bit, JacX, JacY, LineX, LineY, ScaledX, ScaledY;
    ghost var r, mid, after;
    r, mid, after, z' := NextStep(sw, pt, k, c.i, z);
    BitWithoutTop(c.k, sw.bits, c.i);
    var b := Bit(c.k, c.i);
    ghost var j := Processed(sw, k, c.i);
    SwapTwice(Pair(pt(j), pt(j + 1), z), c.swap, b);
    LadderStep(c, sw.fp, b, r, mid);
    SameHold(c, sw.fp, mid.Sum(), after);
    c.i := c.i - 1;
    Arrived(c, sw, pt, k, b, after, z');
  }

  // ---- the final stage ----

  /** The last conjugate addition and the recovery of Z, then the last addition.  r and mid are what the
      registers hold before and after the conjugate addition, R_b being first. */
  method LastAdditions(c: Context, f: Field, b: nat, ghost r: Regs, ghost mid: Regs, ghost xp: int, ghost yp: int)
    requires f.Valid() && b <= 1 && c.swap <= 1
    requires Hold(c, f, r.SwappedIf((c.swap + b) % 2)) && Same(f, r.Conj(), mid)
    requires c.pointX == f.Mont(xp) && c.pointY == f.Mont(yp)
    modifies c`x1, c`y1, c`x2, c`y2, c`t5, c`t6, c`t7, c`t8, c`swap
    ensures Hold(c, f, mid.Sum().SwappedIf(1 - b))
    ensures c.t8 == f.Mont(RecoveredInverse(f.m, b, mid, xp, yp))
  {
    hide Field.Mont, Inv;
    c.swap := (c.swap + b) % 2;
    SwapPoints(c, c.swap);
    CoZConjAdd(c, f, r.x1, r.y1, r.x2, r.y2);
    RecoverZ(c, f, b, mid, xp, yp);
    CoZAddUpdate(c, f, mid.x1, mid.y1, mid.x2, mid.y2);
    SwapPoints(c, 1 - b);
  }

  ghost function RecoveredInverse(p: nat, b: nat, mid: Regs, xp: int, yp: int): int
    requires p >= 2
  {
    Inv((if b == 1 then mid.x2 - mid.x1 else mid.x1 - mid.x2) * mid.y2 * xp, p) * yp * mid.x2
  }

  /** The last step of a safe scalar: the second register ends with k P, and the recovered value is the
      inverse of the Z it has. */
  lemma LastStep(sw: SwCurve, pt: int -> Point, k: nat, z: int)
    returns (r: Regs, mid: Regs, z': int)
    requires Base(sw, pt) && 2 <= k < Pow2(sw.bits - 1) && z % sw.cv.p != 0
    ensures var kk := Regular(k, sw.cv.n, sw.fn.radix);
            var b, j := Bit(kk, 0), Processed(sw, k, 0);
            && pt(j).Affine? && pt(j + 1).Affine? && r == Pair(pt(j), pt(j + 1), z).SwappedIf(b)
            && Same(sw.fp, r.Conj(), mid) && pt(k).Affine?
            && (var s := mid.Sum().SwappedIf(1 - b); Holds(sw.fp, sw.fp.Mont(s.x2), sw.fp.Mont(s.y2), pt(k), z'))
            && z' % sw.cv.p != 0
            && Cong(RecoveredInverse(sw.cv.p, b, mid, pt(1).x, pt(1).y), Inv(z', sw.cv.p), sw.cv.p)
  {
    hide Multiples;
    var kk := Regular(k, sw.cv.n, sw.fn.radix);
    var b := Bit(kk, 0);
    var j: int := Processed(sw, k, 0);
    PrefixStep(kk, 0);
    RegularTopBit(k, sw.cv.n, sw.bits);
    MultipleCong(sw.cv, pt, kk, k);
    SafeStep(sw, k, 0);
    var z1;
    r, mid, z1, z' := StepOfPair(sw, pt, j, b, z);
    SecondHolds(sw.fp, mid.Sum(), pt(2 * j + b), pt(2 * j + b + 1), z', b);
    PlusMinusOne(sw, pt, b);
    RecoversLastZ(sw.cv.p, b, mid, pt(1), pt(2 * j + 1).x, pt(Sign(b)), z1);
  }

  lemma SecondHolds(f: Field, r: Regs, q: Point, s: Point, z: int, b: nat)
    requires f.m > 0 && q.Affine? && s.Affine? && b <= 1 && Same(f, r, Pair(q, s, z).SwappedIf(b))
    ensures Holds(f, f.Mont(r.SwappedIf(1 - b).x2), f.Mont(r.SwappedIf(1 - b).y2), q, z)
  {
  }

  /** The difference of neighbouring multiples is P or -P. */
  lemma PlusMinusOne(sw: SwCurve, pt: int -> Point, b: nat)
    requires sw.Sound() && Multiples(sw.cv, pt) && b <= 1
    ensures pt(1).Affine? && pt(Sign(b)).Affine? && pt(1).y % sw.cv.p != 0
    ensures pt(Sign(b)).x == pt(1).x && Cong(pt(Sign(b)).y, if b == 1 then pt(1).y else -pt(1).y, sw.cv.p)
  {
    SmallMod(1, sw.cv.n);
    MultipleDouble(sw.cv, pt, 1);
    MultipleNegate(sw.cv, pt, 1);
    CongMod(-pt(1).y, sw.cv.p);
  }

  /** With +-P in the second register the recovered value inverts the Z of the next addition. */
  lemma RecoversLastZ(p: nat, b: nat, mid: Regs, q: Point, sx: int, d: Point, z: int)
    requires IsPrime(p) && q.Affine? && d.Affine? && z % p != 0 && b <= 1
    requires q.x % p != 0 && q.y % p != 0 && (d.x - sx) % p != 0
    requires d.x == q.x && Cong(d.y, if b == 1 then q.y else -q.y, p)
    requires mid.x1 == sx * (z * z) && mid.x2 == JacX(d, z) && mid.y2 == JacY(d, z)
    ensures Cong(RecoveredInverse(p, b, mid, q.x, q.y), Inv(NextZ(sx, d.x, z), p), p)
  {
    var dd := mid.x2 - mid.x1;
    var sign := if b == 1 then 1 else -1;
    Factor(sx, d.x, z * z);
    if dd % p == 0 {
      PrimeDividesProduct(d.x - sx, z * z, p);
      PrimeDividesProduct(z, z, p);
    }
    CongMul(d.y, sign * q.y, z * (z * z), z * (z * z), p);
    assert (sign * q.y) * (z * (z * z)) == sign * (q.y * (z * (z * z)));
    assert sign * dd == if b == 1 then mid.x2 - mid.x1 else mid.x1 - mid.x2;
    RecoveredZ(p, dd, q.x, q.y, mid.x2, mid.y2, sign, z);
  }

  /** Dividing Jacobian coordinates by the powers of Z. */
  lemma ToAffine(f: Field, q: Point, z: int, t: int, x: int, y: int)
    requires f.Valid() && z % f.m != 0 && Cong(t, Inv(z, f.m), f.m)
    requires Holds(f, f.Mont(x), f.Mont(y), q, z)
    ensures Cong(t * t * x, q.x, f.m) && Cong(t * t * t * y, q.y, f.m)
  {
    MontEqual(f, x, JacX(q, z));
    MontEqual(f, y, JacY(q, z));
    InvCorrect(z, f.m);
    CongMul(t, Inv(z, f.m), z, z, f.m);
    DivideX(f.m, t, z, x, q.x);
    DivideY(f.m, t, z, y, q.y);
  }

  lemma DivideX(p: nat, t: int, z: int, x: int, qx: int)
    requires p > 0 && Cong(t * z, 1, p) && Cong(x, qx * (z * z), p)
    ensures Cong(t * t * x, qx, p)
  {
    CongMul(t * z, 1, t * z, 1, p);
    CongMul(t * t, t * t, x, qx * (z * z), p);
    CongMul(qx, qx, (t * z) * (t * z), 1, p);
    Square(t, z);
    assert t * t * (qx * (z * z)) == qx * ((t * t) * (z * z));
  }

  lemma DivideY(p: nat, t: int, z: int, y: int, qy: int)
    requires p > 0 && Cong(t * z, 1, p) && Cong(y, qy * (z * (z * z)), p)
    ensures Cong(t * t * t * y, qy, p)
  {
    CongMul(t * z, 1, t * z, 1, p);
    CongMul(t * z, 1, (t * z) * (t * z), 1, p);
    CongMul(t * t * t, t * t * t, y, qy * (z * (z * z)), p);
    CongMul(qy, qy, (t * z) * ((t * z) * (t * z)), 1, p);
    CubeShuffle(t, z, qy);
  }

  lemma CubeShuffle(t: int, z: int, y: int)
    ensures t * t * t * (y * (z * (z * z))) == y * ((t * z) * ((t * z) * (t * z)))
  {
    Square(t, z);
    assert t * t * t == t * (t * t);
    assert (t * (t * t)) * (y * (z * (z * z))) == y * ((t * (t * t)) * (z * (z * z)));
  }

  /** The affine coordinates that the output step computes from the registers and the recovered inverse t. */
  ghost function OutputX(k: nat, b: nat, mid: Regs, q: Point, t: int): int
    requires b <= 1 && q.Affine?
  {
    PlusIf(if k == 1 then 1 else 0, t * t * mid.Sum().SwappedIf(1 - b).x2, q.x)
  }

  ghost function OutputY(k: nat, b: nat, mid: Regs, q: Point, t: int): int
    requires b <= 1 && q.Affine?
  {
    PlusIf(if k == 1 then 1 else 0, t * t * t * mid.Sum().SwappedIf(1 - b).y2, q.y)
  }

  /** What the registers hold before the final stage, R_b first. */
  ghost function LastRegs(sw: SwCurve, pt: int -> Point, k: nat, z: int): Regs
    requires k == 1 || (pt(Processed(sw, k, 0)).Affine? && pt(Processed(sw, k, 0) + 1).Affine?)
  {
    if k == 1 then Regs(0, 0, z * z, z * (z * z))
    else var j := Processed(sw, k, 0);
         Pair(pt(j), pt(j + 1), z).SwappedIf(Bit(Regular(k, sw.cv.n, sw.fn.radix), 0))
  }

  lemma LastHold(c: Context, sw: SwCurve, pt: int -> Point, k: nat, z: int)
    requires Base(sw, pt) && Position(c, sw, pt, k, z) && c.i == 0
    ensures k == 1 || (pt(Processed(sw, k, 0)).Affine? && pt(Processed(sw, k, 0) + 1).Affine?)
    ensures Hold(c, sw.fp, LastRegs(sw, pt, k, z).SwappedIf((c.swap + Bit(Regular(k, sw.cv.n, sw.fn.radix), 0)) % 2))
  {
    if k == 1 {
      LadderOfOne(sw.cv.n, sw.bits);
    } else {
      var j := Processed(sw, k, 0);
      SwapTwice(Pair(pt(j), pt(j + 1), z), c.swap, Bit(Regular(k, sw.cv.n, sw.fn.radix), 0));
    }
  }

  /** The final stage gives k P, from multiples of P for a safe scalar and from nothing for the scalar 1. */
  lemma LastPlan(sw: SwCurve, pt: int -> Point, k: nat, z: int) returns (mid: Regs)
    requires Base(sw, pt) && 1 <= k < Pow2(sw.bits - 1) && (k != 1 ==> z % sw.cv.p != 0)
    requires k == 1 || (pt(Processed(sw, k, 0)).Affine? && pt(Processed(sw, k, 0) + 1).Affine?)
    ensures var b := Bit(Regular(k, sw.cv.n, sw.fn.radix), 0);
            var t := RecoveredInverse(sw.cv.p, b, mid, pt(1).x, pt(1).y);
            && Same(sw.fp, LastRegs(sw, pt, k, z).Conj(), mid) && pt(k).Affine?
            && sw.fp.Qr(OutputX(k, b, mid, pt(1), t)) == sw.fp.Qr(pt(k).x)
            && forall flag ::
                 sw.fp.Qr(NegateIf(flag, OutputY(k, b, mid, pt(1), t))) == sw.fp.Qr(NegateIf(flag, pt(k).y))
  {
    var b := Bit(Regular(k, sw.cv.n, sw.fn.radix), 0);
    var q := pt(1);
    if k == 1 {
      LadderOfOne(sw.cv.n, sw.bits);
      ConjOfNothing(z);
      mid := Regs(0, 0, 0, 0);
      SumOfNothing(mid);
      OutputOfNothing(k, b, q, mid, RecoveredInverse(sw.cv.p, b, mid, q.x, q.y));
    } else {
      mid := LastPlanSafe(sw, pt, k, z);
    }
    SignedCong(sw.fp, OutputY(k, b, mid, q, RecoveredInverse(sw.cv.p, b, mid, q.x, q.y)), pt(k).y);
  }

  lemma LastPlanSafe(sw: SwCurve, pt: int -> Point, k: nat, z: int) returns (mid: Regs)
    requires Base(sw, pt) && 2 <= k < Pow2(sw.bits - 1) && z % sw.cv.p != 0
    requires pt(Processed(sw, k, 0)).Affine? && pt(Processed(sw, k, 0) + 1).Affine?
    ensures var b := Bit(Regular(k, sw.cv.n, sw.fn.radix), 0);
            var t := RecoveredInverse(sw.cv.p, b, mid, pt(1).x, pt(1).y);
            && Same(sw.fp, LastRegs(sw, pt, k, z).Conj(), mid) && pt(k).Affine?
            && Cong(OutputX(k, b, mid, pt(1), t), pt(k).x, sw.cv.p)
            && Cong(OutputY(k, b, mid, pt(1), t), pt(k).y, sw.cv.p)
  {
    var r, z';
    r, mid, z' := LastStep(sw, pt, k, z);
    var b := Bit(Regular(k, sw.cv.n, sw.fn.radix), 0);
    var s := mid.Sum().SwappedIf(1 - b);
    ToAffine(sw.fp, pt(k), z', RecoveredInverse(sw.cv.p, b, mid, pt(1).x, pt(1).y), s.x2, s.y2);
  }

  lemma SignedCong(f: Field, a: int, b: int)
    requires f.m > 0 && Cong(a, b, f.m)
    ensures forall flag :: f.Qr(NegateIf(flag, a)) == f.Qr(NegateIf(flag, b))
  {
    forall flag: nat {
      NegateIfCong(flag, a, b, f.m);
    }
  }

  lemma OutputOfNothing(k: nat, b: nat, q: Point, mid: Regs, t: int)
    requires q.Affine? && k == 1 && b == 1 && mid.Sum() == mid && mid.x2 == 0 && mid.y2 == 0
    ensures OutputX(k, b, mid, q, t) == q.x && OutputY(k, b, mid, q, t) == q.y
  {
    ZeroTimes(mid.x2, t * t);
    ZeroTimes(mid.y2, t * t * t);
  }

  lemma NegateIfCong(flag: nat, a: int, b: int, m: nat)
    requires m > 0 && Cong(a, b, m)
    ensures Cong(NegateIf(flag, a), NegateIf(flag, b), m)
  {
    CongSub(0, 0, a, b, m);
  }

  /** The stage that recovers Z and converts the result to affine coordinates. */
  method InvZStage(c: Context, sw: SwCurve, ghost pt: int -> Point, ghost k: nat, ghost z: int)
    requires Base(sw, pt) && Loaded(c, sw, pt, k) && Position(c, sw, pt, k, z) && c.i == 0
    modifies c`x1, c`y1, c`x2, c`y2, c`t5, c`t6, c`t7, c`t8, c`swap, c`k, c`stage
    ensures Finished(c, sw, pt, k) && c.stage == STAGE_DONE
  {
    hide Multiples, Field.Mont, Field.Qr, Prefix, Regular, Bit, JacX, JacY, LineX, LineY, ScaledX, ScaledY;
    BitWithoutTop(c.k, sw.bits, 0);
    LastHold(c, sw, pt, k, z);
    ghost var mid := LastPlan(sw, pt, k, z);
    FinalPoint(c, sw.fp, Bit(c.k, 0), k, LastRegs(sw, pt, k, z), mid, pt(1), pt(k));
    RestoreScalar(c, sw.fn, k);
    c.stage := STAGE_DONE;
  }

  /** The last additions and the conversion of their result to affine coordinates. */
  method FinalPoint(c: Context, f: Field, b: nat, ghost k: nat, ghost r: Regs, ghost mid: Regs, ghost q: Point,
                    ghost res: Point)
    requires f.Valid() && b <= 1 && c.swap <= 1 && q.Affine? && res.Affine?
    requires Hold(c, f, r.SwappedIf((c.swap + b) % 2)) && Same(f, r.Conj(), mid)
    requires c.pointX == f.Mont(q.x) && c.pointY == f.Mont(q.y) && c.kOne == if k == 1 then 1 else 0
    requires var t := RecoveredInverse(f.m, b, mid, q.x, q.y);
             && f.Qr(OutputX(k, b, mid, q, t)) == f.Qr(res.x)
             && forall flag :: f.Qr(NegateIf(flag, OutputY(k, b, mid, q, t))) == f.Qr(NegateIf(flag, res.y))
    modifies c`x1, c`y1, c`x2, c`y2, c`t5, c`t6, c`t7, c`t8, c`swap
    ensures c.x1 == f.Qr(res.x) && c.y1 == f.Qr(NegateIf(c.invK, res.y))
  {
    LastAdditions(c, f, b, r, mid, q.x, q.y);
    OutputAffine(c, f, b, k, mid, q, RecoveredInverse(f.m, b, mid, q.x, q.y), res);
  }

  /** Output, in terms of what LastAdditions leaves. */
  method OutputAffine(c: Context, f: Field, b: nat, ghost k: nat, ghost mid: Regs, ghost q: Point, ghost t: int,
                      ghost res: Point)
    requires f.Valid() && b <= 1 && q.Affine? && Hold(c, f, mid.Sum().SwappedIf(1 - b))
    requires c.t8 == f.Mont(t)
    requires c.pointX == f.Mont(q.x) && c.pointY == f.Mont(q.y)
    requires res.Affine? && f.Qr(OutputX(k, b, mid, q, t)) == f.Qr(res.x)
    requires forall flag :: f.Qr(NegateIf(flag, OutputY(k, b, mid, q, t))) == f.Qr(NegateIf(flag, res.y))
    requires c.kOne == if k == 1 then 1 else 0
    modifies c`x1, c`y1, c`x2, c`y2, c`t5, c`t6, c`t7
    ensures c.x1 == f.Qr(res.x) && c.y1 == f.Qr(NegateIf(c.invK, res.y))
  {
    ghost var s := mid.Sum().SwappedIf(1 - b);
    Output(c, f, t, s.x2, s.y2, q.x, q.y);
  }

  // ---- one call ----

  /** What is true of a multiplication of pt(1) by k between calls, at every stage. */
  ghost predicate InProgress(c: Context, sw: SwCurve, pt: int -> Point, k: nat, z: int)
    requires sw.fp.m > 0 && pt(1).Affine? && sw.bits > 0 && sw.cv.p > 0
    reads c`x1, c`y1, c`x2, c`y2, c`k, c`pointX, c`pointY, c`stage, c`i, c`invK, c`kOne, c`swap
  {
    && c.stage <= STAGE_DONE
    && if c.stage == STAGE_DONE then Finished(c, sw, pt, k)
       else Loaded(c, sw, pt, k) && Position(c, sw, pt, k, z) && (c.i == 0 <==> c.stage == STAGE_INV_Z)
  }

  /** sb_sw_point_mult_continue: up to 16 ladder iterations, or the final stage, or nothing. */
  method PointMultContinue(c: Context, sw: SwCurve, ghost pt: int -> Point, ghost k: nat, ghost z: int)
    returns (done: bool, ghost z': int)
    requires Base(sw, pt) && InProgress(c, sw, pt, k, z)
    modifies c`x1, c`y1, c`x2, c`y2, c`t5, c`t6, c`t7, c`t8, c`k, c`swap, c`i, c`stage
    ensures InProgress(c, sw, pt, k, z')
    ensures done <==> c.stage == STAGE_DONE
    ensures old(c.stage) == STAGE_LADDER ==>
              && c.i == (if old(c.i) <= POINT_ITERATIONS then 0 else old(c.i) - POINT_ITERATIONS)
              && c.stage == (if c.i == 0 then STAGE_INV_Z else STAGE_LADDER)
    ensures old(c.stage) == STAGE_INV_Z ==> c.stage == STAGE_DONE
    ensures old(c.stage) == STAGE_DONE ==> unchanged(c)
  {
    hide Multiples;
    z' := z;
    if c.stage == STAGE_LADDER {
      z' := LadderSlice(c, sw, pt, k, z);
      if c.i == 0 {
        c.stage := STAGE_INV_Z;
      }
      done := false;
    } else if c.stage == STAGE_INV_Z {
      InvZStage(c, sw, pt, k, z);
      done := true;
    } else {
      done := c.stage == STAGE_DONE;
    }
  }

  /** At most 16 iterations of the loop. */
  method LadderSlice(c: Context, sw: SwCurve, ghost pt: int -> Point, ghost k: nat, ghost z: int)
    returns (ghost z': int)
    requires Base(sw, pt) && Loaded(c, sw, pt, k) && Position(c, sw, pt, k, z) && c.i > 0
    modifies c`x1, c`y1, c`x2, c`y2, c`t5, c`t6, c`t7, c`t8, c`swap, c`i
    ensures Position(c, sw, pt, k, z')
    ensures c.i == if old(c.i) <= POINT_ITERATIONS then 0 else old(c.i) - POINT_ITERATIONS
  {
    z' := z;
    var ops: nat := 0;
    while c.i > 0 && ops < POINT_ITERATIONS
      invariant Position(c, sw, pt, k, z')
      invariant c.i + ops == old(c.i) && ops <= POINT_ITERATIONS
      decreases c.i
    {
      z' := LadderIteration(c, sw, pt, k, z');
      ops := ops + 1;
    }
  }
}
