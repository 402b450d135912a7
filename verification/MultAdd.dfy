/** sb_sw_lib.c: k_p * P + k_g * G by Shamir's trick, with a masking point H added at every bit. */
module MultAdd {
  import opened ModArith
  import opened Primes
  import opened QuasiField
  import opened Curve
  import opened CoZ
  import opened Scalars
  import opened PointMult
  import opened PointMultRun

  const STAGE_VERIFY_INV_S: nat := 0
  const STAGE_VERIFY_INV_Z: nat := 1
  const STAGE_VERIFY_LADDER: nat := 2
  const STAGE_VERIFY_TEST: nat := 3
  const STAGE_VERIFY_DONE: nat := 4
  const MAX_SIZE: nat := 0xFFFF_FFFF

  // ---- the scalars of the points involved ----

  /** H and G + H are constants; h is the scalar of H, the inverse of 2^(bits + 1) - 1. */
  ghost predicate Masked(sw: SwCurve, pt: int -> Point, h: int)
    requires sw.cv.n > 0
  {
    && sw.g == pt(1) && sw.h == pt(h) && sw.gh == pt(1 + h)
    && sw.g.Affine? && sw.h.Affine? && sw.gh.Affine?
    && Cong((Pow2(sw.bits + 1) - 1) * h, 1, sw.cv.n)
  }

  /** Addition of the multiples u and v is not exceptional: neither is at infinity, and they are neither
      equal nor opposite. */
  ghost predicate AddSafe(u: int, v: int, n: nat)
    requires n > 0
  {
    u % n != 0 && v % n != 0 && (u + v) % n != 0 && (u - v) % n != 0
  }

  ghost function Pick(b: nat, s: int): int { if b == 1 then s else 0 }

  /** The scalar of the selected point H, G + H, P + H or P + G + H. */
  ghost function Selected(bp: nat, bg: nat, s: int, h: int): int {
    Pick(bp, s) + Pick(bg, 1) + h
  }

  /** The accumulated scalar once all bits from i upwards are processed. */
  ghost function Accumulated(kp: nat, kg: nat, s: int, h: int, bits: nat, i: nat): int
    requires i <= bits
  {
    Prefix(kp, i) * s + Prefix(kg, i) + (Pow2(bits - i + 1) - 1) * h
  }

  /** The scalar held when rem bits remain: H has been doubled beforehand for the top bit. */
  ghost function Held(kp: nat, kg: nat, s: int, h: int, bits: nat, rem: nat): int
    requires rem <= bits
  {
    if rem == bits then 2 * h else Accumulated(kp, kg, s, h, bits, rem)
  }

  ghost predicate BitSafe(kp: nat, kg: nat, s: int, h: int, bits: nat, n: nat, i: nat)
    requires n > 0 && i < bits
  {
    var a, v := Held(kp, kg, s, h, bits, i + 1), Selected(Bit(kp, i), Bit(kg, i), s, h);
    AddSafe(a, v, n) && (i < bits - 1 ==> AddSafe(a + v, a, n))
  }

  /** No addition at bit i or above is exceptional. */
  ghost predicate SafeFrom(kp: nat, kg: nat, s: int, h: int, bits: nat, n: nat, i: nat)
    requires n > 0 && i <= bits
    decreases bits - i
  {
    i < bits ==> BitSafe(kp, kg, s, h, bits, n, i) && SafeFrom(kp, kg, s, h, bits, n, i + 1)
  }

  /** One bit doubles the accumulated scalar and adds the selected one. */
  lemma AccumulateBit(kp: nat, kg: nat, s: int, h: int, bits: nat, i: nat)
    requires i < bits && kp < Pow2(bits) && kg < Pow2(bits)
    ensures Accumulated(kp, kg, s, h, bits, i)
         == 2 * Accumulated(kp, kg, s, h, bits, i + 1) + Selected(Bit(kp, i), Bit(kg, i), s, h)
    ensures Accumulated(kp, kg, s, h, bits, bits) == h
  {
    PrefixStep(kp, i);
    PrefixStep(kg, i);
    var j, w := Prefix(kp, i + 1), Pow2(bits - i);
    assert Pow2(bits - i + 1) == 2 * w;
    DoubledScalar(j, Bit(kp, i), s, w, h);
    PrefixTop(kp, bits);
    PrefixTop(kg, bits);
  }

  lemma DoubledScalar(j: int, b: nat, s: int, w: int, h: int)
    requires b <= 1
    ensures (2 * j + b) * s == 2 * (j * s) + Pick(b, s)
    ensures (2 * w - 1) * h == 2 * ((w - 1) * h) + h
  {
  }

  /** The copies of H add up to G and make good the one subtracted from the scalar of G. */
  lemma AccumulatedAll(kp: nat, kg: nat, s: int, h: int, bits: nat, n: nat)
    requires n > 0 && Cong((Pow2(bits + 1) - 1) * h, 1, n)
    ensures Cong(Accumulated(kp, kg, s, h, bits, 0), kp * s + (kg + 1), n)
  {
    CongAdd(kp * s + kg, kp * s + kg, (Pow2(bits + 1) - 1) * h, 1, n);
  }

  // ---- the register routines ----

  /** The new Z is computed before the co-Z addition. */
  method ZUpdate(c: Context, f: Field, ghost r: Regs, ghost z: int)
    requires f.Valid() && Hold(c, f, r) && c.z == f.Mont(z)
    modifies c`x1, c`y1, c`x2, c`y2, c`t5, c`t6, c`t7, c`z
    ensures Hold(c, f, r.Sum()) && c.z == f.Mont(z * DX(r.x1, r.x2))
  {
    MontSub(f, r.x2, r.x1);
    c.t6 := f.ModSub(c.x2, c.x1);
    MontTimes(f, DX(r.x1, r.x2), z);
    c.t5 := f.MontMul(c.t6, c.z);
    assert DX(r.x1, r.x2) * z == z * DX(r.x1, r.x2);
    c.z := c.t5;
    CoZAddUpdateZup(c, f, r.x1, r.y1, r.x2, r.y2);
  }

  /** Bring the affine point in (x2, y2) to the current Z. */
  method ApplyCurrentZ(c: Context, f: Field, ghost q: Point, ghost z: int)
    requires f.Valid() && q.Affine? && c.x2 == f.Mont(q.x) && c.y2 == f.Mont(q.y) && c.z == f.Mont(z)
    modifies c`x2, c`y2, c`t6, c`t7
    ensures Holds(f, c.x2, c.y2, q, z)
  {
    MontTimes(f, z, z);
    c.t6 := f.MontSquare(c.z);
    MontTimes(f, q.x, z * z);
    c.t7 := f.MontMul(c.x2, c.t6);
    c.x2 := c.t7;
    MontTimes(f, z * z, z);
    c.t7 := f.MontMul(c.t6, c.z);
    assert z * z * z == z * (z * z);
    MontTimes(f, q.y, z * (z * z));
    c.t6 := f.MontMul(c.y2, c.t7);
    c.y2 := c.t6;
  }

  /** One of H, G + H, P + H and P + G + H. */
  function Choice(sw: SwCurve, bp: nat, bg: nat, ph: Point, pgh: Point): Point {
    if bp == 1 && bg == 1 then pgh else if bp == 1 then ph else if bg == 1 then sw.gh else sw.h
  }

  /** Select a point by conditional swaps, and bring it to the current Z. */
  method Select(c: Context, sw: SwCurve, bp: nat, bg: nat, ghost ph: Point, ghost pgh: Point, ghost z: int)
    requires sw.fp.Valid() && sw.h.Affine? && sw.gh.Affine? && ph.Affine? && pgh.Affine?
    requires c.pointX == sw.fp.Mont(ph.x) && c.pointY == sw.fp.Mont(ph.y)
    requires c.qsThenPgX == sw.fp.Mont(pgh.x) && c.pgY == sw.fp.Mont(pgh.y) && c.z == sw.fp.Mont(z)
    modifies c`x2, c`y2, c`t5, c`t6, c`t7
    ensures Holds(sw.fp, c.x2, c.y2, Choice(sw, bp, bg, ph, pgh), z)
  {
    var f := sw.fp;
    c.x2 := f.Mont(sw.h.x);
    c.y2 := f.Mont(sw.h.y);
    c.t5 := f.Mont(sw.gh.x);
    c.t6 := f.Mont(sw.gh.y);
    SwapIn(c, bg);
    c.t5 := c.pointX;
    c.t6 := c.pointY;
    SwapIn(c, bp);
    c.t5 := c.qsThenPgX;
    c.t6 := c.pgY;
    SwapIn(c, if bp == 1 && bg == 1 then 1 else 0);
    ApplyCurrentZ(c, f, Choice(sw, bp, bg, ph, pgh), z);
  }

  method SwapIn(c: Context, flag: nat)
    modifies c`x2, c`y2, c`t5, c`t6
    ensures flag == 1 ==> c.x2 == old(c.t5) && c.y2 == old(c.t6)
    ensures flag != 1 ==> c.x2 == old(c.x2) && c.y2 == old(c.y2)
  {
    if flag == 1 {
      c.x2, c.t5 := c.t5, c.x2;
      c.y2, c.t6 := c.t6, c.y2;
    }
  }

  // ---- exceptional additions ----

  /** A pair that a Jacobian point with Z = 0 has: y^2 = x^3. */
  ghost predicate Cusp(p: nat, x: int, y: int)
    requires p > 0
  {
    Cong(y * y, x * (x * x), p)
  }

  ghost predicate Vanishes(p: nat, x: int, y: int)
    requires p > 0
  {
    x % p == 0 && y % p == 0
  }

  /** What the registers hold once an addition has been exceptional; then Z is zero too. */
  ghost predicate DeadPair(p: nat, r: Regs)
    requires p > 0
  {
    && Cusp(p, r.x1, r.y1) && Cusp(p, r.x2, r.y2)
    && (Vanishes(p, r.x1, r.y1) || Vanishes(p, r.x2, r.y2))
  }

  ghost predicate CongRegs(p: nat, r: Regs, s: Regs)
    requires p > 0
  {
    Cong(r.x1, s.x1, p) && Cong(r.y1, s.y1, p) && Cong(r.x2, s.x2, p) && Cong(r.y2, s.y2, p)
  }

  /** Addition respects residues. */
  lemma SumCong(p: nat, r: Regs, s: Regs)
    requires p > 0 && CongRegs(p, r, s)
    ensures CongRegs(p, r.Sum(), s.Sum())
  {
    var d, d', e, e' := DX(r.x1, r.x2), DX(s.x1, s.x2), r.y2 - r.y1, s.y2 - s.y1;
    CongSub(r.x2, s.x2, r.x1, s.x1, p);
    CongSub(r.y2, s.y2, r.y1, s.y1, p);
    CongMul(d, d', d, d', p);
    CongMul(d, d', d * d, d' * d', p);
    CongMul(r.x1, s.x1, d * d, d' * d', p);
    CongMul(r.y1, s.y1, d * (d * d), d' * (d' * d'), p);
    CongMul(e, e', e, e', p);
    CongAdd(r.x1, s.x1, r.x2, s.x2, p);
    CongMul(r.x1 + r.x2, s.x1 + s.x2, d * d, d' * d', p);
    var l, l' := LineX(r.x1, r.x2, e), LineX(s.x1, s.x2, e');
    CongSub(e * e, e' * e', (r.x1 + r.x2) * (d * d), (s.x1 + s.x2) * (d' * d'), p);
    CongSub(ScaledX(r.x1, r.x2), ScaledX(s.x1, s.x2), l, l', p);
    CongMul(e, e', ScaledX(r.x1, r.x2) - l, ScaledX(s.x1, s.x2) - l', p);
    CongSub(e * (ScaledX(r.x1, r.x2) - l), e' * (ScaledX(s.x1, s.x2) - l'),
            ScaledY(r.x1, r.y1, r.x2), ScaledY(s.x1, s.y1, s.x2), p);
  }

  lemma VanishingCusp(p: nat, x: int, y: int)
    requires p > 0 && Vanishes(p, x, y)
    ensures Cusp(p, x, y)
  {
    SmallMod(0, p);
    CongMul(y, 0, y, y, p);
    CongMul(x, 0, x * x, x * x, p);
    ZeroTimes(0, y);
    ZeroTimes(0, x * x);
  }

  lemma CuspCong(p: nat, x: int, y: int, x': int, y': int)
    requires p > 0 && Cusp(p, x, y) && Cong(x, x', p) && Cong(y, y', p)
    ensures Cusp(p, x', y')
  {
    CongMul(y, y', y, y', p);
    CongMul(x, x', x, x', p);
    CongMul(x, x', x * x, x' * x', p);
  }

  lemma DeadCong(p: nat, r: Regs, s: Regs)
    requires p > 0 && DeadPair(p, r) && CongRegs(p, r, s)
    ensures DeadPair(p, s)
  {
    CuspCong(p, r.x1, r.y1, s.x1, s.y1);
    CuspCong(p, r.x2, r.y2, s.x2, s.y2);
  }

  /** Adding points of the same x coordinate, equal or opposite, is exceptional. */
  lemma SumOfSameX(p: nat, r: Regs)
    requires p > 0 && Cong(r.x1, r.x2, p)
    ensures DeadPair(p, r.Sum()) && DX(r.x1, r.x2) % p == 0
  {
    var s := Regs(r.x1, r.y1, r.x1, r.y2);
    var e := r.y2 - r.y1;
    SumCong(p, r, s);
    CongIffDiff(r.x2, r.x1, p);
    SameXSum(s, e);
    SmallMod(0, p);
    VanishingCusp(p, s.Sum().x2, s.Sum().y2);
    assert (-(e * e * e)) * (-(e * e * e)) == e * e * (e * e * (e * e));
    DeadCong(p, s.Sum(), r.Sum());
  }

  lemma SameXSum(s: Regs, e: int)
    requires s.x1 == s.x2 && e == s.y2 - s.y1
    ensures s.Sum() == Regs(e * e, -(e * e * e), 0, 0)
  {
    var d := DX(s.x1, s.x2);
    ZeroTimes(d, d);
    ZeroTimes(d * d, s.x1 + s.x2);
    ZeroTimes(d * d, s.x1);
    ZeroTimes(d, d * d);
    ZeroTimes(d * (d * d), s.y1);
    assert e * (0 - e * e) == -(e * e * e);
  }

  /** After that every addition stays exceptional. */
  lemma SumOfDead(p: nat, r: Regs)
    requires p > 0 && DeadPair(p, r)
    ensures DeadPair(p, r.Sum())
  {
    SmallMod(0, p);
    if Vanishes(p, r.x1, r.y1) {
      var s := Regs(0, 0, r.x2, r.y2);
      SumCong(p, r, s);
      NothingPlus(p, s);
      DeadCong(p, s.Sum(), r.Sum());
    } else {
      var s := Regs(r.x1, r.y1, 0, 0);
      SumCong(p, r, s);
      PlusNothing(p, s);
      DeadCong(p, s.Sum(), r.Sum());
    }
  }

  lemma NothingPlus(p: nat, s: Regs)
    requires p > 0 && s.x1 == 0 && s.y1 == 0 && Cusp(p, s.x2, s.y2)
    ensures DeadPair(p, s.Sum())
  {
    var x, y := s.x2, s.y2;
    var l := y * y - x * (x * x);
    CongIffDiff(y * y, x * (x * x), p);
    SmallMod(0, p);
    NothingPlusSum(s, l);
    CongMul(y, y, l, 0, p);
    CongNeg(y * l, p);
    VanishingCusp(p, l, -(y * l));
    VanishingCusp(p, 0, 0);
  }

  lemma NothingPlusSum(s: Regs, l: int)
    requires s.x1 == 0 && s.y1 == 0 && l == s.y2 * s.y2 - s.x2 * (s.x2 * s.x2)
    ensures s.Sum() == Regs(l, -(s.y2 * l), 0, 0)
  {
    var x, y := s.x2, s.y2;
    ZeroTimes(s.x1, x * x);
    ZeroTimes(s.y1, x * (x * x));
    assert y * (0 - l) == -(y * l);
  }

  lemma PlusNothing(p: nat, s: Regs)
    requires p > 0 && s.x2 == 0 && s.y2 == 0 && Cusp(p, s.x1, s.y1)
    ensures DeadPair(p, s.Sum())
  {
    var x, y := s.x1, s.y1;
    var l, t := y * y - x * (x * x), x * (x * x);
    CongIffDiff(y * y, t, p);
    SmallMod(0, p);
    PlusNothingSum(s, l, t);
    CongMul(y, y, l, 0, p);
    VanishingCusp(p, l, y * l);
    CongMul(y * y, t, t * t, t * t, p);
    assert (-(y * t)) * (-(y * t)) == (y * y) * (t * t);
  }

  lemma PlusNothingSum(s: Regs, l: int, t: int)
    requires s.x2 == 0 && s.y2 == 0 && t == s.x1 * (s.x1 * s.x1) && l == s.y1 * s.y1 - t
    ensures s.Sum() == Regs(l, s.y1 * l, t, -(s.y1 * t))
  {
    var x, y := s.x1, s.y1;
    var d := DX(x, s.x2);
    assert d == -x && d * d == x * x && d * (d * d) == -t;
    assert (-y) * (-y) == y * y;
    assert y * (-t) == -(y * t);
    assert (-y) * (t - l) - (-(y * t)) == y * l;
  }

  // ---- one addition, exceptional or not ----

  /** Points that have a chord. */
  ghost predicate Apart(q: Point, r: Point) {
    q.Affine? && r.Affine? && q.x != r.x
  }

  /** The registers hold the points q and r at Z = z; or, after an exceptional addition, nothing. */
  ghost predicate Operands(p: nat, ok: bool, q: Point, r: Point, regs: Regs, z: int)
    requires p > 0
  {
    if ok then Residues(p, q) && Residues(p, r) && regs == Pair(q, r, z) && z % p != 0
    else DeadPair(p, regs) && z % p == 0
  }

  lemma SumOfApart(sw: SwCurve, q: Point, r: Point, z: int) returns (z': int)
    requires sw.Sound() && Residues(sw.cv.p, q) && Residues(sw.cv.p, r) && Apart(q, r) && z % sw.cv.p != 0
    ensures z' == NextZ(q.x, r.x, z) && z' % sw.cv.p != 0 && Residues(sw.cv.p, sw.cv.Add(q, r))
    ensures Same(sw.fp, Pair(q, r, z).Sum(), Pair(sw.cv.Add(q, r), q, z'))
  {
    hide Same, Chord, OnLine;
    AddIsChord(sw.cv, q, r);
    z' := SumOnChord(sw, q, r, sw.cv.Add(q, r), z);
  }

  /** An addition is along the chord, and exceptional if there is none. */
  lemma NextOperands(sw: SwCurve, ok: bool, q: Point, r: Point, regs: Regs, z: int)
    returns (regs': Regs, z': int)
    requires sw.Sound() && Operands(sw.cv.p, ok, q, r, regs, z)
    ensures Operands(sw.cv.p, ok && Apart(q, r), sw.cv.Add(q, r), q, regs', z')
    ensures Same(sw.fp, regs.Sum(), regs') && z' == z * DX(regs.x1, regs.x2)
  {
    var p := sw.cv.p;
    if ok && Apart(q, r) {
      z' := SumOfApart(sw, q, r, z);
      regs' := Pair(sw.cv.Add(q, r), q, z');
    } else {
      regs', z' := regs.Sum(), z * DX(regs.x1, regs.x2);
      SmallMod(0, p);
      if ok {
        SumOfSameX(p, regs);
        CongMul(z, z, DX(regs.x1, regs.x2), 0, p);
      } else {
        SumOfDead(p, regs);
        CongMul(z, 0, DX(regs.x1, regs.x2), DX(regs.x1, regs.x2), p);
      }
      ZeroTimes(0, z);
      ZeroTimes(0, DX(regs.x1, regs.x2));
    }
  }

  method AddPoints(c: Context, sw: SwCurve, ghost ok: bool, ghost q: Point, ghost r: Point, ghost regs: Regs,
                   ghost z: int)
    returns (ghost regs': Regs, ghost z': int)
    requires sw.Sound() && Operands(sw.cv.p, ok, q, r, regs, z)
    requires Hold(c, sw.fp, regs) && c.z == sw.fp.Mont(z)
    modifies c`x1, c`y1, c`x2, c`y2, c`t5, c`t6, c`t7, c`z
    ensures Operands(sw.cv.p, ok && Apart(q, r), sw.cv.Add(q, r), q, regs', z')
    ensures Hold(c, sw.fp, regs') && c.z == sw.fp.Mont(z')
  {
    hide Operands, Apart;
    regs', z' := NextOperands(sw, ok, q, r, regs, z);
    ZUpdate(c, sw.fp, regs, z);
    SameHold(c, sw.fp, regs.Sum(), regs');
  }

  // ---- the loop ----

  /** Whether every addition so far has been along a chord, and the point then held. */
  datatype Scan = Scan(ok: bool, q: Point) {
    /** Add s, and below the top bit add the point held once more. */
    ghost function Next(cv: Curve, s: Point, top: bool): Scan
      requires cv.p >= 2
    {
      var sum := cv.Add(q, s);
      Scan(ok && Apart(q, s) && (!top ==> Apart(sum, q)), if top then sum else cv.Add(sum, q))
    }
  }

  /** The constants are affine points, and H is not its own negative. */
  ghost predicate Constants(sw: SwCurve)
    requires sw.cv.p > 0
  {
    && Residues(sw.cv.p, sw.g) && Residues(sw.cv.p, sw.h) && Residues(sw.cv.p, sw.gh)
    && (2 * sw.h.y) % sw.cv.p != 0
  }

  /** The loop in terms of affine points, when rem bits remain: from 2 H, for the scalars kp and kg, with ph and
      pgh in place of P + H and P + G + H. */
  ghost function Run(sw: SwCurve, kp: nat, kg: nat, ph: Point, pgh: Point, rem: nat): Scan
    requires sw.cv.p >= 2
    decreases sw.bits - rem
  {
    if rem >= sw.bits then Scan(true, sw.cv.Add(sw.h, sw.h))
    else
      var selected := Choice(sw, Bit(kp, rem), Bit(kg, rem), ph, pgh);
      Run(sw, kp, kg, ph, pgh, rem + 1).Next(sw.cv, selected, rem + 1 == sw.bits)
  }

  /** Integers whose Montgomery forms the accumulator (x1, y1) and the Z register hold. */
  datatype Acc = Acc(x: int, y: int, z: int)

  ghost predicate HoldAcc(c: Context, f: Field, acc: Acc)
    requires f.m > 0
    reads c`x1, c`y1, c`z
  {
    c.x1 == f.Mont(acc.x) && c.y1 == f.Mont(acc.y) && c.z == f.Mont(acc.z)
  }

  /** The accumulator is the point held; or an addition was exceptional and Z is zero. */
  ghost predicate AccIs(p: nat, was: Scan, acc: Acc)
    requires p > 0
  {
    if was.ok then Residues(p, was.q) && acc.x == JacX(was.q, acc.z) && acc.y == JacY(was.q, acc.z) && acc.z % p != 0
    else Cusp(p, acc.x, acc.y) && acc.z % p == 0
  }

  /** The accumulator beside an affine point at the current Z. */
  lemma LoopOperands(p: nat, was: Scan, s: Point, acc: Acc) returns (r: Regs)
    requires p > 0 && AccIs(p, was, acc) && Residues(p, s)
    ensures r == Regs(acc.x, acc.y, JacX(s, acc.z), JacY(s, acc.z)) && Operands(p, was.ok, was.q, s, r, acc.z)
  {
    var z := acc.z;
    r := Regs(acc.x, acc.y, JacX(s, z), JacY(s, z));
    if !was.ok {
      SmallMod(0, p);
      CongMul(z, 0, z, z, p);
      CongMul(z * z, 0, s.x, s.x, p);
      CongMul(z, 0, z * z, z * z, p);
      CongMul(z * (z * z), 0, s.y, s.y, p);
      VanishingCusp(p, JacX(s, z), JacY(s, z));
    }
  }

  /** Add the selected point, and below the top bit add the accumulator once more. */
  method LoopAdditions(c: Context, sw: SwCurve, ghost was: Scan, ghost s: Point, top: bool, ghost acc: Acc)
    returns (ghost acc': Acc)
    requires sw.Sound() && Residues(sw.cv.p, s)
    requires AccIs(sw.cv.p, was, acc) && HoldAcc(c, sw.fp, acc) && Holds(sw.fp, c.x2, c.y2, s, acc.z)
    modifies c`x1, c`y1, c`x2, c`y2, c`t5, c`t6, c`t7, c`z
    ensures HoldAcc(c, sw.fp, acc') && AccIs(sw.cv.p, was.Next(sw.cv, s, top), acc')
  {
    ghost var r := LoopOperands(sw.cv.p, was, s, acc);
    ghost var z;
    r, z := AddPoints(c, sw, was.ok, was.q, s, r, acc.z);
    if !top {
      r, z := AddPoints(c, sw, was.ok && Apart(was.q, s), sw.cv.Add(was.q, s), was.q, r, z);
    }
    acc' := Acc(r.x1, r.y1, z);
  }

  /** The points the loop selects from are in place: P + H in the point registers, P + G + H beside them. */
  ghost predicate Table(c: Context, f: Field, ph: Point, pgh: Point)
    requires f.m > 0
    reads c`pointX, c`pointY, c`qsThenPgX, c`pgY
  {
    && Residues(f.m, ph) && Residues(f.m, pgh)
    && c.pointX == f.Mont(ph.x) && c.pointY == f.Mont(ph.y)
    && c.qsThenPgX == f.Mont(pgh.x) && c.pgY == f.Mont(pgh.y)
  }

  /** How many bits remain: the index has wrapped around after bit 0. */
  function Remaining(i: nat, bits: nat): (rem: nat)
    ensures rem <= bits
  {
    if i >= bits then 0 else i + 1
  }

  /** One bit of the loop: R := R + S at the top bit, where R has been doubled already, and 2 R + S below. */
  method LoopBit(c: Context, sw: SwCurve, ghost ph: Point, ghost pgh: Point, ghost was: Scan, ghost acc: Acc)
    returns (ghost acc': Acc)
    requires sw.Sound() && Constants(sw) && Table(c, sw.fp, ph, pgh)
    requires HoldAcc(c, sw.fp, acc) && AccIs(sw.cv.p, was, acc) && c.i < sw.bits
    modifies c`x1, c`y1, c`x2, c`y2, c`t5, c`t6, c`t7, c`z, c`i
    ensures HoldAcc(c, sw.fp, acc')
    ensures AccIs(sw.cv.p, was.Next(sw.cv, Choice(sw, Bit(c.k, old(c.i)), Bit(c.messageThenKg, old(c.i)), ph, pgh),
                                    old(c.i) + 1 == sw.bits), acc')
    ensures c.i == if old(c.i) == 0 then MAX_SIZE else old(c.i) - 1
  {
    hide AccIs, Scan.Next, Bit;
    var bp, bg := Bit(c.k, c.i), Bit(c.messageThenKg, c.i);
    Select(c, sw, bp, bg, ph, pgh, acc.z);
    acc' := LoopAdditions(c, sw, was, Choice(sw, bp, bg, ph, pgh), c.i == sw.bits - 1, acc);
    c.i := if c.i == 0 then MAX_SIZE else c.i - 1;
  }

  /** At most 16 iterations; the index wraps around after bit 0. */
  method LoopSlice(c: Context, sw: SwCurve, ghost ph: Point, ghost pgh: Point, ghost acc: Acc)
    returns (ghost acc': Acc)
    requires sw.Sound() && Constants(sw) && Table(c, sw.fp, ph, pgh) && HoldAcc(c, sw.fp, acc)
    requires AccIs(sw.cv.p, Run(sw, c.k, c.messageThenKg, ph, pgh, Remaining(c.i, sw.bits)), acc)
    modifies c`x1, c`y1, c`x2, c`y2, c`t5, c`t6, c`t7, c`z, c`i
    ensures HoldAcc(c, sw.fp, acc')
    ensures AccIs(sw.cv.p, Run(sw, c.k, c.messageThenKg, ph, pgh, Remaining(c.i, sw.bits)), acc')
    ensures var rem := old(Remaining(c.i, sw.bits));
            Remaining(c.i, sw.bits) == if rem <= POINT_ITERATIONS then 0 else rem - POINT_ITERATIONS
  {
    hide Table, HoldAcc, AccIs, Scan.Next, Bit, Constants, Run, Choice;
    acc' := acc;
    var ops: nat := 0;
    while c.i < sw.bits && ops < POINT_ITERATIONS
      invariant HoldAcc(c, sw.fp, acc')
      invariant AccIs(sw.cv.p, Run(sw, c.k, c.messageThenKg, ph, pgh, Remaining(c.i, sw.bits)), acc')
      invariant Remaining(c.i, sw.bits) + ops == old(Remaining(c.i, sw.bits)) && ops <= POINT_ITERATIONS
      decreases POINT_ITERATIONS - ops
    {
      RunStep(sw, c.k, c.messageThenKg, ph, pgh, c.i);
      acc' := LoopBit(c, sw, ph, pgh, Run(sw, c.k, c.messageThenKg, ph, pgh, c.i + 1), acc');
      ops := ops + 1;
    }
  }

  lemma RunStep(sw: SwCurve, kp: nat, kg: nat, ph: Point, pgh: Point, i: nat)
    requires sw.cv.p >= 2 && i < sw.bits
    ensures Run(sw, kp, kg, ph, pgh, i) ==
            Run(sw, kp, kg, ph, pgh, i + 1).Next(sw.cv, Choice(sw, Bit(kp, i), Bit(kg, i), ph, pgh), i + 1 == sw.bits)
  {
    hide Scan.Next;
  }

  // ---- the stage before the loop ----

  /** Adding H to P, and then G to the sum, is along chords. */
  ghost predicate TableSafe(sw: SwCurve, q: Point)
    requires sw.cv.p >= 2
  {
    Apart(q, sw.h) && Apart(sw.cv.Add(q, sw.h), sw.g)
  }

  /** What takes the place of P + H in the table: (0, 0) if an addition is exceptional. */
  ghost function TableH(sw: SwCurve, q: Point): Point
    requires sw.cv.p >= 2
  {
    if TableSafe(sw, q) then sw.cv.Add(q, sw.h) else Affine(0, 0)
  }

  /** And in the place of P + G + H. */
  ghost function TableGH(sw: SwCurve, q: Point): Point
    requires sw.cv.p >= 2
  {
    if TableSafe(sw, q) then sw.cv.Add(sw.cv.Add(q, sw.h), sw.g) else Affine(0, 0)
  }

  /** P + H, and then P + G + H with P + H rescaled to the same Z. */
  method AddMasks(c: Context, sw: SwCurve, ghost q: Point) returns (ghost r: Regs, ghost z: int)
    requires sw.Sound() && Constants(sw) && Residues(sw.cv.p, q)
    requires c.x1 == sw.fp.Mont(q.x) && c.y1 == sw.fp.Mont(q.y)
    modifies c`x1, c`y1, c`x2, c`y2, c`t5, c`t6, c`t7, c`z
    ensures Hold(c, sw.fp, r) && c.z == sw.fp.Mont(z)
    ensures var ph := sw.cv.Add(q, sw.h); Operands(sw.cv.p, TableSafe(sw, q), sw.cv.Add(ph, sw.g), ph, r, z)
  {
    hide Curve.Add, Apart, DeadPair;
    var f := sw.fp;
    c.x2 := f.Mont(sw.h.x);
    c.y2 := f.Mont(sw.h.y);
    c.z := f.Mont(1);
    SmallMod(1, sw.cv.p);
    r, z := AddPoints(c, sw, true, q, sw.h, Pair(q, sw.h, 1), 1);
    c.x2 := f.Mont(sw.g.x);
    c.y2 := f.Mont(sw.g.y);
    ApplyCurrentZ(c, f, sw.g, z);
    ghost var sum := Scan(Apart(q, sw.h), sw.cv.Add(q, sw.h));
    SumIs(sw.cv.p, sum, q, r, z);
    r := LoopOperands(sw.cv.p, sum, sw.g, Acc(r.x1, r.y1, z));
    r, z := AddPoints(c, sw, sum.ok, sum.q, sw.g, r, z);
  }

  lemma SumIs(p: nat, sum: Scan, q: Point, r: Regs, z: int)
    requires p > 0 && Operands(p, sum.ok, sum.q, q, r, z)
    ensures AccIs(p, sum, Acc(r.x1, r.y1, z))
  {
  }

  /** Both points converted to affine coordinates with one inversion; after an exceptional addition both
      become (0, 0). */
  method StoreTable(c: Context, sw: SwCurve, ghost q: Point, ghost r: Regs, ghost z: int)
    requires sw.Sound() && c.z == sw.fp.Mont(z) && Hold(c, sw.fp, r)
    requires var ph := sw.cv.Add(q, sw.h); Operands(sw.cv.p, TableSafe(sw, q), sw.cv.Add(ph, sw.g), ph, r, z)
    modifies c`t5, c`t6, c`t7, c`pointX, c`pointY, c`qsThenPgX, c`pgY
    ensures Table(c, sw.fp, TableH(sw, q), TableGH(sw, q))
  {
    hide TableSafe, Curve.Add;
    var f := sw.fp;
    ghost var t := Inv(z, f.m);
    c.t5 := c.z;
    MontInverted(f, z);
    c.t5 := f.MontInv(c.t5);
    MontTimes(f, t, t);
    c.t6 := f.MontSquare(c.t5);
    MontTimes(f, t, t * t);
    c.t7 := f.MontMul(c.t5, c.t6);
    Entry(sw, TableH(sw, q), r.x2, r.y2, z);
    c.pointX := f.MontMul(c.x2, c.t6);
    c.pointY := f.MontMul(c.y2, c.t7);
    Entry(sw, TableGH(sw, q), r.x1, r.y1, z);
    c.qsThenPgX := f.MontMul(c.x1, c.t6);
    c.pgY := f.MontMul(c.y1, c.t7);
  }

  /** An entry of the table: a point in Jacobian coordinates, or (0, 0) if Z is zero. */
  lemma Entry(sw: SwCurve, q: Point, x: int, y: int, z: int)
    requires sw.Sound() && q.Affine?
    requires if z % sw.cv.p != 0 then x == JacX(q, z) && y == JacY(q, z) else q == Affine(0, 0)
    ensures var f, t := sw.fp, Inv(z, sw.cv.p);
            && f.MontMul(f.Mont(x), f.Mont(t * t)) == f.Mont(q.x)
            && f.MontMul(f.Mont(y), f.Mont(t * (t * t))) == f.Mont(q.y)
  {
    var f, t := sw.fp, Inv(z, sw.cv.p);
    if z % sw.cv.p != 0 {
      Divided(f, q, z);
    } else {
      InvZero(z, sw.cv.p);
      ZeroTimes(t, t);
      ZeroTimes(t, t * t);
      MontTimes(f, x, 0);
      MontTimes(f, y, 0);
      ZeroTimes(0, x);
      ZeroTimes(0, y);
    }
  }

  lemma Divided(f: Field, q: Point, z: int)
    requires f.Valid() && z % f.m != 0 && q.Affine?
    ensures var t := Inv(z, f.m);
            && f.MontMul(f.Mont(JacX(q, z)), f.Mont(t * t)) == f.Mont(q.x)
            && f.MontMul(f.Mont(JacY(q, z)), f.Mont(t * (t * t))) == f.Mont(q.y)
  {
    var t := Inv(z, f.m);
    var x, y := JacX(q, z), JacY(q, z);
    ToAffine(f, q, z, t, x, y);
    MontTimes(f, x, t * t);
    MontTimes(f, y, t * (t * t));
    assert x * (t * t) == t * t * x;
    assert y * (t * (t * t)) == t * t * t * y;
    MontEqual(f, x * (t * t), q.x);
    MontEqual(f, y * (t * (t * t)), q.y);
  }

  /** The accumulator starts at 2 H, with the initial Z applied. */
  method StartAccumulator(c: Context, sw: SwCurve, ghost h2: Point, ghost zv: int) returns (ghost acc: Acc)
    requires sw.fp.Valid() && sw.HasThird() && sw.cv.p == sw.fp.m && sw.h.Affine? && Tangent(sw.cv, sw.h, h2)
    requires (2 * sw.h.y) % sw.cv.p != 0 && zv % sw.cv.p != 0 && c.t8 == sw.fp.Mont(zv)
    modifies c`x1, c`y1, c`x2, c`y2, c`t5, c`t6, c`t7, c`z
    ensures HoldAcc(c, sw.fp, acc) && acc.z % sw.cv.p != 0
    ensures h2.Affine? && acc.x == JacX(h2, acc.z) && acc.y == JacY(h2, acc.z)
  {
    var f := sw.fp;
    ghost var z2 := 2 * sw.h.y;
    c.x2 := f.Mont(sw.h.x);
    c.y2 := f.Mont(sw.h.y);
    DoubleMeans(sw, sw.h, h2);
    InitialDouble(c, sw, sw.h.x, sw.h.y);
    c.z := c.t8;
    ApplyCurrentZ(c, f, Affine(JacX(h2, z2), JacY(h2, z2)), zv);
    Rescaled(h2, z2, zv);
    MontTimes(f, zv, z2);
    c.t6 := f.MontMul(c.z, c.t5);
    assert zv * z2 == z2 * zv;
    c.z := c.t6;
    c.x1 := c.x2;
    c.y1 := c.y2;
    if (z2 * zv) % f.m == 0 {
      PrimeDividesProduct(z2, zv, f.m);
    }
    acc := Acc(JacX(h2, z2 * zv), JacY(h2, z2 * zv), z2 * zv);
  }

  /** The input point, out of the Montgomery domain, is multiplied by the radix. */
  method ConvertPoint(c: Context, f: Field, ghost q: Point)
    requires f.Valid() && q.Affine? && c.pointX == f.Qr(q.x) && c.pointY == f.Qr(q.y)
    modifies c`x1, c`y1, c`pointX, c`pointY
    ensures c.x1 == c.pointX == f.Mont(q.x) && c.y1 == c.pointY == f.Mont(q.y)
  {
    MontConverted(f, c.pointX);
    MontEqual(f, c.pointX, q.x);
    c.x1 := f.MontConvert(c.pointX);
    c.pointX := c.x1;
    MontConverted(f, c.pointY);
    MontEqual(f, c.pointY, q.y);
    c.y1 := f.MontConvert(c.pointY);
    c.pointY := c.y1;
  }

  /** P + H and P + G + H in affine coordinates, from P out of the Montgomery domain. */
  method PrepareTable(c: Context, sw: SwCurve, ghost q: Point)
    requires sw.Sound() && Constants(sw) && Residues(sw.cv.p, q)
    requires c.pointX == sw.fp.Qr(q.x) && c.pointY == sw.fp.Qr(q.y)
    modifies c`x1, c`y1, c`x2, c`y2, c`t5, c`t6, c`t7, c`z, c`pointX, c`pointY, c`qsThenPgX, c`pgY
    ensures Table(c, sw.fp, TableH(sw, q), TableGH(sw, q))
  {
    hide Constants, Operands, TableSafe, TableH, TableGH, Curve.Add;
    ConvertPoint(c, sw.fp, q);
    ghost var r, z := AddMasks(c, sw, q);
    StoreTable(c, sw, q, r, z);
  }

  /** The stage before the loop: the table of points and the accumulator are prepared, and kg makes good the
      copies of H that the loop adds. */
  method PrepareMultAdd(c: Context, sw: SwCurve, ghost q: Point, ghost zv: int) returns (ghost acc: Acc)
    requires sw.Sound() && Constants(sw) && Residues(sw.cv.p, q)
    requires c.pointX == sw.fp.Qr(q.x) && c.pointY == sw.fp.Qr(q.y)
    requires c.z == sw.fp.Mont(zv) && zv % sw.cv.p != 0 && 1 <= c.messageThenKg <= sw.cv.n
    modifies c`x1, c`y1, c`x2, c`y2, c`t5, c`t6, c`t7, c`t8, c`z, c`pointX, c`pointY,
             c`messageThenKg, c`qsThenPgX, c`pgY, c`i, c`stage
    ensures c.messageThenKg == old(c.messageThenKg) - 1
    ensures Table(c, sw.fp, TableH(sw, q), TableGH(sw, q)) && HoldAcc(c, sw.fp, acc)
    ensures AccIs(sw.cv.p, Scan(true, sw.cv.Add(sw.h, sw.h)), acc)
    ensures c.i == sw.bits - 1 && c.stage == STAGE_VERIFY_LADDER
  {
    hide Constants, Table, HoldAcc, AccIs, TableH, TableGH, Curve.Add;
    SmallMod(c.messageThenKg - 1, sw.fn.radix);
    c.messageThenKg := (c.messageThenKg - 1) % sw.fn.radix;
    c.t8 := c.z;
    PrepareTable(c, sw, q);
    acc := DoubleMask(c, sw, zv);
    c.i := sw.bits - 1;
    c.stage := STAGE_VERIFY_LADDER;
  }

  /** The accumulator is twice the masking point. */
  method DoubleMask(c: Context, sw: SwCurve, ghost zv: int) returns (ghost acc: Acc)
    requires sw.Sound() && Constants(sw) && zv % sw.cv.p != 0 && c.t8 == sw.fp.Mont(zv)
    modifies c`x1, c`y1, c`x2, c`y2, c`t5, c`t6, c`t7, c`z
    ensures HoldAcc(c, sw.fp, acc) && AccIs(sw.cv.p, Scan(true, sw.cv.Add(sw.h, sw.h)), acc)
  {
    hide Curve.Add, Tangent;
    AddIsTangent(sw.cv, sw.h);
    acc := StartAccumulator(c, sw, sw.cv.Add(sw.h, sw.h), zv);
  }

  /** After the last bit the accumulator leaves the Montgomery domain; Z stays in it. */
  method FinishMultAdd(c: Context, f: Field, ghost acc: Acc)
    requires f.Valid() && HoldAcc(c, f, acc)
    modifies c`x1, c`y1, c`t6, c`stage
    ensures c.x1 == f.Qr(acc.x) && c.y1 == f.Qr(acc.y) && c.z == f.Mont(acc.z) && c.stage == STAGE_VERIFY_TEST
  {
    MontReduced(f, acc.x);
    c.t6 := c.x1;
    c.x1 := f.MontReduce(c.t6);
    MontReduced(f, acc.y);
    c.t6 := c.y1;
    c.y1 := f.MontReduce(c.t6);
    c.stage := STAGE_VERIFY_TEST;
  }

  // ---- what the loop computes, in scalars ----

  lemma MaskedConstants(sw: SwCurve, pt: int -> Point, h: int)
    requires sw.Sound() && Multiples(sw.cv, pt) && Masked(sw, pt, h)
    ensures Constants(sw) && sw.cv.Add(sw.h, sw.h) == pt(2 * h) && pt(2 * h).Affine?
  {
    IsAffine(sw.cv, pt, 1);
    IsAffine(sw.cv, pt, h);
    IsAffine(sw.cv, pt, 1 + h);
    IsAffine(sw.cv, pt, 2 * h);
    MultipleDouble(sw.cv, pt, h);
    assert AddsAt(sw.cv, pt, h, h);
    assert h + h == 2 * h;
  }

  /** The chord of two finite multiples is missing exactly if they are equal or opposite. */
  lemma ApartIff(cv: Curve, pt: int -> Point, u: int, v: int)
    requires Multiples(cv, pt) && pt(u).Affine? && pt(v).Affine?
    ensures Apart(pt(u), pt(v)) <==> AddSafe(u, v, cv.n)
    ensures cv.Add(pt(u), pt(v)) == pt(u + v)
    ensures AddSafe(u, v, cv.n) ==> pt(u + v).Affine?
  {
    IsAffine(cv, pt, u);
    IsAffine(cv, pt, v);
    IsAffine(cv, pt, u + v);
    assert AddsAt(cv, pt, u, v);
    if AddSafe(u, v, cv.n) {
      MultipleSum(cv, pt, u, v);
      SmallMod(0, cv.p);
    } else {
      EqualOrOpposite(cv, pt, u, v);
    }
  }

  lemma EqualOrOpposite(cv: Curve, pt: int -> Point, u: int, v: int)
    requires Multiples(cv, pt) && pt(u).Affine? && pt(v).Affine? && !AddSafe(u, v, cv.n)
    ensures pt(u).x == pt(v).x
  {
    IsAffine(cv, pt, u);
    IsAffine(cv, pt, v);
    if (u - v) % cv.n == 0 {
      CongIffDiff(u, v, cv.n);
      MultipleCong(cv, pt, u, v);
    } else {
      CongIffDiff(u, -v, cv.n);
      MultipleCong(cv, pt, u, -v);
      MultipleNegate(cv, pt, v);
    }
  }

  /** Preparing the table for the public key s times the generator is exceptional exactly for H, -H, G - H and
      -G - H. */
  lemma TableSafeIff(sw: SwCurve, pt: int -> Point, s: int, h: int)
    requires sw.Sound() && Multiples(sw.cv, pt) && Masked(sw, pt, h) && pt(s).Affine?
    ensures TableSafe(sw, pt(s)) <==> AddSafe(s, h, sw.cv.n) && AddSafe(s + h, 1, sw.cv.n)
    ensures TableSafe(sw, pt(s)) ==> TableH(sw, pt(s)) == pt(s + h) && TableGH(sw, pt(s)) == pt(s + h + 1)
                                     && pt(s + h).Affine? && pt(s + h + 1).Affine?
  {
    hide Multiples, AddSafe, Apart, Curve.Add;
    ApartIff(sw.cv, pt, s, h);
    if AddSafe(s, h, sw.cv.n) {
      ApartIff(sw.cv, pt, s + h, 1);
    }
  }

  lemma ChoiceIs(sw: SwCurve, pt: int -> Point, s: int, h: int, bp: nat, bg: nat)
    requires sw.h == pt(h) && sw.gh == pt(1 + h) && bp <= 1 && bg <= 1
    ensures Choice(sw, bp, bg, pt(s + h), pt(s + h + 1)) == pt(Selected(bp, bg, s, h))
  {
    assert s + h + 1 == s + 1 + h && 0 + h == h && 0 + 0 + h == h && s + 0 + h == s + h && 0 + 1 + h == 1 + h;
  }

  /** The loop holds the multiple that the prefixes of both scalars determine, as long as no addition is
      exceptional. */
  lemma {:induction false} RunIsMultiple(sw: SwCurve, pt: int -> Point, s: int, h: int, kp: nat, kg: nat, rem: nat)
    requires sw.Sound() && Multiples(sw.cv, pt) && Masked(sw, pt, h) && pt(s + h).Affine? && pt(s + h + 1).Affine?
    requires kp < Pow2(sw.bits) && kg < Pow2(sw.bits) && rem <= sw.bits
    ensures var run := Run(sw, kp, kg, pt(s + h), pt(s + h + 1), rem);
            && (run.ok <==> SafeFrom(kp, kg, s, h, sw.bits, sw.cv.n, rem))
            && (run.ok ==> run.q.Affine? && run.q == pt(Held(kp, kg, s, h, sw.bits, rem)))
    decreases sw.bits - rem
  {
    hide Multiples, Apart, AddSafe, Curve.Add, Accumulated, Pow2, Selected;
    MaskedConstants(sw, pt, h);
    if rem < sw.bits {
      RunIsMultiple(sw, pt, s, h, kp, kg, rem + 1);
      var bp, bg := Bit(kp, rem), Bit(kg, rem);
      var a, v := Held(kp, kg, s, h, sw.bits, rem + 1), Selected(bp, bg, s, h);
      ChoiceIs(sw, pt, s, h, bp, bg);
      AccumulateBit(kp, kg, s, h, sw.bits, rem);
      if Run(sw, kp, kg, pt(s + h), pt(s + h + 1), rem + 1).ok {
        ApartIff(sw.cv, pt, a, v);
        if AddSafe(a, v, sw.cv.n) {
          ApartIff(sw.cv, pt, a + v, a);
        }
        assert a + v + a == 2 * a + v;
      }
    }
  }
}
