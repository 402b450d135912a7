/** sb_sw_lib.c: starting a point multiplication, and the result of a whole run. */
module PointMultRun {
  import opened ModArith
  import opened Primes
  import opened QuasiField
  import opened Curve
  import opened CoZ
  import opened Scalars
  import opened PointMult

  // ---- points with x = 0 ----

  /** The multiples of a multiple of the point. */
  lemma ScaledMultiples(cv: Curve, base: int -> Point, d: int, pt: int -> Point)
    requires Multiples(cv, base) && d % cv.n != 0 && forall m :: pt(m) == base(d * m)
    ensures Multiples(cv, pt)
  {
    forall m
      ensures PointAt(cv, pt, m)
    {
      assert PointAt(cv, base, d * m);
      if (d * m) % cv.n == 0 {
        PrimeDividesProduct(d, m, cv.n);
      }
      if m % cv.n == 0 {
        SmallMod(0, cv.n);
        CongMul(d, d, m, 0, cv.n);
        assert d * 0 == 0;
      }
    }
    forall j, k
      ensures AddsAt(cv, pt, j, k)
    {
      assert AddsAt(cv, base, d * j, d * k);
      assert d * j + d * k == d * (j + k);
    }
  }

  /** Twice a point of order above 3 does not have the x coordinate of the point. */
  lemma DoubleMovesX(cv: Curve, base: int -> Point)
    requires Multiples(cv, base)
    ensures base(1).Affine? && base(2).Affine? && base(2).x != base(1).x
  {
    SmallMod(1, cv.n);
    SmallMod(2, cv.n);
    SmallMod(3, cv.n);
    IsAffine(cv, base, 1);
    IsAffine(cv, base, 2);
    if base(2).x == base(1).x {
      SameX(cv, base(1), base(2));
      MultipleNegate(cv, base, 1);
      if base(2) == base(1) {
        MultipleInjective(cv, base, 2, 1);
      } else {
        MultipleInjective(cv, base, 2, -1);
        CongIffDiff(2, -1, cv.n);
      }
    }
  }

  /** For a point (0, y) the curve constant, negated if y is odd, is twice the point. */
  lemma ConstantIsDouble(sw: SwCurve, base: int -> Point)
    requires sw.Sound() && Multiples(sw.cv, base) && base(1).Affine? && base(1).x % sw.cv.p == 0
    ensures base(2).Affine? && base(2).x == sw.dz.x && base(2).x % sw.cv.p != 0
    ensures Cong(base(2).y, if base(1).y % 2 == 0 then sw.dz.y else -sw.dz.y, sw.cv.p)
  {
    var q := base(1);
    IsAffine(sw.cv, base, 1);
    SmallMod(q.x, sw.cv.p);
    DoubleMovesX(sw.cv, base);
    IsAffine(sw.cv, base, 2);
    SmallMod(base(2).x, sw.cv.p);
    if q.y % 2 == 0 {
      EvenPoint(sw, q);
      assert AddsAt(sw.cv, base, 1, 1);
    } else {
      OddConstant(sw, base);
    }
  }

  /** The odd case: -P is the point with even y. */
  lemma OddConstant(sw: SwCurve, base: int -> Point)
    requires sw.Sound() && Multiples(sw.cv, base) && base(1).Affine? && base(2).Affine?
    requires base(1).x == 0 && base(1).y % 2 == 1
    ensures base(2).x == sw.dz.x && Cong(base(2).y, -sw.dz.y, sw.cv.p)
  {
    IsAffine(sw.cv, base, 1);
    IsAffine(sw.cv, base, -1);
    MultipleNegate(sw.cv, base, 1);
    MultipleNegate(sw.cv, base, 2);
    OddNegates(sw.cv.p, base(1).y);
    EvenPoint(sw, base(-1));
    assert AddsAt(sw.cv, base, -1, -1);
    CongMod(-base(2).y, sw.cv.p);
    CongSub(0, 0, sw.dz.y, -base(2).y, sw.cv.p);
  }

  lemma OddNegates(p: nat, y: int)
    requires IsPrime(p) && p > 2 && 0 <= y < p && y % 2 == 1
    ensures ((-y) % p) % 2 == 0
  {
    OddPrime(p);
    DivModUnique(-y, -1, p - y, p);
  }

  lemma EvenPoint(sw: SwCurve, q: Point)
    requires sw.Sound() && sw.cv.OnCurve(q) && q.Affine? && q.x == 0 && q.y % 2 == 0
    ensures sw.dz == sw.cv.Add(q, q)
  {
    assert q == Affine(0, q.y);
    assert sw.HalvesDz(q.y);
  }

  /** The scalar halved modulo n gives the same multiple of twice the point. */
  lemma HalvedScalar(fn: Field, k: nat)
    requires IsPrime(fn.m) && fn.m > 3 && 1 <= k < fn.m
    ensures 1 <= fn.ModHalve(k) < fn.m && Cong(2 * fn.ModHalve(k), k, fn.m)
  {
    OddPrime(fn.m);
    HalveDoubles(fn, k);
    QrFixed(fn, k);
    MultipleMod(2, fn.m);
    SmallMod(k, fn.m);
    assert Cong(fn.ModHalve(k) + fn.ModHalve(k), k, fn.m);
  }

  // ---- the parts of sb_sw_point_mult_start ----

  /** If the point is (0, +-sqrt(b)), substitute twice the point and half the scalar. */
  method SubstituteZeroPoint(c: Context, sw: SwCurve, ghost base: int -> Point, ghost k0: nat)
    returns (ghost pt: int -> Point, ghost k1: nat)
    requires sw.Sound() && Multiples(sw.cv, base) && base(1).Affine?
    requires c.pointX == sw.fp.Mont(base(1).x) && c.pointY == sw.fp.Mont(base(1).y)
    requires c.k == k0 && 1 <= k0 < sw.cv.n
    modifies c`x1, c`y1, c`y2, c`t5, c`k, c`pointX, c`pointY
    ensures Base(sw, pt) && c.pointX == sw.fp.Mont(pt(1).x) && c.pointY == sw.fp.Mont(pt(1).y)
    ensures c.k == k1 && 1 <= k1 < sw.cv.n && pt(k1) == base(k0)
    ensures base(1).x % sw.cv.p != 0 ==> k1 == k0
  {
    hide Multiples, Field.MontMul, Field.ModHalve;
    var f := sw.fp;
    MontZero(f, base(1).x);
    var isZero := c.pointX == f.m;
    ReducedY(sw, base);
    c.y1 := f.MontReduce(c.pointY);
    var zeroSign := c.y1 % 2;
    c.x1 := f.Mont(sw.dz.x);
    c.y1 := f.Mont(sw.dz.y);
    MontNegate(f, sw.dz.y);
    c.y2 := f.ModNegate(c.y1);
    if zeroSign == 1 {
      c.y1, c.y2 := c.y2, c.y1;
    }
    c.t5 := sw.fn.ModHalve(c.k);
    pt, k1 := Substituted(sw, base, k0);
    if isZero {
      c.k, c.t5 := c.t5, c.k;
      c.pointX, c.x1 := c.x1, c.pointX;
      c.pointY, c.y1 := c.y1, c.pointY;
    }
  }

  /** The point and scalar that the ladder works on instead. */
  lemma Substituted(sw: SwCurve, base: int -> Point, k0: nat) returns (pt: int -> Point, k1: nat)
    requires sw.Sound() && Multiples(sw.cv, base) && base(1).Affine? && 1 <= k0 < sw.cv.n
    ensures Base(sw, pt) && 1 <= k1 < sw.cv.n && pt(k1) == base(k0)
    ensures base(1).x % sw.cv.p != 0 ==> k1 == k0 && pt == base
    ensures base(1).x % sw.cv.p == 0 ==>
              && k1 == sw.fn.ModHalve(k0) && sw.fp.Mont(pt(1).x) == sw.fp.Mont(sw.dz.x)
              && sw.fp.Mont(pt(1).y) == sw.fp.Mont(if base(1).y % 2 == 0 then sw.dz.y else -sw.dz.y)
  {
    if base(1).x % sw.cv.p != 0 {
      pt, k1 := base, k0;
    } else {
      k1 := sw.fn.ModHalve(k0);
      pt := m => base(2 * m);
      HalvedScalar(sw.fn, k0);
      ConstantIsDouble(sw, base);
      MontEqual(sw.fp, base(2).y, if base(1).y % 2 == 0 then sw.dz.y else -sw.dz.y);
      SmallMod(2, sw.cv.n);
      ScaledMultiples(sw.cv, base, 2, pt);
      MultipleCong(sw.cv, base, 2 * k1, k0);
    }
  }

  /** Out of the Montgomery domain, the Y coordinate of the point is its residue. */
  lemma ReducedY(sw: SwCurve, base: int -> Point)
    requires sw.Sound() && Multiples(sw.cv, base) && base(1).Affine?
    ensures sw.fp.MontReduce(sw.fp.Mont(base(1).y)) == base(1).y
  {
    SmallMod(1, sw.cv.n);
    IsAffine(sw.cv, base, 1);
    MultipleDouble(sw.cv, base, 1);
    SmallMod(0, sw.cv.p);
    MontReduced(sw.fp, base(1).y);
    QrFixed(sw.fp, base(1).y);
  }

  /** Negate a scalar whose top bit is set; note the scalar 1; regularize. */
  method PrepareScalar(c: Context, sw: SwCurve, ghost k1: nat) returns (ghost k: nat)
    requires sw.Sound() && c.k == k1 && 1 <= k1 < sw.cv.n
    modifies c`k, c`t5, c`invK, c`kOne
    ensures 1 <= k < Pow2(sw.bits - 1) && c.k + sw.fn.radix == Regular(k, sw.cv.n, sw.fn.radix)
    ensures c.invK <= 1 && k1 == (if c.invK == 1 then sw.cv.n - k else k)
    ensures c.kOne == if k == 1 then 1 else 0
  {
    hide IsOrder;
    var n, r := sw.fn.m, sw.fn.radix;
    assert Pow2(sw.bits) == 2 * Pow2(sw.bits - 1);
    TopBit(c.k, sw.bits);
    c.invK := Bit(c.k, sw.bits - 1);
    QrFixed(sw.fn, n - k1);
    c.t5 := sw.fn.ModNegate(c.k);
    if c.invK == 1 {
      c.t5, c.k := c.k, c.t5;
    }
    k := c.k;
    c.kOne := if c.k == 1 then 1 else 0;
    RegularTopBit(k, n, sw.bits);
    RegularizeScalar(c, n, r);
  }

  /** sb_sw_regularize_scalar: two additions that drop their carries, and a choice by the first carry. */
  method RegularizeScalar(c: Context, n: nat, radix: nat)
    requires 0 < c.k < n < radix <= Regular(c.k, n, radix) < 2 * radix
    modifies c`k, c`t5
    ensures c.k + radix == Regular(old(c.k), n, radix)
  {
    var k := c.k;
    WrappedSum(k + n, radix);
    var c1 := (k + n) / radix;
    c.t5 := (k + n) % radix;
    WrappedSum(c.t5 + n, radix);
    c.k := (c.t5 + n) % radix;
    if c1 == 1 {
      c.k, c.t5 := c.t5, c.k;
    }
  }

  lemma WrappedSum(s: nat, radix: nat)
    requires s < 2 * radix
    ensures s / radix == (if s >= radix then 1 else 0) && s % radix == if s >= radix then s - radix else s
  {
    var q := if s >= radix then 1 else 0;
    DivModUnique(s, q, s - q * radix, radix);
  }

  /** The initial doubling and the multiplication of both points by the random Z. */
  method LoadPoints(c: Context, sw: SwCurve, ghost q: Point, ghost s: Point, ghost zv: int)
    returns (ghost z: int)
    requires sw.fp.Valid() && sw.HasThird() && sw.cv.p == sw.fp.m && Tangent(sw.cv, q, s)
    requires (2 * q.y) % sw.cv.p != 0 && zv % sw.cv.p != 0
    requires c.pointX == sw.fp.Mont(q.x) && c.pointY == sw.fp.Mont(q.y) && c.z == sw.fp.Mont(zv)
    modifies c`x1, c`y1, c`x2, c`y2, c`t5, c`t6, c`t7
    ensures z % sw.cv.p != 0 && Hold(c, sw.fp, Pair(q, s, z))
  {
    var f := sw.fp;
    c.x2 := c.pointX;
    c.y2 := c.pointY;
    DoubleMeans(sw, q, s);
    InitialDouble(c, sw, q.x, q.y);
    z := 2 * q.y * zv;
    if z % f.m == 0 {
      PrimeDividesProduct(2 * q.y, zv, f.m);
    }
    ApplyZ(c, f, Pair(q, s, 2 * q.y), zv);
    Rescaled(q, 2 * q.y, zv);
    Rescaled(s, 2 * q.y, zv);
  }

  lemma DoubleMeans(sw: SwCurve, q: Point, s: Point)
    requires sw.fp.Valid() && sw.cv.p == sw.fp.m && Tangent(sw.cv, q, s)
    ensures Pair(q, s, 2 * q.y).x1 == q.x * (2 * q.y * (2 * q.y))
    ensures Pair(q, s, 2 * q.y).y1 == q.y * (2 * q.y * (2 * q.y * (2 * q.y)))
    ensures sw.fp.Mont(DoubleX(sw.cv.a, q.x, q.y)) == sw.fp.Mont(Pair(q, s, 2 * q.y).x2)
    ensures sw.fp.Mont(DoubleY(sw.cv.a, q.x, q.y)) == sw.fp.Mont(Pair(q, s, 2 * q.y).y2)
  {
    DoubleHolds(sw, q, s);
  }

  lemma Rescaled(q: Point, z: int, zv: int)
    requires q.Affine?
    ensures JacX(q, z) * (zv * zv) == JacX(q, z * zv) && JacY(q, z) * (zv * (zv * zv)) == JacY(q, z * zv)
  {
    Square(z, zv);
    assert (q.x * (z * z)) * (zv * zv) == q.x * ((z * z) * (zv * zv));
    assert (q.y * (z * (z * z))) * (zv * (zv * zv)) == q.y * ((z * (z * z)) * (zv * (zv * zv)));
  }

  /** Multiply X coordinates by Z^2 and Y coordinates by Z^3. */
  method ApplyZ(c: Context, f: Field, ghost r: Regs, ghost zv: int)
    requires f.Valid() && Hold(c, f, r) && c.z == f.Mont(zv)
    modifies c`x1, c`y1, c`x2, c`y2, c`t5, c`t6, c`t7
    ensures Hold(c, f, Regs(r.x1 * (zv * zv), r.y1 * (zv * (zv * zv)), r.x2 * (zv * zv), r.y2 * (zv * (zv * zv))))
  {
    ghost var z2, z3 := zv * zv, zv * (zv * zv);
    MontTimes(f, zv, zv);
    c.t7 := f.MontSquare(c.z);
    MontTimes(f, zv, z2);
    c.t6 := f.MontMul(c.z, c.t7);
    MontTimes(f, r.x1, z2);
    c.t5 := c.x1;
    c.x1 := f.MontMul(c.t5, c.t7);
    MontTimes(f, r.y1, z3);
    c.t5 := c.y1;
    c.y1 := f.MontMul(c.t5, c.t6);
    MontTimes(f, r.x2, z2);
    c.t5 := c.x2;
    c.x2 := f.MontMul(c.t5, c.t7);
    MontTimes(f, r.y2, z3);
    c.t5 := c.y2;
    c.y2 := f.MontMul(c.t5, c.t6);
  }

  /** The input scalar and point in terms of the ones the ladder works on. */
  ghost predicate Denotes(sw: SwCurve, base: int -> Point, k0: nat, pt: int -> Point, k: nat, invK: nat)
    requires sw.cv.p > 0
  {
    && base(k0) == (if invK == 1 then sw.cv.Negate(pt(k)) else pt(k))
    && (base(1).Affine? && base(1).x % sw.cv.p != 0 ==> k0 == if invK == 1 then sw.cv.n - k else k)
  }

  /** sb_sw_point_mult_start, for the k0-fold of the point base(1); the saved state has been cleared. */
  method PointMultStart(c: Context, sw: SwCurve, ghost base: int -> Point, ghost k0: nat, ghost zv: int)
    returns (ghost pt: int -> Point, ghost k: nat, ghost z: int)
    requires sw.Sound() && Multiples(sw.cv, base) && base(1).Affine?
    requires c.pointX == sw.fp.Mont(base(1).x) && c.pointY == sw.fp.Mont(base(1).y)
    requires c.k == k0 && 1 <= k0 < sw.cv.n && c.z == sw.fp.Mont(zv) && zv % sw.cv.p != 0
    requires c.swap == 0
    modifies c`x1, c`y1, c`x2, c`y2, c`t5, c`t6, c`t7, c`t8, c`k, c`swap, c`i, c`stage, c`pointX, c`pointY,
             c`invK, c`kOne
    ensures Base(sw, pt) && InProgress(c, sw, pt, k, z)
    ensures c.stage == STAGE_LADDER && c.i == sw.bits - 1
    ensures Denotes(sw, base, k0, pt, k, c.invK)
  {
    ghost var k1;
    pt, k1 := SubstituteZeroPoint(c, sw, base, k0);
    k := PrepareScalar(c, sw, k1);
    NegatedMultiple(sw, pt, k);
    z := EnterLadder(c, sw, pt, k, zv);
  }

  /** The points are loaded and the state is saved. */
  method EnterLadder(c: Context, sw: SwCurve, ghost pt: int -> Point, ghost k: nat, ghost zv: int)
    returns (ghost z: int)
    requires Base(sw, pt) && Loaded(c, sw, pt, k) && c.swap == 0
    requires c.z == sw.fp.Mont(zv) && zv % sw.cv.p != 0
    modifies c`x1, c`y1, c`x2, c`y2, c`t5, c`t6, c`t7, c`i, c`stage
    ensures InProgress(c, sw, pt, k, z)
    ensures c.stage == STAGE_LADDER && c.i == sw.bits - 1
  {
    hide Base, InProgress, Tangent, SwCurve.Sound, Field.Valid, SwCurve.HasThird, Regular, Pow2, Pair, Hold;
    DoubledBase(sw, pt);
    z := LoadPoints(c, sw, pt(1), pt(2), zv);
    c.i := sw.bits - 1;
    c.stage := STAGE_LADDER;
    Started(c, sw, pt, k, z);
  }

  lemma DoubledBase(sw: SwCurve, pt: int -> Point)
    requires Base(sw, pt)
    ensures sw.fp.Valid() && sw.HasThird() && sw.cv.p == sw.fp.m > 0 && sw.bits > 0
    ensures pt(1).Affine? && pt(2).Affine? && Tangent(sw.cv, pt(1), pt(2)) && (2 * pt(1).y) % sw.cv.p != 0
  {
    SmallMod(1, sw.cv.n);
    MultipleDouble(sw.cv, pt, 1);
  }

  lemma Started(c: Context, sw: SwCurve, pt: int -> Point, k: nat, z: int)
    requires Base(sw, pt) && Loaded(c, sw, pt, k) && z % sw.cv.p != 0 && pt(2).Affine?
    requires c.stage == STAGE_LADDER && c.i == sw.bits - 1 && c.swap == 0
    requires Hold(c, sw.fp, Pair(pt(1), pt(2), z))
    ensures InProgress(c, sw, pt, k, z)
  {
    RegularTopBit(k, sw.cv.n, sw.bits);
    assert Processed(sw, k, c.i) == 1;
  }

  lemma NegatedMultiple(sw: SwCurve, pt: int -> Point, k: int)
    requires sw.Sound() && Multiples(sw.cv, pt)
    ensures pt(sw.cv.n - k) == sw.cv.Negate(pt(k))
  {
    MultipleNegate(sw.cv, pt, k);
    AddMultiple(-k, 1, sw.cv.n);
    MultipleCong(sw.cv, pt, sw.cv.n - k, -k);
  }

  // ---- a whole run ----

  /** Continue until done. */
  method RunMultiplication(c: Context, sw: SwCurve, ghost pt: int -> Point, ghost k: nat, ghost z0: int)
    returns (calls: nat)
    requires Base(sw, pt) && InProgress(c, sw, pt, k, z0) && c.stage == STAGE_LADDER
    modifies c`x1, c`y1, c`x2, c`y2, c`t5, c`t6, c`t7, c`t8, c`k, c`swap, c`i, c`stage
    ensures Finished(c, sw, pt, k) && c.stage == STAGE_DONE
    ensures calls == 1 + Slices(old(c.i))
  {
    ghost var z := z0;
    var done := false;
    calls := 0;
    while !done
      invariant InProgress(c, sw, pt, k, z) && (done <==> c.stage == STAGE_DONE)
      invariant calls + MultCallsLeft(c.stage, c.i) == 1 + Slices(old(c.i))
      decreases MultCallsLeft(c.stage, c.i)
    {
      done, z := PointMultContinue(c, sw, pt, k, z);
      calls := calls + 1;
    }
  }

  /** Start, and continue until done: the registers end with the affine coordinates of k0 times the point,
      for every point of order n, including points with x = 0, and every reduced nonzero scalar, including
      1 and n - 1.  Unless x = 0 the scalar register ends with the scalar. */
  method PointMultiply(c: Context, sw: SwCurve, ghost base: int -> Point, ghost k0: nat, ghost zv: int)
    returns (calls: nat)
    requires sw.Sound() && Multiples(sw.cv, base) && base(1).Affine?
    requires c.pointX == sw.fp.Mont(base(1).x) && c.pointY == sw.fp.Mont(base(1).y)
    requires c.k == k0 && 1 <= k0 < sw.cv.n && c.z == sw.fp.Mont(zv) && zv % sw.cv.p != 0
    requires c.swap == 0
    modifies c`x1, c`y1, c`x2, c`y2, c`t5, c`t6, c`t7, c`t8, c`k, c`swap, c`i, c`stage, c`pointX, c`pointY,
             c`invK, c`kOne
    ensures base(k0).Affine? && c.stage == STAGE_DONE
    ensures c.x1 == sw.fp.Qr(base(k0).x) && c.y1 == sw.fp.Qr(base(k0).y)
    ensures base(1).x % sw.cv.p != 0 ==> c.k == k0
    ensures calls == 1 + Slices(sw.bits - 1)
  {
    hide Multiples, Base, InProgress, Field.Mont, Field.Qr;
    ghost var pt, k, z := PointMultStart(c, sw, base, k0, zv);
    calls := RunMultiplication(c, sw, pt, k, z);
    NegatedOutput(sw, pt(k), c.invK);
  }

  lemma NegatedOutput(sw: SwCurve, q: Point, invK: nat)
    requires sw.fp.m > 0 && sw.cv.p == sw.fp.m && q.Affine?
    ensures invK == 1 ==> sw.fp.Qr(sw.cv.Negate(q).y) == sw.fp.Qr(-q.y)
  {
    CongMod(-q.y, sw.fp.m);
  }
}
