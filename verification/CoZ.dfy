/** sb_sw_lib.c: the register context and the co-Z point formulas that run in it.  Registers hold
    Montgomery forms of integer polynomials; the ghost parameters of a routine name the polynomials
    its input registers hold. */
module CoZ {
  import opened ModArith
  import opened Primes
  import opened QuasiField
  import opened Curve
  import opened Scalars

  /** The registers and saved state of sb_sw_context_t that point multiplication works on. */
  class Context {
    var x1: nat
    var y1: nat
    var x2: nat
    var y2: nat
    var t5: nat
    var t6: nat
    var t7: nat
    var t8: nat
    /** MULT_K and MULT_Z. */
    var k: nat
    var z: nat
    /** MULT_POINT. */
    var pointX: nat
    var pointY: nat
    /** MULT_STATE. */
    var stage: nat
    var i: nat
    var invK: nat
    var kOne: nat
    var swap: nat
    /** The result accumulator of signature verification. */
    var res: nat
    /** Signing: the message and private scalars. */
    var signMessage: nat
    var signPrivate: nat
    /** Verification: the r component, and two words of storage that hold the message and s component
        first and the scalar kg and the X coordinate of P + G + H later. */
    var qr: nat
    var messageThenKg: nat
    var qsThenPgX: nat
    var pgY: nat

    constructor ()
    {
    }
  }

  /** The constants of a curve: its field and scalar moduli, and coordinates multiplied by the radix. */
  datatype SwCurve = SwCurve(
    cv: Curve, fp: Field, fn: Field, bits: nat,
    minusA: nat, minusARThird: nat, b: nat,
    g: Point, h: Point, gh: Point, dz: Point)
  {
    ghost predicate Sound() {
      && cv.Sound() && fp.Valid() && fn.Valid() && fp.m == cv.p && fn.m == cv.n
      && fp.radix == fn.radix == Pow2(bits) && IsOrder(cv.n, bits) && bits < 0xFFFF_FFFF
      && cv.n < cv.p < 2 * cv.n
      && minusA == fp.Qr(-cv.a) && b == fp.Qr(cv.b)
      && HasThird()
      && dz.Affine? && (forall y :: HalvesDz(y))
    }

    /** dz is twice the point (0, y) with even y, where there is one. */
    ghost predicate HalvesDz(y: int)
      requires cv.p >= 2
    {
      cv.OnCurve(Affine(0, y)) && y % 2 == 0 ==> dz == cv.Add(Affine(0, y), Affine(0, y))
    }

    ghost predicate HasThird()
      requires fp.m > 0
    {
      exists third :: IsThird(third)
    }

    /** minus_a_r_over_three holds the Montgomery form of -a / 3. */
    ghost predicate IsThird(third: int)
      requires fp.m > 0
    {
      Cong(3 * third, -cv.a, fp.m) && minusARThird == fp.Mont(third)
    }
  }

  // ---- the polynomials the formulas compute ----

  ghost function DX(x1: int, x2: int): int { x2 - x1 }

  /** The first point rescaled to the new Z. */
  ghost function ScaledX(x1: int, x2: int): int { x1 * (DX(x1, x2) * DX(x1, x2)) }

  ghost function ScaledY(x1: int, y1: int, x2: int): int { y1 * (DX(x1, x2) * (DX(x1, x2) * DX(x1, x2))) }

  /** The sum of the points with Y difference e (or sum, for the conjugate) and common denominator DX. */
  ghost function LineX(x1: int, x2: int, e: int): int {
    e * e - (x1 + x2) * (DX(x1, x2) * DX(x1, x2))
  }

  ghost function LineY(x1: int, y1: int, x2: int, e: int): int {
    e * (ScaledX(x1, x2) - LineX(x1, x2, e)) - ScaledY(x1, y1, x2)
  }

  /** Co-Z addition with update.  Q = (x2, y2) is added to P = (x1, y1): the sum replaces P, and P rescaled
      to the new Z replaces Q.  t6 holds x2 - x1 on entry. */
  method CoZAddUpdateZup(c: Context, f: Field, ghost x1: int, ghost y1: int, ghost x2: int, ghost y2: int)
    requires f.Valid()
    requires c.x1 == f.Mont(x1) && c.y1 == f.Mont(y1) && c.x2 == f.Mont(x2) && c.y2 == f.Mont(y2)
    requires c.t6 == f.Mont(DX(x1, x2))
    modifies c`x1, c`y1, c`x2, c`y2, c`t5, c`t6, c`t7
    ensures c.x1 == f.Mont(LineX(x1, x2, y2 - y1)) && c.y1 == f.Mont(LineY(x1, y1, x2, y2 - y1))
    ensures c.x2 == f.Mont(ScaledX(x1, x2)) && c.y2 == f.Mont(ScaledY(x1, y1, x2))
    ensures c.t5 == f.Mont((x1 + x2) * (DX(x1, x2) * DX(x1, x2)))
  {
    hide Field.Mont, Field.MontMul, Field.ModAdd, Field.ModSub;
    ghost var d, e := DX(x1, x2), y2 - y1;
    ghost var x3 := LineX(x1, x2, e);
    MontTimes(f, d, d);
    c.t5 := f.MontSquare(c.t6);
    MontTimes(f, x2, d * d);
    c.t6 := f.MontMul(c.x2, c.t5);
    MontTimes(f, x1, d * d);
    c.x2 := f.MontMul(c.x1, c.t5);
    MontSub(f, y2, y1);
    c.t7 := f.ModSub(c.y2, c.y1);
    MontAdd(f, x1 * (d * d), x2 * (d * d));
    Factor(x1, x2, d * d);
    c.t5 := f.ModAdd(c.x2, c.t6);
    MontSub(f, x2 * (d * d), x1 * (d * d));
    c.t6 := f.ModSub(c.t6, c.x2);
    MontTimes(f, y1, d * (d * d));
    c.y2 := f.MontMul(c.y1, c.t6);
    MontTimes(f, e, e);
    c.x1 := f.MontSquare(c.t7);
    MontSub(f, e * e, (x1 + x2) * (d * d));
    c.x1 := f.ModSub(c.x1, c.t5);
    MontSub(f, ScaledX(x1, x2), x3);
    c.t6 := f.ModSub(c.x2, c.x1);
    MontTimes(f, e, ScaledX(x1, x2) - x3);
    c.y1 := f.MontMul(c.t7, c.t6);
    MontSub(f, e * (ScaledX(x1, x2) - x3), ScaledY(x1, y1, x2));
    c.y1 := f.ModSub(c.y1, c.y2);
  }

  /** Co-Z addition with update, computing t6 first. */
  method CoZAddUpdate(c: Context, f: Field, ghost x1: int, ghost y1: int, ghost x2: int, ghost y2: int)
    requires f.Valid()
    requires c.x1 == f.Mont(x1) && c.y1 == f.Mont(y1) && c.x2 == f.Mont(x2) && c.y2 == f.Mont(y2)
    modifies c`x1, c`y1, c`x2, c`y2, c`t5, c`t6, c`t7
    ensures c.x1 == f.Mont(LineX(x1, x2, y2 - y1)) && c.y1 == f.Mont(LineY(x1, y1, x2, y2 - y1))
    ensures c.x2 == f.Mont(ScaledX(x1, x2)) && c.y2 == f.Mont(ScaledY(x1, y1, x2))
    ensures c.t5 == f.Mont((x1 + x2) * (DX(x1, x2) * DX(x1, x2)))
  {
    MontSub(f, x2, x1);
    c.t6 := f.ModSub(c.x2, c.x1);
    CoZAddUpdateZup(c, f, x1, y1, x2, y2);
  }

  /** Co-Z conjugate addition: the sum P + Q replaces P and the difference P - Q replaces Q. */
  method CoZConjAdd(c: Context, f: Field, ghost x1: int, ghost y1: int, ghost x2: int, ghost y2: int)
    requires f.Valid()
    requires c.x1 == f.Mont(x1) && c.y1 == f.Mont(y1) && c.x2 == f.Mont(x2) && c.y2 == f.Mont(y2)
    modifies c`x1, c`y1, c`x2, c`y2, c`t5, c`t6, c`t7, c`t8
    ensures c.x1 == f.Mont(LineX(x1, x2, y2 - y1)) && c.y1 == f.Mont(LineY(x1, y1, x2, y2 - y1))
    ensures c.x2 == f.Mont(LineX(x1, x2, y1 + y2)) && c.y2 == f.Mont(LineY(x1, y1, x2, -(y1 + y2)))
  {
    ghost var d, e := DX(x1, x2), y1 + y2;
    ghost var x3 := LineX(x1, x2, e);
    MontAdd(f, y1, y2);
    c.t8 := f.ModAdd(c.y1, c.y2);
    CoZAddUpdate(c, f, x1, y1, x2, y2);
    c.t6 := c.x2;
    c.t7 := c.y2;
    MontTimes(f, e, e);
    c.x2 := f.MontSquare(c.t8);
    MontSub(f, e * e, (x1 + x2) * (d * d));
    c.x2 := f.ModSub(c.x2, c.t5);
    MontSub(f, x3, ScaledX(x1, x2));
    c.t5 := f.ModSub(c.x2, c.t6);
    MontTimes(f, e, x3 - ScaledX(x1, x2));
    c.y2 := f.MontMul(c.t8, c.t5);
    MontSub(f, e * (x3 - ScaledX(x1, x2)), ScaledY(x1, y1, x2));
    c.y2 := f.ModSub(c.y2, c.t7);
    ConjugateY(x1, y1, x2, e);
  }

  lemma ConjugateY(x1: int, y1: int, x2: int, e: int)
    ensures LineX(x1, x2, -e) == LineX(x1, x2, e)
    ensures e * (LineX(x1, x2, e) - ScaledX(x1, x2)) - ScaledY(x1, y1, x2) == LineY(x1, y1, x2, -e)
  {
    assert (-e) * (-e) == e * e;
    var u := ScaledX(x1, x2) - LineX(x1, x2, e);
    assert (-e) * u == e * (-u);
  }

  // ---- the initial doubling ----

  /** From P = (x, y) in (x2, y2), P rescaled to Z = 2 y in (x1, y1) and 2 P with the same Z in (x2, y2). */
  method InitialDouble(c: Context, sw: SwCurve, ghost x: int, ghost y: int)
    requires sw.fp.Valid() && sw.HasThird() && c.x2 == sw.fp.Mont(x) && c.y2 == sw.fp.Mont(y)
    modifies c`x1, c`y1, c`x2, c`y2, c`t5, c`t6, c`t7
    ensures c.t5 == sw.fp.Mont(2 * y)
    ensures c.x1 == sw.fp.Mont(x * (2 * y * (2 * y))) && c.y1 == sw.fp.Mont(y * (2 * y * (2 * y * (2 * y))))
    ensures c.x2 == sw.fp.Mont(DoubleX(sw.cv.a, x, y)) && c.y2 == sw.fp.Mont(DoubleY(sw.cv.a, x, y))
  {
    hide Field.Mont, Field.MontMul, Field.ModAdd, Field.ModSub;
    var f := sw.fp;
    ghost var bb, aa, yz3 := 3 * x * x + sw.cv.a, x * (2 * y * (2 * y)), y * (2 * y * (2 * y * (2 * y)));
    ghost var x3 := bb * bb - aa - aa;
    MontAdd(f, y, y);
    c.t5 := f.ModDouble(c.y2);
    DoubleSlope(c, sw, x);
    DoubleScale(c, f, x, y);
    MontTimes(f, bb, bb);
    c.x2 := f.MontSquare(c.y1);
    MontSub(f, bb * bb, aa);
    c.x2 := f.ModSub(c.x2, c.x1);
    MontSub(f, bb * bb - aa, aa);
    c.x2 := f.ModSub(c.x2, c.x1);
    MontSub(f, aa, x3);
    c.t6 := f.ModSub(c.x1, c.x2);
    MontTimes(f, bb, aa - x3);
    c.t7 := f.MontMul(c.y1, c.t6);
    DoubleRescaledY(c, f, y);
    MontSub(f, bb * (aa - x3), yz3);
    c.y2 := f.ModSub(c.t7, c.y1);
  }

  /** y1 := 3 x^2 + a, as three times x^2 + a / 3. */
  method DoubleSlope(c: Context, sw: SwCurve, ghost x: int)
    requires sw.fp.Valid() && sw.HasThird() && c.x2 == sw.fp.Mont(x)
    modifies c`x1, c`y1
    ensures c.y1 == sw.fp.Mont(3 * x * x + sw.cv.a)
  {
    var f := sw.fp;
    ghost var third :| sw.IsThird(third);
    ghost var t := x * x - third;
    MontTimes(f, x, x);
    c.y1 := f.MontSquare(c.x2);
    MontSub(f, x * x, third);
    c.y1 := f.ModSub(c.y1, sw.minusARThird);
    MontAdd(f, t, t);
    c.x1 := f.ModDouble(c.y1);
    MontAdd(f, t, t + t);
    c.y1 := f.ModAdd(c.y1, c.x1);
    TripleThird(f, sw.cv.a, x, third);
  }

  /** y2 := 2 y^2 and x1 := 4 x y^2. */
  method DoubleScale(c: Context, f: Field, ghost x: int, ghost y: int)
    requires f.Valid() && c.x2 == f.Mont(x) && c.y2 == f.Mont(y)
    modifies c`x1, c`y2, c`t6
    ensures c.x1 == f.Mont(x * (2 * y * (2 * y))) && c.y2 == f.Mont(2 * (y * y))
  {
    ghost var yy := y * y;
    MontTimes(f, y, y);
    c.t6 := f.MontSquare(c.y2);
    MontAdd(f, yy, yy);
    c.y2 := f.ModDouble(c.t6);
    MontAdd(f, 2 * yy, 2 * yy);
    c.t6 := f.ModDouble(c.y2);
    assert 2 * yy + 2 * yy == 2 * y * (2 * y);
    MontTimes(f, x, 2 * y * (2 * y));
    c.x1 := f.MontMul(c.x2, c.t6);
  }

  /** y1 := 8 y^4. */
  method DoubleRescaledY(c: Context, f: Field, ghost y: int)
    requires f.Valid() && c.y2 == f.Mont(2 * (y * y))
    modifies c`y1
    ensures c.y1 == f.Mont(y * (2 * y * (2 * y * (2 * y))))
  {
    ghost var u := 2 * (y * y);
    MontTimes(f, u, u);
    c.y1 := f.MontSquare(c.y2);
    MontAdd(f, u * u, u * u);
    c.y1 := f.ModDouble(c.y1);
    FourthPower(y);
  }

  ghost function DoubleX(a: int, x: int, y: int): int {
    (3 * x * x + a) * (3 * x * x + a) - x * (2 * y * (2 * y)) - x * (2 * y * (2 * y))
  }

  ghost function DoubleY(a: int, x: int, y: int): int {
    (3 * x * x + a) * (x * (2 * y * (2 * y)) - DoubleX(a, x, y)) - y * (2 * y * (2 * y * (2 * y)))
  }

  lemma TripleThird(f: Field, a: int, x: int, third: int)
    requires f.Valid() && Cong(3 * third, -a, f.m)
    ensures var t := x * x - third; f.Mont(t + (t + t)) == f.Mont(3 * x * x + a)
  {
    TripleCong(x * x, 3 * x * x, third, a, f.m);
    var t := x * x - third;
    MontEqual(f, t + (t + t), 3 * x * x + a);
  }

  lemma TripleCong(xx: int, xxx: int, third: int, a: int, m: int)
    requires m > 0 && Cong(3 * third, -a, m) && xxx == 3 * xx
    ensures Cong(xx - third + (xx - third + (xx - third)), xxx + a, m)
  {
    CongSub(xxx, xxx, 3 * third, -a, m);
    assert xx - third + (xx - third + (xx - third)) == xxx - 3 * third;
  }

  lemma FourthPower(y: int)
    ensures 2 * (y * y) * (2 * (y * y)) + 2 * (y * y) * (2 * (y * y)) == y * (2 * y * (2 * y * (2 * y)))
  {
    assert 2 * y * (2 * y * (2 * y)) == 8 * (y * (y * y));
  }

  // ---- what the registers mean ----

  /** The registers X, Y hold the affine point q in Jacobian coordinates with the given Z. */
  ghost predicate Holds(f: Field, x: nat, y: nat, q: Point, z: int)
    requires f.m > 0
  {
    q.Affine? && x == f.Mont(JacX(q, z)) && y == f.Mont(JacY(q, z))
  }

  ghost function JacX(q: Point, z: int): int
    requires q.Affine?
  {
    q.x * (z * z)
  }

  ghost function JacY(q: Point, z: int): int
    requires q.Affine?
  {
    q.y * (z * (z * z))
  }

  /** The Z that a co-Z addition of points with x coordinates qx and rx produces. */
  ghost function NextZ(qx: int, rx: int, z: int): int {
    z * DX(qx * (z * z), rx * (z * z))
  }

  lemma NextZIs(qx: int, rx: int, z: int)
    ensures NextZ(qx, rx, z) == (rx - qx) * (z * (z * z))
  {
    Factor(qx, rx, z * z);
  }

  /** Rescaling is exact. */
  lemma ScaledHolds(q: Point, rx: int, z: int)
    requires q.Affine?
    ensures ScaledX(JacX(q, z), rx * (z * z)) == JacX(q, NextZ(q.x, rx, z))
    ensures ScaledY(JacX(q, z), JacY(q, z), rx * (z * z)) == JacY(q, NextZ(q.x, rx, z))
  {
    var d := DX(JacX(q, z), rx * (z * z));
    Square(z, d);
    assert (q.x * (z * z)) * (d * d) == q.x * ((z * z) * (d * d));
    assert (q.y * (z * (z * z))) * (d * (d * d)) == q.y * ((z * (z * z)) * (d * (d * d)));
  }

  lemma Square(u: int, v: int)
    ensures (u * v) * (u * v) == (u * u) * (v * v)
    ensures (u * v) * ((u * v) * (u * v)) == (u * (u * u)) * (v * (v * v))
  {
    assert (u * v) * ((u * u) * (v * v)) == (u * (u * u)) * (v * (v * v));
  }

  /** With x1 = qx z^2, x2 = rx z^2 and e = num z^3, the sum polynomial has z^6 as a factor. */
  lemma LineXFactors(qx: int, rx: int, num: int, z: int)
    ensures var w := z * (z * z); var den := rx - qx;
            LineX(qx * (z * z), rx * (z * z), num * w) == (w * w) * (num * num - (qx + rx) * (den * den))
  {
    var zz, w, den := z * z, z * (z * z), rx - qx;
    Factor(qx, rx, zz);
    Square(den, zz);
    Square(num, w);
    Square(z, zz);
    MoveFactors(qx + rx, den * den, zz, zz * zz, w * w);
    TakeOut(num * num, (qx + rx) * (den * den), w * w);
  }

  lemma MoveFactors(s: int, d: int, a: int, b: int, c: int)
    requires a * b == c
    ensures (s * a) * (d * b) == (s * d) * c
  {
    assert (s * a) * (d * b) == (s * d) * (a * b);
  }

  lemma TakeOut(u: int, v: int, c: int)
    ensures u * c - v * c == c * (u - v)
  {
  }

  /** The sum polynomials are the Jacobian coordinates of the third point of the line, at the next Z. */
  lemma LineReduces(p: nat, q: Point, rx: int, s: Point, num: int, z: int)
    requires p > 0 && q.Affine? && OnLine(p, q, rx, s, num, rx - q.x)
    ensures var x1, y1, x2, e := JacX(q, z), JacY(q, z), rx * (z * z), num * (z * (z * z));
            var z' := NextZ(q.x, rx, z);
            Cong(LineX(x1, x2, e), JacX(s, z'), p) && Cong(LineY(x1, y1, x2, e), JacY(s, z'), p)
  {
    var w, den := z * (z * z), rx - q.x;
    var x1, x2, e := JacX(q, z), rx * (z * z), num * w;
    NextZIs(q.x, rx, z);
    LineXFactors(q.x, rx, num, z);
    LineXCong(p, q.x + rx, s.x, num, den, w);
    Square(den, w);
    ScaledHolds(q, rx, z);
    LineYCong(p, q, s, num, den, w, LineX(x1, x2, e));
  }

  /** The registers hold them. */
  lemma LineHolds(f: Field, q: Point, rx: int, s: Point, num: int, z: int)
    requires f.Valid() && q.Affine? && OnLine(f.m, q, rx, s, num, rx - q.x)
    ensures var x1, y1, x2, e := JacX(q, z), JacY(q, z), rx * (z * z), num * (z * (z * z));
            Holds(f, f.Mont(LineX(x1, x2, e)), f.Mont(LineY(x1, y1, x2, e)), s, NextZ(q.x, rx, z))
  {
    hide LineX, LineY, JacX, JacY, NextZ;
    var x1, y1, x2, e := JacX(q, z), JacY(q, z), rx * (z * z), num * (z * (z * z));
    var z' := NextZ(q.x, rx, z);
    LineReduces(f.m, q, rx, s, num, z);
    MontEqual(f, LineX(x1, x2, e), JacX(s, z'));
    MontEqual(f, LineY(x1, y1, x2, e), JacY(s, z'));
  }

  lemma LineXCong(p: nat, sum: int, x: int, num: int, den: int, w: int)
    requires p > 0 && Cong((x + sum) * (den * den), num * num, p)
    ensures Cong((w * w) * (num * num - sum * (den * den)), x * ((den * w) * (den * w)), p)
  {
    CongSub((x + sum) * (den * den), num * num, sum * (den * den), sum * (den * den), p);
    assert (x + sum) * (den * den) - sum * (den * den) == x * (den * den);
    CongMul(w * w, w * w, num * num - sum * (den * den), x * (den * den), p);
    Square(den, w);
    assert (w * w) * (x * (den * den)) == x * ((den * den) * (w * w));
  }

  lemma LineYCong(p: nat, q: Point, s: Point, num: int, den: int, w: int, lx: int)
    requires p > 0 && q.Affine? && s.Affine? && Cong((s.y + q.y) * den, num * (q.x - s.x), p)
    requires Cong(lx, JacX(s, den * w), p)
    ensures Cong(num * w * (JacX(q, den * w) - lx) - JacY(q, den * w), JacY(s, den * w), p)
  {
    var z' := den * w;
    var zz := z' * z';
    CongSub(JacX(q, z'), JacX(q, z'), lx, JacX(s, z'), p);
    CongMul(num * w, num * w, JacX(q, z') - lx, JacX(q, z') - JacX(s, z'), p);
    Factor(s.x, q.x, zz);
    assert num * w * ((q.x - s.x) * zz) == (num * (q.x - s.x)) * (w * zz);
    CongMul(num * (q.x - s.x), (s.y + q.y) * den, w * zz, w * zz, p);
    assert ((s.y + q.y) * den) * (w * zz) == (s.y + q.y) * (z' * zz) by {
      assert den * (w * zz) == (den * w) * zz;
    }
    CongSub(num * w * (JacX(q, z') - lx), (s.y + q.y) * (z' * zz), q.y * (z' * zz), q.y * (z' * zz), p);
    assert (s.y + q.y) * (z' * zz) - q.y * (z' * zz) == s.y * (z' * zz);
  }

  /** The doubling polynomials hold the tangent point at Z = 2 y. */
  lemma DoubleHolds(sw: SwCurve, q: Point, s: Point)
    requires sw.fp.Valid() && sw.cv.p == sw.fp.m && Tangent(sw.cv, q, s)
    ensures Holds(sw.fp, sw.fp.Mont(DoubleX(sw.cv.a, q.x, q.y)), sw.fp.Mont(DoubleY(sw.cv.a, q.x, q.y)), s, 2 * q.y)
  {
    var f, p, a, z := sw.fp, sw.fp.m, sw.cv.a, 2 * q.y;
    var num := 3 * q.x * q.x + a;
    var lx := DoubleX(a, q.x, q.y);
    LineXCong(p, q.x + q.x, s.x, num, z, 1);
    assert (q.x + q.x) * (z * z) == q.x * (z * z) + q.x * (z * z);
    assert 1 * 1 * (num * num - (q.x + q.x) * (z * z)) == lx;
    MontEqual(f, lx, JacX(s, z));
    LineYCong(p, q, s, num, z, 1, lx);
    MontEqual(f, DoubleY(a, q.x, q.y), JacY(s, z));
  }
}
