/** Ecdsa.kt: modular inversion and powers, and Jacobian double-and-add. */
module EcdsaKt {
  import opened ModArith
  import opened Primes
  import opened Curve
  import opened CoZ
  import opened PointMult
  import PointMultRun
  import opened MultAdd

  // ---- inversion by the extended Euclidean algorithm ----

  ghost predicate Invertible(a: int, b: int)
    requires b > 0
  {
    exists s: int :: Cong(s * a, 1, b)
  }

  /** Both remainders are combinations of a and b, and the other way around. */
  ghost predicate Combined(a: int, b: int, low: int, high: int, x1: int, y1: int, x2: int, y2: int)
    requires b > 0
  {
    b == x1 * high + y1 * low && a % b == x2 * high + y2 * low
  }

  lemma CombinedStep(a: int, b: int, low: int, high: int, r: int, x1: int, y1: int, x2: int, y2: int)
    requires b > 0 && Combined(a, b, low, high, x1, y1, x2, y2)
    ensures Combined(a, b, high - low * r, low, x1 * r + y1, x1, x2 * r + y2, x2)
  {
    StepBack(x1, y1, low, high, r);
    StepBack(x2, y2, low, high, r);
  }

  lemma StepBack(x: int, y: int, low: int, high: int, r: int)
    ensures (x * r + y) * low + x * (high - low * r) == x * high + y * low
  {
    assert x * (low * r) == x * r * low;
  }

  /** The cofactor of the next remainder. */
  lemma CofactorStep(a: int, b: int, lm: int, hm: int, low: int, high: int, r: int)
    requires b > 0 && Cong(lm * a, low, b) && Cong(hm * a, high, b)
    ensures Cong((hm - lm * r) * a, high - low * r, b)
  {
    CongMul(lm * a, low, r, r, b);
    CongSub(hm * a, high, lm * a * r, low * r, b);
    assert (hm - lm * r) * a == hm * a - lm * a * r;
  }

  /** A common divisor rules out an inverse. */
  lemma NotInvertible(a: int, b: int, d: int)
    requires b > 1 && d > 1 && Divides(d, b) && Divides(d, a % b)
    ensures !Invertible(a, b)
  {
    if s :| Cong(s * a, 1, b) {
      CongMod(a, b);
      CongMul(s, s, a % b, a, b);
      var k := CongDiff(s * (a % b), 1, b);
      assert s * (a % b) - k * b == 1;
      SmallMod(0, d);
      SmallMod(1, d);
      CongMul(s, s, a % b, 0, d);
      CongMul(k, k, b, 0, d);
      CongSub(s * (a % b), s * 0, k * b, k * 0, d);
    }
  }

  /** The inverse of a modulo b, if there is one; zero for zero. */
  method Inverse(a: int, b: int) returns (inverse: int)
    requires b > 0
    ensures 0 <= inverse < b
    ensures a == 0 ==> inverse == 0
    ensures a != 0 ==> (Cong(inverse * a, 1, b) <==> Invertible(a, b))
  {
    if a == 0 {
      return 0;
    }
    var lm, hm, low, high := 1, 0, a % b, b;
    ghost var x1, y1, x2, y2 := 1, 0, 0, 1;
    CongMod(a, b);
    MultipleMod(1, b);
    SmallMod(0, b);
    while low > 1
      invariant 0 <= low < high || (low == 0 && high == 1)
      invariant high > 1 || b == 1
      invariant Cong(lm * a, low, b) && Cong(hm * a, high, b)
      invariant Combined(a, b, low, high, x1, y1, x2, y2)
      decreases low
    {
      var r := high / low;
      CofactorStep(a, b, lm, hm, low, high, r);
      CombinedStep(a, b, low, high, r, x1, y1, x2, y2);
      QuotientStep(high, low, r);
      x1, y1, x2, y2 := x1 * r + y1, x1, x2 * r + y2, x2;
      lm, hm := hm - lm * r, lm;
      low, high := high - low * r, low;
    }
    CongMod(lm, b);
    inverse := lm % b;
    CongMul(inverse, lm, a, a, b);
    Conclude(a, b, inverse, low, high, x1, y1, x2, y2);
  }

  lemma QuotientStep(high: int, low: int, r: int)
    requires 0 < low && r == high / low
    ensures 0 <= high - low * r < low
  {
    assert high == r * low + high % low;
  }

  lemma Conclude(a: int, b: int, inverse: int, low: int, high: int, x1: int, y1: int, x2: int, y2: int)
    requires b > 0 && 0 <= low <= 1 && (high > 1 || b == 1) && Cong(inverse * a, low, b)
    requires Combined(a, b, low, high, x1, y1, x2, y2)
    ensures Cong(inverse * a, 1, b) <==> Invertible(a, b)
  {
    if b > 1 && low == 0 {
      MultipleMod(x1, high);
      MultipleMod(x2, high);
      assert y1 * low == 0 && y2 * low == 0;
      NotInvertible(a, b, high);
    }
    if b == 1 {
      assert Cong(inverse * a, 1, 1);
    }
  }

  // ---- powers ----

  /** Square and multiply.  The recursion ends for positive exponents only. */
  function QuickPow(n: int, m: nat, modulus: int): (r: int)
    requires m >= 1 && modulus > 0
    decreases m
  {
    if m == 1 then n % modulus
    else
      var half := QuickPow(n, m / 2, modulus);
      var r := half * half % modulus;
      if m % 2 == 0 then r else n * r % modulus
  }

  lemma {:induction false} QuickPowIsPower(n: int, m: nat, modulus: int)
    requires m >= 1 && modulus > 0
    ensures QuickPow(n, m, modulus) == Pow(n, m) % modulus
    decreases m
  {
    if m == 1 {
      assert Pow(n, 1) == n * 1;
    } else {
      QuickPowIsPower(n, m / 2, modulus);
      var half, h := QuickPow(n, m / 2, modulus), m / 2;
      CongMod(Pow(n, h), modulus);
      CongMul(half, Pow(n, h), half, Pow(n, h), modulus);
      PowAdd(n, h, h);
      CongMod(half * half, modulus);
      if m % 2 == 0 {
        assert m == h + h;
      } else {
        assert m == h + h + 1;
        CongMul(n, n, half * half % modulus, Pow(n, h + h), modulus);
      }
    }
  }

  // ---- Jacobian coordinates ----

  datatype Jacobian = Jacobian(x: int, y: int, z: int)

  const INFINITY: Jacobian := Jacobian(0, 0, 1)

  /** j stands for the point q. */
  ghost predicate Represents(p: nat, j: Jacobian, q: Point)
    requires p > 0
  {
    if q.Infinity? then j == INFINITY
    else j.z % p != 0 && Cong(j.x, JacX(q, j.z), p) && Cong(j.y, JacY(q, j.z), p)
  }

  function FastDouble(cv: Curve, a: Jacobian): Jacobian
    requires cv.p > 0
  {
    var p := cv.p;
    var ysq := a.y * a.y % p;
    var s := ysq * a.x * 4 % p;
    var m := (a.x * a.x * 3 + a.z * a.z * (a.z * a.z) * cv.a) % p;
    var nx := (m * m - s * 2) % p;
    var ny := (m * (s - nx) - ysq * ysq * 8) % p;
    Jacobian(nx, ny, a.y * a.z * 2 % p)
  }

  function FastAdd(cv: Curve, a: Jacobian, b: Jacobian): Jacobian
    requires cv.p > 0
  {
    var p := cv.p;
    var u1, u2 := b.z * b.z * a.x % p, a.z * a.z * b.x % p;
    var s1, s2 := b.z * b.z * b.z * a.y % p, a.z * a.z * a.z * b.y % p;
    if u1 == u2 then (if s1 == s2 then FastDouble(cv, a) else INFINITY)
    else
      var h, r := u2 - u1, s2 - s1;
      var h2 := h * h % p;
      var h3 := h2 * h % p;
      var u1h2 := u1 * h2 % p;
      var nx := (r * r - h3 - u1h2 * 2) % p;
      var ny := (r * (u1h2 - nx) - s1 * h3) % p;
      Jacobian(nx, ny, h * a.z * b.z % p)
  }

  /** Double and add from the top bit; infinity is recognized by y = 0. */
  function FastMultiply(cv: Curve, a: Jacobian, n: int): Jacobian
    requires cv.p > 0 && cv.n > 1
    decreases if 0 <= n < cv.n then 0 else 1, if n < 0 then -n else n
  {
    if a.y == 0 || n == 0 then INFINITY
    else if n == 1 then a
    else if n < 0 || n >= cv.n then FastMultiply(cv, a, n % cv.n)
    else
      var half := FastMultiply(cv, a, n / 2);
      var doubled := FastDouble(cv, half);
      if n % 2 == 0 then doubled else FastAdd(cv, doubled, a)
  }

  // ---- the doubling ----

  /** The formulas without the intermediate reductions. */
  lemma DoubleUnreduced(cv: Curve, a: Jacobian)
    requires cv.p > 0
    ensures var p, d := cv.p, FastDouble(cv, a);
            var s, m := a.y * a.y * a.x * 4, a.x * a.x * 3 + a.z * a.z * (a.z * a.z) * cv.a;
            && Cong(d.x, m * m - s * 2, p)
            && Cong(d.y, m * (s - d.x) - a.y * a.y * (a.y * a.y) * 8, p)
            && Cong(d.z, a.y * a.z * 2, p)
  {
    var p := cv.p;
    var ysq := a.y * a.y % p;
    var s0, m0 := ysq * a.x * 4, a.x * a.x * 3 + a.z * a.z * (a.z * a.z) * cv.a;
    var s, m := s0 % p, m0 % p;
    var nx0 := m * m - s * 2;
    var nx := nx0 % p;
    CongMod(a.y * a.y, p);
    CongMod(s0, p);
    CongMod(m0, p);
    CongMod(nx0, p);
    CongMod(m * (s - nx) - ysq * ysq * 8, p);
    CongMod(a.y * a.z * 2, p);
    CongMul(ysq, a.y * a.y, a.x, a.x, p);
    CongMul(ysq * a.x, a.y * a.y * a.x, 4, 4, p);
    CongMul(m, m0, m, m0, p);
    CongMul(s, a.y * a.y * a.x * 4, 2, 2, p);
    CongSub(m * m, m0 * m0, s * 2, a.y * a.y * a.x * 4 * 2, p);
    CongSub(s, a.y * a.y * a.x * 4, nx, nx, p);
    CongMul(m, m0, s - nx, a.y * a.y * a.x * 4 - nx, p);
    CongMul(ysq, a.y * a.y, ysq, a.y * a.y, p);
    CongMul(ysq * ysq, a.y * a.y * (a.y * a.y), 8, 8, p);
    CongSub(m * (s - nx), m0 * (a.y * a.y * a.x * 4 - nx), ysq * ysq * 8, a.y * a.y * (a.y * a.y) * 8, p);
  }

  /** The quantities of the doubling in terms of the point: its slope is num / den, and Z grows by den w. */
  lemma DoubleQuantities(p: nat, a: Jacobian, q: Point, ca: int)
    requires p > 0 && q.Affine? && Cong(a.x, JacX(q, a.z), p) && Cong(a.y, JacY(q, a.z), p)
    ensures var num, den, w := 3 * q.x * q.x + ca, 2 * q.y, a.z * a.z * (a.z * a.z);
            && Cong(a.x * a.x * 3 + w * ca, num * w, p)
            && Cong(a.y * a.y * a.x * 4, JacX(q, den * w), p)
            && Cong(a.y * a.y * (a.y * a.y) * 8, JacY(q, den * w), p)
            && Cong(a.y * a.z * 2, den * w, p)
  {
    hide JacX, JacY;
    var x, y, z := JacX(q, a.z), JacY(q, a.z), a.z;
    var w := z * z * (z * z);
    CongMul(a.x, x, a.x, x, p);
    CongMul(a.x * a.x, x * x, 3, 3, p);
    CongAdd(a.x * a.x * 3, x * x * 3, w * ca, w * ca, p);
    CongMul(a.y, y, a.y, y, p);
    CongMul(a.y * a.y, y * y, a.x, x, p);
    CongMul(a.y * a.y * a.x, y * y * x, 4, 4, p);
    CongMul(a.y * a.y, y * y, a.y * a.y, y * y, p);
    CongMul(a.y * a.y * (a.y * a.y), y * y * (y * y), 8, 8, p);
    CongMul(a.y, y, z, z, p);
    CongMul(a.y * z, y * z, 2, 2, p);
    SlopeTerm(q, z, ca);
    DoubledZ(q, z);
    CrossTerm(q, z);
    QuarticTerm(q, z);
  }

  lemma SlopeTerm(q: Point, z: int, ca: int)
    requires q.Affine?
    ensures var x, w := JacX(q, z), z * z * (z * z); x * x * 3 + w * ca == (3 * q.x * q.x + ca) * w
  {
    Square(q.x, z * z);
    var w := z * z * (z * z);
    assert q.x * q.x * w * 3 + w * ca == (3 * (q.x * q.x) + ca) * w;
  }

  lemma DoubledZ(q: Point, z: int)
    requires q.Affine?
    ensures JacY(q, z) * z * 2 == 2 * q.y * (z * z * (z * z))
  {
    assert q.y * (z * (z * z)) * z == q.y * (z * z * (z * z));
  }

  /** 4 Y^2 X = x (2 y w)^2. */
  lemma CrossTerm(q: Point, z: int)
    requires q.Affine?
    ensures JacY(q, z) * JacY(q, z) * JacX(q, z) * 4 == JacX(q, 2 * q.y * (z * z * (z * z)))
  {
    var z3, w := z * (z * z), z * z * (z * z);
    Square(q.y, z3);
    Square(2 * q.y, w);
    assert z3 * z3 * (z * z) == w * w;
    var yy := q.y * q.y;
    assert yy * (z3 * z3) * (q.x * (z * z)) == q.x * (yy * (w * w)) by {
      assert yy * (z3 * z3) * (q.x * (z * z)) == q.x * (yy * (z3 * z3 * (z * z)));
    }
    assert 2 * q.y * (2 * q.y) == 4 * yy;
    assert q.x * (4 * yy * (w * w)) == q.x * (yy * (w * w)) * 4;
  }

  /** 8 Y^4 = y (2 y w)^3. */
  lemma QuarticTerm(q: Point, z: int)
    requires q.Affine?
    ensures var y := JacY(q, z); y * y * (y * y) * 8 == JacY(q, 2 * q.y * (z * z * (z * z)))
  {
    var z3, w, yy := z * (z * z), z * z * (z * z), q.y * q.y;
    Square(q.y, z3);
    Square(yy, z3 * z3);
    FourthOfCube(z);
    Square(2 * q.y, w);
    EightTimes(q.y, w * (w * w));
  }

  lemma FourthOfCube(z: int)
    ensures var z3, w := z * (z * z), z * z * (z * z); z3 * z3 * (z3 * z3) == w * (w * w)
  {
    var z2 := z * z;
    assert z * z2 * (z * z2) == z2 * (z2 * z2) by {
      Square(z, z2);
    }
    Square(z2, z2 * z2);
    Square(z2, z2);
    assert z2 * (z2 * z2) * (z2 * (z2 * z2)) == z2 * z2 * (z2 * z2 * (z2 * z2));
  }

  lemma EightTimes(y: int, v: int)
    ensures y * (2 * y * (2 * y * (2 * y)) * v) == y * y * (y * y) * v * 8
  {
    assert 2 * y * (2 * y * (2 * y)) == 8 * (y * (y * y));
    var t := y * (y * y);
    assert y * (8 * t * v) == y * t * v * 8;
    assert y * t == y * y * (y * y);
  }

  lemma DoubleIsTangent(cv: Curve, a: Jacobian, q: Point, s: Point)
    requires cv.Sound() && Represents(cv.p, a, q) && Tangent(cv, q, s) && (2 * q.y) % cv.p != 0
    ensures Represents(cv.p, FastDouble(cv, a), s)
  {
    hide FastDouble, JacX, JacY;
    var p, d := cv.p, FastDouble(cv, a);
    var num, den, w := 3 * q.x * q.x + cv.a, 2 * q.y, a.z * a.z * (a.z * a.z);
    var s0, m0 := a.y * a.y * a.x * 4, a.x * a.x * 3 + w * cv.a;
    DoubleUnreduced(cv, a);
    DoubleQuantities(p, a, q, cv.a);
    CombineDouble(p, q, s, num, den, w, m0, s0, a.y * a.y * (a.y * a.y) * 8, d.x, d.y);
    NonzeroProduct(p, den, a.z);
    SameScale(p, s, d, den * w);
  }

  lemma CombineDouble(p: nat, q: Point, s: Point, num: int, den: int, w: int, m: int, t: int, y8: int, dx: int, dy: int)
    requires p > 0 && q.Affine? && OnLine(p, q, q.x, s, num, den)
    requires Cong(m, num * w, p) && Cong(t, JacX(q, den * w), p) && Cong(y8, JacY(q, den * w), p)
    requires Cong(dx, m * m - t * 2, p) && Cong(dy, m * (t - dx) - y8, p)
    ensures Cong(dx, JacX(s, den * w), p) && Cong(dy, JacY(s, den * w), p)
  {
    hide JacY;
    var x := JacX(q, den * w);
    CongMul(m, num * w, m, num * w, p);
    CongMul(t, x, 2, 2, p);
    CongSub(m * m, num * w * (num * w), t * 2, x * 2, p);
    Square(num, w);
    Square(den, w);
    LineXCong(p, q.x + q.x, s.x, num, den, w);
    DoubleSum(q.x, num * num, den * den, w * w);
    assert Cong(dx, JacX(s, den * w), p);
    LineYCong(p, q, s, num, den, w, dx);
    CongSub(t, x, dx, dx, p);
    CongMul(m, num * w, t - dx, x - dx, p);
    CongSub(m * (t - dx), num * w * (x - dx), y8, JacY(q, den * w), p);
  }

  lemma DoubleSum(x: int, nn: int, dd: int, ww: int)
    ensures nn * ww - x * (dd * ww) * 2 == ww * (nn - (x + x) * dd)
  {
    assert x * (dd * ww) == x * dd * ww;
    assert (x + x) * dd == 2 * (x * dd);
  }

  lemma NonzeroProduct(p: nat, den: int, z: int)
    requires IsPrime(p) && den % p != 0 && z % p != 0
    ensures (den * (z * z * (z * z))) % p != 0
  {
    if (den * (z * z * (z * z))) % p == 0 {
      PrimeDividesProduct(den, z * z * (z * z), p);
      PrimeDividesProduct(z * z, z * z, p);
      PrimeDividesProduct(z, z, p);
    }
  }

  /** Coordinates at a congruent Z. */
  lemma SameScale(p: nat, s: Point, d: Jacobian, z: int)
    requires p > 0 && s.Affine? && Cong(d.z, z, p) && z % p != 0
    requires Cong(d.x, JacX(s, z), p) && Cong(d.y, JacY(s, z), p)
    ensures Represents(p, d, s)
  {
    CongMul(d.z, z, d.z, z, p);
    CongMul(d.z, z, d.z * d.z, z * z, p);
    CongMul(s.x, s.x, d.z * d.z, z * z, p);
    CongMul(s.y, s.y, d.z * (d.z * d.z), z * (z * z), p);
  }

  // ---- the addition ----

  /** Both points with the common denominator that addition uses. */
  ghost function Common(p: nat, a: Jacobian, b: Jacobian): Regs
    requires p > 0
  {
    Regs(b.z * b.z * a.x % p, b.z * b.z * b.z * a.y % p, a.z * a.z * b.x % p, a.z * a.z * a.z * b.y % p)
  }

  lemma CommonIs(p: nat, a: Jacobian, b: Jacobian, q: Point, r: Point)
    requires p > 0 && q.Affine? && r.Affine? && Represents(p, a, q) && Represents(p, b, r)
    ensures CongRegs(p, Common(p, a, b), Pair(q, r, a.z * b.z))
  {
    Rescale(p, a, b.z, q);
    Rescale(p, b, a.z, r);
    assert a.z * b.z == b.z * a.z;
  }

  lemma Rescale(p: nat, a: Jacobian, z: int, q: Point)
    requires p > 0 && q.Affine? && Cong(a.x, JacX(q, a.z), p) && Cong(a.y, JacY(q, a.z), p)
    ensures Cong(z * z * a.x % p, JacX(q, a.z * z), p) && Cong(z * z * z * a.y % p, JacY(q, a.z * z), p)
  {
    CongMod(z * z * a.x, p);
    CongMod(z * z * z * a.y, p);
    CongMul(z * z, z * z, a.x, JacX(q, a.z), p);
    CongMul(z * z * z, z * z * z, a.y, JacY(q, a.z), p);
    PointMultRun.Rescaled(q, a.z, z);
    assert z * z * JacX(q, a.z) == JacX(q, a.z) * (z * z);
    assert z * z * z * JacY(q, a.z) == JacY(q, a.z) * (z * (z * z));
  }

  /** Residues of scaled coordinates tell the coordinates apart. */
  lemma SameCoordinate(p: nat, x: int, y: int, w: int, u: int, v: int)
    requires IsPrime(p) && w % p != 0 && 0 <= x < p && 0 <= y < p && 0 <= u < p && 0 <= v < p
    requires Cong(u, x * w, p) && Cong(v, y * w, p)
    ensures u == v <==> x == y
  {
    SmallMod(u, p);
    SmallMod(v, p);
    SmallMod(x, p);
    SmallMod(y, p);
    if u == v {
      CancelFactor(x, y, w, p);
    }
  }

  /** The formulas for different x coordinates are those of the co-Z addition of the common form. */
  lemma AddUnreduced(cv: Curve, a: Jacobian, b: Jacobian)
    requires cv.p > 0 && Common(cv.p, a, b).x1 != Common(cv.p, a, b).x2
    ensures var d, c := FastAdd(cv, a, b), Common(cv.p, a, b);
            && Cong(d.x, c.Sum().x1, cv.p) && Cong(d.y, c.Sum().y1, cv.p)
            && Cong(d.z, DX(c.x1, c.x2) * a.z * b.z, cv.p)
  {
    var c, p := Common(cv.p, a, b), cv.p;
    AddReductions(p, c, DX(c.x1, c.x2), c.y2 - c.y1);
    CongMod(DX(c.x1, c.x2) * a.z * b.z, p);
  }

  lemma AddReductions(p: nat, c: Regs, h: int, r: int)
    requires p > 0 && h == DX(c.x1, c.x2) && r == c.y2 - c.y1
    ensures var h2 := h * h % p;
            var h3, u := h2 * h % p, c.x1 * h2 % p;
            var nx := (r * r - h3 - u * 2) % p;
            Cong(nx, c.Sum().x1, p) && Cong((r * (u - nx) - c.y1 * h3) % p, c.Sum().y1, p)
  {
    var h2 := h * h % p;
    var h3, u := h2 * h % p, c.x1 * h2 % p;
    var nx0 := r * r - h3 - u * 2;
    var nx := nx0 % p;
    CongMod(h * h, p);
    CongMod(h2 * h, p);
    CongMod(c.x1 * h2, p);
    CongMod(nx0, p);
    CongMod(r * (u - nx) - c.y1 * h3, p);
    CongMul(h2, h * h, h, h, p);
    CongMul(c.x1, c.x1, h2, h * h, p);
    CongSub(r * r, r * r, h3, h * h * h, p);
    CongMul(u, c.x1 * (h * h), 2, 2, p);
    CongSub(r * r - h3, r * r - h * h * h, u * 2, c.x1 * (h * h) * 2, p);
    CubeSplit(c.x1, c.x2, h);
    var lx := c.Sum().x1;
    CongSub(u, c.x1 * (h * h), nx, lx, p);
    CongMul(r, r, u - nx, c.x1 * (h * h) - lx, p);
    CongMul(c.y1, c.y1, h3, h * h * h, p);
    CongSub(r * (u - nx), r * (c.x1 * (h * h) - lx), c.y1 * h3, c.y1 * (h * h * h), p);
    assert h * h * h == h * (h * h);
  }

  lemma CubeSplit(x1: int, x2: int, h: int)
    requires h == x2 - x1
    ensures h * h * h + x1 * (h * h) * 2 == (x1 + x2) * (h * h)
  {
    var w := h * h;
    assert h * h * h == h * w;
    assert x2 * w - x1 * w + 2 * (x1 * w) == (x1 + x2) * w;
  }

  /** Addition of two multiples, neither at infinity. */
  lemma AddsMultiples(cv: Curve, pt: int -> Point, a: Jacobian, b: Jacobian, u: int, v: int)
    requires Multiples(cv, pt) && u % cv.n != 0 && v % cv.n != 0
    requires Represents(cv.p, a, pt(u)) && Represents(cv.p, b, pt(v))
    ensures Represents(cv.p, FastAdd(cv, a, b), pt(u + v))
  {
    hide Multiples, Represents, FastAdd;
    MultiplesSound(cv, pt);
    IsAffine(cv, pt, u);
    IsAffine(cv, pt, v);
    if (u - v) % cv.n != 0 && (u + v) % cv.n != 0 {
      AddsDifferent(cv, pt, a, b, u, v);
    } else {
      AddsExceptional(cv, pt, a, b, u, v);
    }
  }

  lemma ScaleNonzero(p: nat, y: int, z: int)
    requires IsPrime(p) && y % p != 0 && z % p != 0
    ensures (y * z) % p != 0 && (y * z * (y * z)) % p != 0 && (y * z * (y * z * (y * z))) % p != 0
  {
    var w := y * z;
    if w % p == 0 {
      PrimeDividesProduct(y, z, p);
    }
    if (w * w) % p == 0 {
      PrimeDividesProduct(w, w, p);
    }
    if (w * (w * w)) % p == 0 {
      PrimeDividesProduct(w, w * w, p);
    }
  }

  /** The comparisons of the addition compare the coordinates. */
  lemma Compares(cv: Curve, a: Jacobian, b: Jacobian, q: Point, r: Point)
    requires cv.Sound() && q.Affine? && r.Affine? && cv.OnCurve(q) && cv.OnCurve(r)
    requires Represents(cv.p, a, q) && Represents(cv.p, b, r)
    ensures var c := Common(cv.p, a, b);
            && (c.x1 == c.x2 <==> q.x == r.x) && (c.y1 == c.y2 <==> q.y == r.y)
            && (a.z * b.z) % cv.p != 0
  {
    var c, z := Common(cv.p, a, b), a.z * b.z;
    CommonIs(cv.p, a, b, q, r);
    ScaleNonzero(cv.p, a.z, b.z);
    SameCoordinate(cv.p, q.x, r.x, z * z, c.x1, c.x2);
    SameCoordinate(cv.p, q.y, r.y, z * (z * z), c.y1, c.y2);
  }

  lemma AddsExceptional(cv: Curve, pt: int -> Point, a: Jacobian, b: Jacobian, u: int, v: int)
    requires Multiples(cv, pt) && u % cv.n != 0 && v % cv.n != 0 && pt(u).Affine? && pt(v).Affine?
    requires (u - v) % cv.n == 0 || (u + v) % cv.n == 0
    requires Represents(cv.p, a, pt(u)) && Represents(cv.p, b, pt(v))
    ensures Represents(cv.p, FastAdd(cv, a, b), pt(u + v))
  {
    hide JacX, JacY, FastDouble;
    IsAffine(cv, pt, u);
    IsAffine(cv, pt, v);
    Compares(cv, a, b, pt(u), pt(v));
    MultipleDouble(cv, pt, u);
    if (u - v) % cv.n == 0 {
      CongIffDiff(u, v, cv.n);
      MultipleCong(cv, pt, u, v);
      CongAdd(u, u, u, v, cv.n);
      MultipleCong(cv, pt, 2 * u, u + v);
      DoubleIsTangent(cv, a, pt(u), pt(2 * u));
    } else {
      CongIffDiff(u, -v, cv.n);
      MultipleCong(cv, pt, u, -v);
      MultipleNegate(cv, pt, v);
      IsAffine(cv, pt, u + v);
      NotOwnNegative(cv, pt, v);
    }
  }

  /** A point of odd order is not its own negative. */
  lemma NotOwnNegative(cv: Curve, pt: int -> Point, v: int)
    requires Multiples(cv, pt) && v % cv.n != 0 && pt(v).Affine?
    ensures (-pt(v).y) % cv.p != pt(v).y
  {
    IsAffine(cv, pt, v);
    MultipleDouble(cv, pt, v);
    var y := pt(v).y;
    assert y - (-y) == 2 * y;
    if (-y) % cv.p == y {
      CongMod(-y, cv.p);
      CongIffDiff(y, -y, cv.p);
    }
  }

  lemma AddsDifferent(cv: Curve, pt: int -> Point, a: Jacobian, b: Jacobian, u: int, v: int)
    requires Multiples(cv, pt) && u % cv.n != 0 && v % cv.n != 0 && pt(u).Affine? && pt(v).Affine?
    requires (u - v) % cv.n != 0 && (u + v) % cv.n != 0
    requires Represents(cv.p, a, pt(u)) && Represents(cv.p, b, pt(v))
    ensures Represents(cv.p, FastAdd(cv, a, b), pt(u + v))
  {
    hide JacX, JacY, FastAdd, Multiples, NextZ, OnLine, Common, LineX, LineY, ScaledX, ScaledY, DX;
    MultiplesSound(cv, pt);
    IsAffine(cv, pt, u);
    IsAffine(cv, pt, v);
    IsAffine(cv, pt, u + v);
    MultipleSum(cv, pt, u, v);
    var q, r, z, c := pt(u), pt(v), a.z * b.z, Common(cv.p, a, b);
    Compares(cv, a, b, q, r);
    if q.x == r.x {
      SmallDifference(q.x, r.x, cv.p);
    }
    AddUnreduced(cv, a, b);
    CommonIs(cv.p, a, b, q, r);
    SumCong(cv.p, c, Pair(q, r, z));
    var z' := NextZ(q.x, r.x, z);
    Factor(q.y, r.y, z * (z * z));
    SumReduces(cv.p, q, r, pt(u + v), z);
    NextZNonzero(cv.p, q.x, r.x, z);
    NextZCong(cv.p, c, q, r, a.z, b.z);
    SameScale(cv.p, pt(u + v), FastAdd(cv, a, b), z');
  }

  lemma SumReduces(p: nat, q: Point, r: Point, s: Point, z: int)
    requires p > 0 && Chord(p, q, r, s)
    ensures var t, z' := Pair(q, r, z).Sum(), NextZ(q.x, r.x, z);
            Cong(t.x1, JacX(s, z'), p) && Cong(t.y1, JacY(s, z'), p)
  {
    hide NextZ;
    LineReduces(p, q, r.x, s, r.y - q.y, z);
    Factor(q.y, r.y, z * (z * z));
  }

  lemma NextZCong(p: nat, c: Regs, q: Point, r: Point, za: int, zb: int)
    requires p > 0 && q.Affine? && r.Affine? && CongRegs(p, c, Pair(q, r, za * zb))
    ensures Cong(DX(c.x1, c.x2) * za * zb, NextZ(q.x, r.x, za * zb), p)
  {
    var t := Pair(q, r, za * zb);
    CongSub(c.x2, t.x2, c.x1, t.x1, p);
    CongMul(DX(c.x1, c.x2), DX(t.x1, t.x2), za * zb, za * zb, p);
    assert DX(c.x1, c.x2) * za * zb == DX(c.x1, c.x2) * (za * zb);
    assert DX(t.x1, t.x2) * (za * zb) == za * zb * DX(t.x1, t.x2);
  }

  // ---- operands at infinity ----

  /** For multiples of any kind the sum is right exactly if neither operand is at infinity: the encoding of
      infinity is taken for that of a finite point. */
  lemma AddsExactly(cv: Curve, pt: int -> Point, a: Jacobian, b: Jacobian, u: int, v: int)
    requires Multiples(cv, pt) && Represents(cv.p, a, pt(u)) && Represents(cv.p, b, pt(v))
    ensures Represents(cv.p, FastAdd(cv, a, b), pt(u + v)) <==> u % cv.n != 0 && v % cv.n != 0
  {
    hide Multiples, Represents, FastAdd;
    MultiplesSound(cv, pt);
    IsAffine(cv, pt, u);
    IsAffine(cv, pt, v);
    if u % cv.n == 0 {
      SumWithInfinity(cv, pt, u, v);
      if v % cv.n == 0 {
        BothInfinite(cv, a, b);
      } else {
        MultipleDouble(cv, pt, v);
        FirstInfinite(cv, a, b, pt(v));
      }
    } else if v % cv.n == 0 {
      SumWithInfinity(cv, pt, v, u);
      MultipleDouble(cv, pt, u);
      SecondInfinite(cv, a, b, pt(u));
    } else {
      AddsMultiples(cv, pt, a, b, u, v);
    }
  }

  lemma SumWithInfinity(cv: Curve, pt: int -> Point, u: int, v: int)
    requires Multiples(cv, pt) && u % cv.n == 0
    ensures pt(u + v) == pt(v) && u + v == v + u
  {
    CongIffDiff(u + v, v, cv.n);
    MultipleCong(cv, pt, u + v, v);
  }

  /** Infinity doubled by the formulas of a finite point has Z = 0. */
  lemma BothInfinite(cv: Curve, a: Jacobian, b: Jacobian)
    requires cv.Sound() && Represents(cv.p, a, Infinity) && Represents(cv.p, b, Infinity)
    ensures !Represents(cv.p, FastAdd(cv, a, b), Infinity)
  {
    SmallMod(0, cv.p);
  }

  /** The coordinates of a finite point of odd order: X is zero only for x = 0, and Y never is. */
  lemma ScaledCoordinates(p: nat, a: Jacobian, q: Point)
    requires IsPrime(p) && q.Affine? && q.y % p != 0 && Represents(p, a, q)
    ensures a.y % p != 0 && (a.x % p == 0 <==> q.x % p == 0)
  {
    var z2, z3 := a.z * a.z, a.z * (a.z * a.z);
    if z2 % p == 0 {
      PrimeDividesProduct(a.z, a.z, p);
    }
    if z3 % p == 0 {
      PrimeDividesProduct(a.z, z2, p);
    }
    if (q.y * z3) % p == 0 {
      PrimeDividesProduct(q.y, z3, p);
    }
    if q.x % p == 0 {
      SmallMod(0, p);
      CongMul(q.x, 0, z2, z2, p);
      ZeroTimes(0, z2);
    } else if (q.x * z2) % p == 0 {
      PrimeDividesProduct(q.x, z2, p);
    }
  }

  lemma FirstInfinite(cv: Curve, a: Jacobian, b: Jacobian, q: Point)
    requires cv.Sound() && Represents(cv.p, a, Infinity) && Represents(cv.p, b, q) && q.Affine? && q.y % cv.p != 0
    ensures !Represents(cv.p, FastAdd(cv, a, b), q)
  {
    hide FastDouble;
    var p, d := cv.p, FastAdd(cv, a, b);
    var c, x, y := Common(p, a, b), b.x % p, b.y % p;
    ScaledCoordinates(p, b, q);
    SmallMod(0, p);
    assert c == Regs(0, 0, x, y);
    SmallMod(1, p);
    if x != 0 {
      AddUnreduced(cv, a, b);
      SumFromNothing(x, y, y * y - x * (x * x), x * (x * x));
      CongMod(b.x, p);
      CongMod(b.y, p);
      WrongSum(p, x, y, q, b, d, 1);
    }
  }

  lemma SecondInfinite(cv: Curve, a: Jacobian, b: Jacobian, q: Point)
    requires cv.Sound() && Represents(cv.p, a, q) && Represents(cv.p, b, Infinity) && q.Affine? && q.y % cv.p != 0
    ensures !Represents(cv.p, FastAdd(cv, a, b), q)
  {
    hide FastDouble;
    var p, d := cv.p, FastAdd(cv, a, b);
    var c, x, y := Common(p, a, b), a.x % p, a.y % p;
    ScaledCoordinates(p, a, q);
    SmallMod(0, p);
    assert c == Regs(x, y, 0, 0);
    SmallMod(1, p);
    if x != 0 {
      AddUnreduced(cv, a, b);
      PlusNothingSum(c, y * y - x * (x * x), x * (x * x));
      CongMod(a.x, p);
      CongMod(a.y, p);
      WrongSum(p, x, y, q, a, d, -1);
    }
  }

  /** The sum of a finite point with coordinates (x, y), and the encoding of infinity before or after it, is not
      that point. */
  lemma WrongSum(p: nat, x: int, y: int, q: Point, b: Jacobian, d: Jacobian, sign: int)
    requires IsPrime(p) && p > 3 && x % p != 0 && y % p != 0 && (sign == 1 || sign == -1)
    requires q.Affine? && Represents(p, b, q) && Cong(x, b.x, p) && Cong(y, b.y, p)
    requires var l := y * y - x * (x * x);
             Cong(d.x, l, p) && Cong(d.y, -sign * (y * l), p) && Cong(d.z, sign * x * b.z, p)
    ensures !Represents(p, d, q)
  {
    if Represents(p, d, q) {
      var t := x * (x * x);
      var l := y * y - t;
      ScaledTwice(p, x, y, q, b, d, sign);
      Clash(p, x, y, t, l);
    }
  }

  /** What it would take. */
  lemma ScaledTwice(p: nat, x: int, y: int, q: Point, b: Jacobian, d: Jacobian, sign: int)
    requires p > 0 && q.Affine? && Represents(p, b, q) && Represents(p, d, q)
    requires Cong(x, b.x, p) && Cong(y, b.y, p) && (sign == 1 || sign == -1)
    requires var l := y * y - x * (x * x);
             Cong(d.x, l, p) && Cong(d.y, -sign * (y * l), p) && Cong(d.z, sign * x * b.z, p)
    ensures var t := x * (x * x);
            var l := y * y - t;
            Cong(l, t, p) && Cong(-(y * l), y * t, p)
  {
    hide JacX, JacY;
    var z, w, t := b.z, sign * x, x * (x * x);
    var l := y * y - t;
    assert w * z == z * w;
    SameJacobian(q, d.z, z * w, p);
    PointMultRun.Rescaled(q, z, w);
    SignedPowers(x, y, sign);
    CongMul(JacX(q, z), x, w * w, x * x, p);
    CongMul(JacY(q, z), y, w * (w * w), sign * t, p);
    if sign == -1 {
      CongSub(0, 0, y * l, -(y * t), p);
    }
  }

  lemma SignedPowers(x: int, y: int, sign: int)
    requires sign == 1 || sign == -1
    ensures var w, t := sign * x, x * (x * x);
            w * w == x * x && w * (w * w) == sign * t && y * (sign * t) == sign * (y * t)
  {
    if sign == -1 {
      assert (-x) * (-x) == x * x;
    }
  }

  lemma SameJacobian(q: Point, z: int, z': int, p: nat)
    requires p > 0 && q.Affine? && Cong(z, z', p)
    ensures Cong(JacX(q, z), JacX(q, z'), p) && Cong(JacY(q, z), JacY(q, z'), p)
  {
    CongMul(z, z', z, z', p);
    CongMul(z, z', z * z, z' * z', p);
    CongMul(q.x, q.x, z * z, z' * z', p);
    CongMul(q.y, q.y, z * (z * z), z' * (z' * z'), p);
  }

  lemma Clash(p: nat, x: int, y: int, t: int, l: int)
    requires IsPrime(p) && p > 3 && x % p != 0 && y % p != 0 && t == x * (x * x)
    ensures !(Cong(l, t, p) && Cong(-(y * l), y * t, p))
  {
    CubeNonzero(p, x);
    var u := y * t;
    if Cong(l, t, p) && Cong(-(y * l), u, p) {
      CongMul(y, y, l, t, p);
      CongSub(0, 0, y * l, u, p);
      CongIffDiff(u, -u, p);
      SmallMod(2, p);
      PrimeDividesProduct(2, u, p);
      PrimeDividesProduct(y, t, p);
    }
  }

  lemma CubeNonzero(p: nat, x: int)
    requires IsPrime(p) && x % p != 0
    ensures (x * (x * x)) % p != 0
  {
    if (x * (x * x)) % p == 0 {
      PrimeDividesProduct(x, x * x, p);
      PrimeDividesProduct(x, x, p);
    }
  }

  lemma SumFromNothing(x: int, y: int, l: int, t: int)
    requires t == x * (x * x) && l == y * y - t
    ensures Regs(0, 0, x, y).Sum().x1 == l && Regs(0, 0, x, y).Sum().y1 == -(y * l)
  {
    ZeroTimes(0, x * x);
    ZeroTimes(0, x * (x * x));
    assert y * (0 - l) == -(y * l);
  }

  // ---- the multiplication ----

  /** One step of the recursion. */
  lemma Unfold(cv: Curve, a: Jacobian, n: int)
    requires cv.p > 0 && cv.n > 1 && a.y != 0
    ensures FastMultiply(cv, a, n) ==
            if n == 0 then INFINITY
            else if n == 1 then a
            else if n < 0 || n >= cv.n then FastMultiply(cv, a, n % cv.n)
            else if n % 2 == 0 then FastDouble(cv, FastMultiply(cv, a, n / 2))
            else FastAdd(cv, FastDouble(cv, FastMultiply(cv, a, n / 2)), a)
  {
    hide FastDouble, FastAdd;
  }

  lemma Nothing(cv: Curve, pt: int -> Point)
    requires Multiples(cv, pt)
    ensures Represents(cv.p, INFINITY, pt(0))
  {
    SmallMod(0, cv.n);
    IsAffine(cv, pt, 0);
  }

  /** For every integer n the result is n times the point. */
  lemma {:induction false} MultipliesPoint(cv: Curve, pt: int -> Point, a: Jacobian, n: int)
    requires Multiples(cv, pt) && Represents(cv.p, a, pt(1))
    ensures Represents(cv.p, FastMultiply(cv, a, n), pt(n))
    decreases if 0 <= n < cv.n then 0 else 1, if n < 0 then -n else n
  {
    hide Multiples, FastDouble, FastAdd, FastMultiply, Represents;
    MultiplesSound(cv, pt);
    NonzeroY(cv, pt, a);
    SmallMod(0, cv.p);
    Unfold(cv, a, n);
    if n == 0 {
      Nothing(cv, pt);
    } else if n == 1 {
    } else if n < 0 || n >= cv.n {
      MultipliesPoint(cv, pt, a, n % cv.n);
      CongMod(n, cv.n);
      MultipleCong(cv, pt, n % cv.n, n);
    } else {
      MultipliesPoint(cv, pt, a, n / 2);
      HalfStep(cv, pt, a, n);
    }
  }

  /** The Y coordinate of a represented point of odd order is not zero. */
  lemma NonzeroY(cv: Curve, pt: int -> Point, a: Jacobian)
    requires Multiples(cv, pt) && Represents(cv.p, a, pt(1))
    ensures pt(1).Affine? && a.y % cv.p != 0
  {
    SmallMod(1, cv.n);
    IsAffine(cv, pt, 1);
    MultipleDouble(cv, pt, 1);
    if a.y % cv.p == 0 {
      PrimeDividesProduct(pt(1).y, a.z * (a.z * a.z), cv.p);
      PrimeDividesProduct(a.z, a.z * a.z, cv.p);
      PrimeDividesProduct(a.z, a.z, cv.p);
    }
  }

  /** The recursive step; its addition is never one of equal or opposite points. */
  lemma HalfStep(cv: Curve, pt: int -> Point, a: Jacobian, n: int)
    requires Multiples(cv, pt) && Represents(cv.p, a, pt(1)) && 2 <= n < cv.n
    requires Represents(cv.p, FastMultiply(cv, a, n / 2), pt(n / 2))
    ensures var doubled := FastDouble(cv, FastMultiply(cv, a, n / 2));
            && Represents(cv.p, doubled, pt(2 * (n / 2)))
            && (n % 2 == 1 ==> Represents(cv.p, FastAdd(cv, doubled, a), pt(n)))
            && (n % 2 == 1 ==> (2 * (n / 2) - 1) % cv.n != 0 && (2 * (n / 2) + 1) % cv.n != 0)
  {
    hide Multiples, FastDouble, FastAdd, FastMultiply, Represents, Tangent;
    MultiplesSound(cv, pt);
    var h := n / 2;
    SmallMod(1, cv.n);
    SmallMod(h, cv.n);
    IsAffine(cv, pt, h);
    MultipleDouble(cv, pt, h);
    DoubleIsTangent(cv, FastMultiply(cv, a, h), pt(h), pt(2 * h));
    if n % 2 == 1 {
      SmallMod(2 * h, cv.n);
      SmallMod(2 * h - 1, cv.n);
      SmallMod(2 * h + 1, cv.n);
      AddsMultiples(cv, pt, FastDouble(cv, FastMultiply(cv, a, h)), a, 2 * h, 1);
      assert 2 * h + 1 == n;
    }
  }
}
