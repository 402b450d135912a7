/** Ecdsa.kt: public keys, signing and verification, on numbers. */
module EcdsaKtSign {
  import opened ModArith
  import opened Primes
  import opened Results
  import opened Curve
  import opened CoZ
  import opened EcdsaKt
  import Ecdsa
  import PointMultRun
  import QuasiField

  // ---- affine coordinates ----

  /** The affine coordinates of a point that is represented; (0, 0) for infinity. */
  method AffineOf(cv: Curve, j: Jacobian, ghost q: Point) returns (x: int, y: int)
    requires cv.Sound() && cv.OnCurve(q) && Represents(cv.p, j, q)
    ensures (x, y) == if q.Infinity? then (0, 0) else (q.x, q.y)
  {
    var z := Inverse(j.z, cv.p);
    x := z * z * j.x % cv.p;
    y := z * z * z * j.y % cv.p;
    if q.Infinity? {
      ZeroTimes(0, z * z);
      ZeroTimes(0, z * z * z);
      SmallMod(0, cv.p);
    } else {
      InverseOfUnit(j.z, cv.p, z);
      Unscaled(cv.p, j, q, z);
      SmallMod(q.x, cv.p);
      SmallMod(q.y, cv.p);
    }
  }

  /** Numbers that are not zero modulo a prime have an inverse, and the routine finds it. */
  lemma InverseOfUnit(a: int, p: nat, inverse: int)
    requires IsPrime(p) && a % p != 0 && (a != 0 ==> (Cong(inverse * a, 1, p) <==> Invertible(a, p)))
    ensures Cong(inverse * a, 1, p)
  {
    SmallMod(0, p);
    var s := InverseExists(a, p);
    assert Invertible(a, p);
  }

  lemma Unscaled(p: nat, j: Jacobian, q: Point, z: int)
    requires p > 0 && q.Affine? && Represents(p, j, q) && Cong(z * j.z, 1, p)
    ensures Cong(z * z * j.x, q.x, p) && Cong(z * z * z * j.y, q.y, p)
  {
    var w := z * j.z;
    CongMul(z * z, z * z, j.x, JacX(q, j.z), p);
    CongMul(z * z * z, z * z * z, j.y, JacY(q, j.z), p);
    Regrouped(q, j.z, z);
    CongMul(w, 1, w, 1, p);
    CongMul(w, 1, w * w, 1, p);
    CongMul(q.x, q.x, w * w, 1, p);
    CongMul(q.y, q.y, w * (w * w), 1, p);
  }

  lemma Regrouped(q: Point, jz: int, z: int)
    requires q.Affine?
    ensures var w := z * jz;
            z * z * JacX(q, jz) == q.x * (w * w) && z * z * z * JacY(q, jz) == q.y * (w * (w * w))
  {
    var w := z * jz;
    assert w * w == z * z * (jz * jz) by {
      Associate(z * jz, z, jz);
      Swap(z, jz, z);
      Associate(z * z, jz, jz);
    }
    Associate(z * z, q.x, jz * jz);
    assert z * z * q.x == q.x * (z * z);
    Associate(q.x, z * z, jz * jz);
    var c, d := z * z * z, jz * (jz * jz);
    assert w * (w * w) == c * d by {
      Associate(z * jz, z * z, jz * jz);
      Swap(z, jz, z * z);
      Associate(z, z, z);
      Associate(c, jz, jz * jz);
    }
    Associate(c, q.y, d);
    assert c * q.y == q.y * c;
    Associate(q.y, c, d);
  }

  /** A multiple of a finite multiple, in affine coordinates. */
  method Multiple(cv: Curve, x: int, y: int, m: int, ghost pt: int -> Point, ghost d: int) returns (u: int, v: int)
    requires Multiples(cv, pt) && pt(d) == Affine(x, y)
    ensures (u, v) == if pt(d * m).Infinity? then (0, 0) else (pt(d * m).x, pt(d * m).y)
  {
    hide Multiples, FastMultiply, Represents;
    MultiplesSound(cv, pt);
    ghost var scaled: int -> Point := k => pt(d * k);
    IsAffine(cv, pt, d);
    PointMultRun.ScaledMultiples(cv, pt, d, scaled);
    assert d * 1 == d;
    RepresentsItself(cv, x, y);
    MultipliesPoint(cv, scaled, Jacobian(x, y, 1), m);
    IsAffine(cv, scaled, m);
    u, v := AffineOf(cv, FastMultiply(cv, Jacobian(x, y, 1), m), pt(d * m));
  }

  lemma RepresentsItself(cv: Curve, x: int, y: int)
    requires cv.Sound()
    ensures Represents(cv.p, Jacobian(x, y, 1), Affine(x, y))
  {
    SmallMod(1, cv.p);
    assert x * (1 * 1) == x && y * (1 * (1 * 1)) == y;
  }

  /** privateKeyToPublicKey.  A key above n is refused; 0 and n, which are not, give (0, 0). */
  method PublicKey(cv: Curve, g: (int, int), private: nat, ghost pt: int -> Point) returns (key: Option<(int, int)>)
    requires Multiples(cv, pt) && pt(1) == Affine(g.0, g.1)
    ensures key.None? <==> private > cv.n
    ensures private == 0 || private == cv.n ==> key == Some((0, 0))
    ensures 0 < private < cv.n ==> pt(private).Affine? && key == Some((pt(private).x, pt(private).y))
  {
    hide Multiples;
    if private > cv.n {
      return None;
    }
    MultiplesSound(cv, pt);
    IsAffine(cv, pt, private);
    if private < cv.n {
      SmallMod(private, cv.n);
    } else {
      MultipleMod(1, cv.n);
    }
    assert 1 * private == private;
    var x, y := Multiple(cv, g.0, g.1, private, pt, 1);
    key := Some((x, y));
  }

  // ---- signing ----

  /** sign.  The r component is the x coordinate of the nonce's point, which is not reduced modulo n; of the two
      numbers that fit, the s component is the one below n / 2. */
  method Sign(cv: Curve, g: (int, int), private: int, hash: int, k: int, ghost pt: int -> Point)
    returns (r: int, s: int)
    requires Multiples(cv, pt) && pt(1) == Affine(g.0, g.1)
    ensures k % cv.n == 0 ==> r == 0
    ensures k % cv.n != 0 ==> pt(k).Affine? && r == pt(k).x
    ensures k % cv.n != 0 ==> Cong(s * k, hash + r * private, cv.n) || Cong(s * k, -(hash + r * private), cv.n)
    ensures 0 <= s && 2 * s < cv.n
  {
    hide Multiples;
    MultiplesSound(cv, pt);
    IsAffine(cv, pt, k);
    assert 1 * k == k;
    var y;
    r, y := Multiple(cv, g.0, g.1, k, pt, 1);
    var inverse := Inverse(k, cv.n);
    var raw := inverse * (hash + r * private) % cv.n;
    QuasiField.OddPrime(cv.n);
    if k % cv.n != 0 {
      InverseOfUnit(k, cv.n, inverse);
      Quotient(cv.n, hash + r * private, k, inverse, raw);
    }
    s := if raw * 2 < cv.n then raw else cv.n - raw;
  }

  /** v divided by k modulo n, and its negation. */
  lemma Quotient(n: nat, v: int, k: int, inverse: int, raw: int)
    requires n > 0 && Cong(inverse * k, 1, n) && raw == inverse * v % n
    ensures Cong(raw * k, v, n) && Cong((n - raw) * k, -v, n)
  {
    CongMod(inverse * v, n);
    CongMul(raw, inverse * v, k, k, n);
    Swap(inverse, v, k);
    CongMul(inverse * k, 1, v, v, n);
    assert (n - raw) * k == -(raw * k) + k * n;
    AddMultiple(-(raw * k), k, n);
    CongSub(0, 0, raw * k, v, n);
  }

  // ---- verification ----

  /** The x coordinate that verify computes from the sum of two points. */
  method AffineX(cv: Curve, j: Jacobian) returns (x: int)
    requires cv.Sound()
    ensures 0 <= x < cv.p
    ensures j.z % cv.p != 0 ==> Cong(x * (j.z * j.z), j.x, cv.p)
  {
    var z := Inverse(j.z, cv.p);
    x := z * z * j.x % cv.p;
    if j.z % cv.p != 0 {
      InverseOfUnit(j.z, cv.p, z);
      Rescaled(cv.p, j.x, j.z, z, x);
    }
  }

  lemma Rescaled(p: nat, jx: int, jz: int, z: int, x: int)
    requires p > 0 && Cong(z * jz, 1, p) && x == z * z * jx % p
    ensures Cong(x * (jz * jz), jx, p)
  {
    var w := z * jz;
    CongMod(z * z * jx, p);
    CongMul(x, z * z * jx, jz * jz, jz * jz, p);
    CongMul(w, 1, w, 1, p);
    CongMul(w * w, 1, jx, jx, p);
    assert z * z * jx * (jz * jz) == w * w * jx by {
      Swap(z * z, jx, jz * jz);
      Associate(z * jz, z, jz);
      Swap(z, jz, z);
      Associate(z * z, jz, jz);
    }
  }

  /** The representation of a finite point determines its x coordinate. */
  lemma XOfSum(cv: Curve, j: Jacobian, q: Point, x: int)
    requires cv.Sound() && cv.OnCurve(q) && Represents(cv.p, j, q) && 0 <= x < cv.p
    requires j.z % cv.p != 0 ==> Cong(x * (j.z * j.z), j.x, cv.p)
    ensures x == if q.Affine? then q.x else 0
  {
    SmallMod(x, cv.p);
    if q.Affine? {
      SmallMod(q.x, cv.p);
      NonzeroSquare(cv.p, j.z);
      CancelFactor(x, q.x, j.z * j.z, cv.p);
    } else {
      SmallMod(1, cv.p);
      SmallMod(0, cv.p);
      assert x * (1 * 1) == x;
    }
  }

  lemma NonzeroSquare(p: nat, z: int)
    requires IsPrime(p) && z % p != 0
    ensures (z * z) % p != 0
  {
    if (z * z) % p == 0 {
      PrimeDividesProduct(z, z, p);
    }
  }

  /** Adding a point to what stands for infinity, as if that were finite: the x coordinate is (a x + b) / x^2. */
  lemma SumWithNothing(cv: Curve, q: Point, x: int)
    requires cv.Sound() && cv.OnCurve(q) && q.Affine? && q.y != 0 && 0 <= x < cv.p
    requires var sum := FastAdd(cv, Jacobian(0, 0, 1), Jacobian(q.x, q.y, 1));
             sum.z % cv.p != 0 ==> Cong(x * (sum.z * sum.z), sum.x, cv.p)
    ensures q.x == 0 ==> x == 0
    ensures q.x != 0 ==> Cong(x * (q.x * q.x), cv.a * q.x + cv.b, cv.p)
  {
    var p, sum := cv.p, FastAdd(cv, Jacobian(0, 0, 1), Jacobian(q.x, q.y, 1));
    SmallMod(0, p);
    SmallMod(1, p);
    SmallMod(q.x, p);
    SmallMod(q.y, p);
    assert 1 * 1 * 0 == 0 && 1 * 1 * 1 * 0 == 0 && 1 * 1 * q.x == q.x && 1 * 1 * 1 * q.y == q.y;
    if q.x == 0 {
      assert sum == INFINITY;
      assert x * (1 * 1) == x;
      SmallMod(x, p);
    } else {
      NothingAdded(p, q.x, q.y, sum);
      CongSub(q.y * q.y, q.x * q.x * q.x + cv.a * q.x + cv.b, q.x * q.x * q.x, q.x * q.x * q.x, p);
    }
  }

  /** The formulas with a first operand of (0, 0, 1). */
  lemma NothingAdded(p: nat, x: int, y: int, sum: Jacobian)
    requires p > 0 && 0 < x < p
    requires var h2 := x * x % p;
             var h3 := h2 * x % p;
             sum.x == (y * y - h3 - 0 * h2 % p * 2) % p && sum.z == x * 1 * 1 % p
    ensures sum.z == x && Cong(sum.x, y * y - x * x * x, p)
  {
    SmallMod(x, p);
    SmallMod(0, p);
    var h2 := x * x % p;
    ZeroTimes(0, h2);
    CongMod(x * x, p);
    CongMul(h2, x * x, x, x, p);
    CongMod(h2 * x, p);
    CongSub(y * y, y * y, h2 * x % p, x * x * x, p);
    CongMod(y * y - h2 * x % p, p);
  }

  /** v divided by s modulo n. */
  lemma Ratio(n: nat, v: int, s: int, w: int, u: int, q: int)
    requires IsPrime(n) && s % n != 0 && Cong(u * s, v, n) && q == v * w % n
    requires s != 0 ==> (Cong(w * s, 1, n) <==> Invertible(s, n))
    ensures 0 <= q < n && Cong(q, u, n) && (q == 0 <==> v % n == 0)
  {
    InverseOfUnit(s, n, w);
    CongMod(v * w, n);
    CongMul(u * s, v, w, w, n);
    Associate(u, s, w);
    CongMul(u, u, s * w, 1, n);
    SmallMod(q, n);
    SmallMod(0, n);
    if u % n == 0 {
      CongMul(u, 0, s, s, n);
      ZeroTimes(0, s);
    }
    if v % n == 0 {
      CongMul(v, 0, w, w, n);
      ZeroTimes(0, w);
    }
  }

  /** The comparison with the sum of two finite multiples. */
  lemma FiniteSum(cv: Curve, pt: int -> Point, p: Point, q: Point, v1: int, v2: int, r: int, x: int)
    requires Multiples(cv, pt) && v1 % cv.n != 0 && v2 % cv.n != 0 && r % cv.n != 0
    requires p == pt(v1) && q == pt(v2) && p.Affine? && q.Affine? && 0 <= x < cv.p
    requires var sum := FastAdd(cv, Jacobian(p.x, p.y, 1), Jacobian(q.x, q.y, 1));
             sum.z % cv.p != 0 ==> Cong(x * (sum.z * sum.z), sum.x, cv.p)
    ensures r == x <==> pt(v1 + v2).Affine? && pt(v1 + v2).x == r
  {
    hide Multiples, FastAdd, Represents;
    MultiplesSound(cv, pt);
    RepresentsItself(cv, p.x, p.y);
    RepresentsItself(cv, q.x, q.y);
    AddsMultiples(cv, pt, Jacobian(p.x, p.y, 1), Jacobian(q.x, q.y, 1), v1, v2);
    IsAffine(cv, pt, v1 + v2);
    XOfSum(cv, FastAdd(cv, Jacobian(p.x, p.y, 1), Jacobian(q.x, q.y, 1)), pt(v1 + v2), x);
    SmallMod(0, cv.n);
  }

  /** The comparison with the sum of what stands for infinity and a finite multiple. */
  lemma WrongComparison(cv: Curve, q: Point, n: nat, r: int, x: int)
    requires cv.Sound() && cv.OnCurve(q) && q.Affine? && q.y != 0 && 0 <= x < cv.p && n > 0 && r % n != 0
    requires var sum := FastAdd(cv, Jacobian(0, 0, 1), Jacobian(q.x, q.y, 1));
             sum.z % cv.p != 0 ==> Cong(x * (sum.z * sum.z), sum.x, cv.p)
    ensures r == x <==> 0 <= r < cv.p && q.x != 0 && Cong(r * (q.x * q.x), cv.a * q.x + cv.b, cv.p)
  {
    hide FastAdd;
    SumWithNothing(cv, q, x);
    SmallMod(0, n);
    if 0 <= r < cv.p && q.x != 0 && Cong(r * (q.x * q.x), cv.a * q.x + cv.b, cv.p) {
      SmallMod(q.x, cv.p);
      NonzeroSquare(cv.p, q.x);
      CancelFactor(r, x, q.x * q.x, cv.p);
      SmallMod(r, cv.p);
      SmallMod(x, cv.p);
    }
  }

  /** verify, without the decoding of its arguments.  For a digest that is not zero modulo n it accepts exactly if r and
      s are not zero modulo n and r is the x coordinate of u1 G + u2 Q, for the u1 and u2 with u1 s = hash and
      u2 s = r modulo n: r is not compared modulo n.  For a digest that is zero modulo n, u1 G is at infinity; its
      coordinates (0, 0) are taken for a point, and r is compared with (a x + b) / x^2 for the x coordinate of u2 Q. */
  method Verify(cv: Curve, g: (int, int), key: (int, int), hash: int, r: int, s: int, ghost pt: int -> Point,
                ghost d: int, ghost u1: int, ghost u2: int)
    returns (ok: bool)
    requires Multiples(cv, pt) && pt(1) == Affine(g.0, g.1) && pt(d) == Affine(key.0, key.1)
    requires s % cv.n != 0 ==> Cong(u1 * s, hash, cv.n) && Cong(u2 * s, r, cv.n)
    ensures hash % cv.n != 0 ==>
              (ok <==> && r % cv.n != 0 && s % cv.n != 0
                       && pt(u1 + u2 * d).Affine? && pt(u1 + u2 * d).x == r)
    ensures hash % cv.n == 0 ==>
              (ok <==> && r % cv.n != 0 && s % cv.n != 0 && 0 <= r < cv.p
                       && var q := pt(u2 * d);
                          q.Affine? && q.x != 0 && Cong(r * (q.x * q.x), cv.a * q.x + cv.b, cv.p))
  {
    hide Multiples, FastAdd, Represents;
    MultiplesSound(cv, pt);
    if r % cv.n == 0 || s % cv.n == 0 {
      return false;
    }
    var w := Inverse(s, cv.n);
    var v1, v2 := hash * w % cv.n, r * w % cv.n;
    Ratio(cv.n, hash, s, w, u1, v1);
    Ratio(cv.n, r, s, w, u2, v2);
    SamePoints(cv, pt, d, u1, u2, v1, v2);
    var px, py := Multiple(cv, g.0, g.1, v1, pt, 1);
    var qx, qy := Multiple(cv, key.0, key.1, v2, pt, d);
    var sum := FastAdd(cv, Jacobian(px, py, 1), Jacobian(qx, qy, 1));
    var x := AffineX(cv, sum);
    ok := r == x;
    if hash % cv.n != 0 {
      FiniteSum(cv, pt, pt(v1), pt(d * v2), v1, d * v2, r, x);
    } else {
      WrongComparison(cv, pt(d * v2), cv.n, r, x);
    }
  }

  /** The points that are added do not depend on which numbers stand for the scalars. */
  lemma SamePoints(cv: Curve, pt: int -> Point, d: int, u1: int, u2: int, v1: int, v2: int)
    requires Multiples(cv, pt) && pt(d).Affine? && Cong(v1, u1, cv.n) && Cong(v2, u2, cv.n)
    requires 0 <= v1 < cv.n && 0 < v2 < cv.n
    ensures pt(1 * v1) == pt(v1) && (v1 == 0 <==> pt(v1).Infinity?) && v1 % cv.n == v1
    ensures pt(d * v2) == pt(u2 * d) && (d * v2) % cv.n != 0
    ensures pt(d * v2).Affine? && cv.OnCurve(pt(d * v2)) && pt(d * v2).y != 0
    ensures pt(v1 + d * v2) == pt(u1 + u2 * d)
  {
    hide Multiples;
    MultiplesSound(cv, pt);
    IsAffine(cv, pt, d);
    SmallMod(v1, cv.n);
    SmallMod(v2, cv.n);
    IsAffine(cv, pt, v1);
    if (d * v2) % cv.n == 0 {
      PrimeDividesProduct(d, v2, cv.n);
    }
    IsAffine(cv, pt, d * v2);
    MultipleDouble(cv, pt, d * v2);
    SmallMod(0, cv.p);
    CongMul(v2, u2, d, d, cv.n);
    assert v2 * d == d * v2;
    MultipleCong(cv, pt, d * v2, u2 * d);
    CongAdd(v1, u1, d * v2, u2 * d, cv.n);
    MultipleCong(cv, pt, v1 + d * v2, u1 + u2 * d);
  }

  // ---- signing, then verifying ----

  /** With either of the two numbers for s, a verification comes back to the nonce or to its negation. */
  lemma BackToNonce(cv: Curve, pt: int -> Point, d: int, k: int, hash: int, r: int, s: int, u1: int, u2: int)
    requires Multiples(cv, pt) && s % cv.n != 0 && Cong(u1 * s, hash, cv.n) && Cong(u2 * s, r, cv.n)
    requires Cong(s * k, hash + r * d, cv.n) || Cong(s * k, -(hash + r * d), cv.n)
    ensures pt(u1 + u2 * d) == pt(k) || pt(u1 + u2 * d) == cv.Negate(pt(k))
  {
    hide Multiples, Curve.Negate;
    MultiplesSound(cv, pt);
    var n, u := cv.n, u1 + u2 * d;
    CongMul(u2 * s, r, d, d, n);
    CongAdd(u1 * s, hash, u2 * s * d, r * d, n);
    Factor(u1, u2 * d, s);
    Swap(u2, s, d);
    assert Cong(u * s, hash + r * d, n);
    if Cong(s * k, hash + r * d, n) {
      assert s * k == k * s;
      CancelFactor(u, k, s, n);
      MultipleCong(cv, pt, u, k);
    } else {
      CongSub(0, 0, s * k, -(hash + r * d), n);
      assert -(s * k) == (-k) * s;
      CancelFactor(u, -k, s, n);
      MultipleCong(cv, pt, u, -k);
      MultipleNegate(cv, pt, k);
    }
  }

  /** Sign with the key d and verify with its public key, for a digest that is not zero modulo n.  Verification accepts
      exactly if r and s are not zero modulo n; the signature is one of FIPS 186-5 exactly if moreover r is below n. */
  method SignThenVerify(cv: Curve, g: (int, int), d: int, hash: int, k: int, ghost pt: int -> Point)
    returns (r: int, s: int, ok: bool)
    requires Multiples(cv, pt) && pt(1) == Affine(g.0, g.1)
    requires d % cv.n != 0 && k % cv.n != 0 && hash % cv.n != 0
    ensures pt(k).Affine? && r == pt(k).x && 0 <= s && 2 * s < cv.n
    ensures ok <==> r % cv.n != 0 && s != 0
    ensures cv.n >= 2 && (Ecdsa.Verifies(cv, pt, d, hash, r, s) <==> 1 <= r < cv.n && s != 0)
  {
    hide Multiples, Ecdsa.Verifies;
    MultiplesSound(cv, pt);
    IsAffine(cv, pt, d);
    IsAffine(cv, pt, k);
    assert 1 * d == d;
    r, s := Sign(cv, g, d, hash, k, pt);
    SmallMod(s, cv.n);
    ghost var u1, u2 := 0, 0;
    if s != 0 {
      u1, u2 := ScalarsFor(cv.n, hash, r, s);
      BackToNonce(cv, pt, d, k, hash, r, s, u1, u2);
      Ecdsa.VerifiesMeans(cv, pt, d, hash, r, s, u1, u2);
    }
    FipsRange(cv, pt, d, hash, r, s);
    if 0 <= r < cv.n {
      SmallMod(r, cv.n);
    }
    var x, y := Multiple(cv, g.0, g.1, d, pt, 1);
    ok := Verify(cv, g, (x, y), hash, r, s, pt, d, u1, u2);
  }

  lemma FipsRange(cv: Curve, pt: int -> Point, d: int, hash: int, r: int, s: int)
    requires cv.n >= 2
    ensures Ecdsa.Verifies(cv, pt, d, hash, r, s) ==> 1 <= r < cv.n && s != 0
  {
  }

  lemma ScalarsFor(n: nat, hash: int, r: int, s: int) returns (u1: int, u2: int)
    requires IsPrime(n) && s % n != 0
    ensures Cong(u1 * s, hash, n) && Cong(u2 * s, r, n)
  {
    var w := InverseExists(s, n);
    u1, u2 := hash * w, r * w;
    Associate(hash, w, s);
    Associate(r, w, s);
    CongMul(hash, hash, w * s, 1, n);
    CongMul(r, r, w * s, 1, n);
  }
}
