/** Short Weierstrass curves y^2 = x^3 + a*x + b: the affine chord-and-tangent law, and what follows
    for the multiples of a point of prime order. */
module Curve {
  import opened ModArith
  import opened Primes

  datatype Point = Infinity | Affine(x: int, y: int)

  datatype Curve = Curve(p: nat, a: int, b: int, n: nat) {
    ghost predicate Sound() {
      IsPrime(p) && IsPrime(n) && p > 3 && n > 3
    }

    /** Coordinates are full residues. */
    predicate OnCurve(q: Point)
      requires p > 0
    {
      q.Affine? ==> 0 <= q.x < p && 0 <= q.y < p && Cong(q.y * q.y, q.x * q.x * q.x + a * q.x + b, p)
    }

    function Negate(q: Point): Point
      requires p > 0
    {
      if q.Infinity? then Infinity else Affine(q.x, (-q.y) % p)
    }

    /** Numerator and denominator of the slope of the chord, or of the tangent. */
    function SlopeNum(q: Point, r: Point): int
      requires q.Affine? && r.Affine?
    {
      if q.x == r.x then 3 * q.x * q.x + a else r.y - q.y
    }

    function SlopeDen(q: Point, r: Point): int
      requires q.Affine? && r.Affine?
    {
      if q.x == r.x then 2 * q.y else r.x - q.x
    }

    /** The group law. */
    function Add(q: Point, r: Point): Point
      requires p >= 2
    {
      if q.Infinity? then r
      else if r.Infinity? then q
      else if q.x == r.x && (q.y + r.y) % p == 0 then Infinity
      else
        var slope := SlopeNum(q, r) * Inv(SlopeDen(q, r), p);
        var x := (slope * slope - q.x - r.x) % p;
        Affine(x, (slope * (q.x - x) - q.y) % p)
    }
  }

  /** An affine point whose coordinates are full residues, on the curve or not. */
  ghost predicate Residues(p: nat, q: Point) {
    q.Affine? && 0 <= q.x < p && 0 <= q.y < p
  }

  /** s is the third point of the line with slope num / den through q and a point with x coordinate rx,
      mirrored; without divisions. */
  ghost predicate OnLine(p: nat, q: Point, rx: int, s: Point, num: int, den: int)
    requires p > 0
  {
    && q.Affine? && s.Affine?
    && Cong((s.x + (q.x + rx)) * (den * den), num * num, p)
    && Cong((s.y + q.y) * den, num * (q.x - s.x), p)
  }

  /** s = q + r along a chord. */
  ghost predicate Chord(p: nat, q: Point, r: Point, s: Point)
    requires p > 0
  {
    q.Affine? && r.Affine? && OnLine(p, q, r.x, s, r.y - q.y, r.x - q.x)
  }

  /** s = 2 q along a tangent. */
  ghost predicate Tangent(cv: Curve, q: Point, s: Point)
    requires cv.p > 0
  {
    q.Affine? && OnLine(cv.p, q, q.x, s, 3 * q.x * q.x + cv.a, 2 * q.y)
  }

  lemma LineThroughSlope(p: nat, q: Point, rx: int, s: Point, num: int, den: int)
    requires IsPrime(p) && den % p != 0 && q.Affine? && s.Affine?
    requires var slope := num * Inv(den, p);
             s.x == (slope * slope - q.x - rx) % p && s.y == (slope * (q.x - s.x) - q.y) % p
    ensures OnLine(p, q, rx, s, num, den)
  {
    var slope := num * Inv(den, p);
    InvCorrect(den, p);
    CongMul(num, num, Inv(den, p) * den, 1, p);
    assert slope * den == num * (Inv(den, p) * den);
    CongMod(slope * slope - q.x - rx, p);
    SlopeSquared(p, slope, num, den, s.x, q.x + rx);
    CongMod(slope * (q.x - s.x) - q.y, p);
    SlopeTimes(p, slope, num, den, s.y, q.y, q.x - s.x);
  }

  lemma SlopeSquared(p: nat, slope: int, num: int, den: int, x: int, sum: int)
    requires p > 0 && Cong(slope * den, num, p) && Cong(x, slope * slope - sum, p)
    ensures Cong((x + sum) * (den * den), num * num, p)
  {
    CongAdd(x, slope * slope - sum, sum, sum, p);
    CongMul(x + sum, slope * slope, den * den, den * den, p);
    CongMul(slope * den, num, slope * den, num, p);
    assert (slope * slope) * (den * den) == (slope * den) * (slope * den);
  }

  lemma SlopeTimes(p: nat, slope: int, num: int, den: int, y: int, qy: int, d: int)
    requires p > 0 && Cong(slope * den, num, p) && Cong(y, slope * d - qy, p)
    ensures Cong((y + qy) * den, num * d, p)
  {
    CongAdd(y, slope * d - qy, qy, qy, p);
    CongMul(y + qy, slope * d, den, den, p);
    CongMul(slope * den, num, d, d, p);
    assert (slope * d) * den == (slope * den) * d;
  }

  lemma SmallDifference(a: int, b: int, p: nat)
    requires 0 <= a < p && 0 <= b < p
    ensures (b - a) % p == 0 <==> a == b
  {
    CongIffDiff(b, a, p);
    SmallMod(a, p);
    SmallMod(b, p);
  }

  lemma AddIsChord(cv: Curve, q: Point, r: Point)
    requires cv.Sound() && Residues(cv.p, q) && Residues(cv.p, r) && q.x != r.x
    ensures Chord(cv.p, q, r, cv.Add(q, r)) && (r.x - q.x) % cv.p != 0
  {
    SmallDifference(q.x, r.x, cv.p);
    LineThroughSlope(cv.p, q, r.x, cv.Add(q, r), r.y - q.y, r.x - q.x);
  }

  lemma AddIsTangent(cv: Curve, q: Point)
    requires cv.Sound() && q.Affine? && (2 * q.y) % cv.p != 0
    ensures Tangent(cv, q, cv.Add(q, q)) && Residues(cv.p, cv.Add(q, q))
  {
    LineThroughSlope(cv.p, q, q.x, cv.Add(q, q), 3 * q.x * q.x + cv.a, 2 * q.y);
  }

  // ---- the multiples of a point of prime order ----

  ghost predicate AddsAt(cv: Curve, pt: int -> Point, j: int, k: int)
    requires cv.p >= 2
  {
    pt(j + k) == cv.Add(pt(j), pt(k))
  }

  ghost predicate PointAt(cv: Curve, pt: int -> Point, k: int)
    requires cv.p > 0 && cv.n > 0
  {
    cv.OnCurve(pt(k)) && (pt(k).Infinity? <==> k % cv.n == 0)
  }

  /** pt(k) is k times the point pt(1), which has order n: the map from integers to points is a
      homomorphism for the chord-and-tangent law, and vanishes exactly on the multiples of n. */
  ghost predicate Multiples(cv: Curve, pt: int -> Point) {
    && cv.Sound()
    && (forall k :: PointAt(cv, pt, k))
    && (forall j, k :: AddsAt(cv, pt, j, k))
  }

  lemma MultiplesSound(cv: Curve, pt: int -> Point)
    requires Multiples(cv, pt)
    ensures cv.Sound()
  {
  }

  lemma IsAffine(cv: Curve, pt: int -> Point, k: int)
    requires Multiples(cv, pt)
    ensures cv.OnCurve(pt(k)) && (pt(k).Affine? <==> k % cv.n != 0)
  {
    assert PointAt(cv, pt, k);
  }

  lemma MultipleNegate(cv: Curve, pt: int -> Point, k: int)
    requires Multiples(cv, pt)
    ensures pt(-k) == cv.Negate(pt(k))
  {
    CongNeg(k, cv.n);
    assert PointAt(cv, pt, k) && PointAt(cv, pt, -k) && PointAt(cv, pt, k + (-k));
    if k % cv.n != 0 {
      assert AddsAt(cv, pt, k, -k);
      var q, r := pt(k), pt(-k);
      SmallMod(0, cv.n);
      assert q.x == r.x && (q.y + r.y) % cv.p == 0;
      CongIffDiff(r.y, -q.y, cv.p);
      SmallMod(r.y, cv.p);
    }
  }

  lemma MultipleCong(cv: Curve, pt: int -> Point, j: int, k: int)
    requires Multiples(cv, pt) && Cong(j, k, cv.n)
    ensures pt(j) == pt(k)
  {
    CongIffDiff(j, k, cv.n);
    assert PointAt(cv, pt, j - k);
    assert AddsAt(cv, pt, k, j - k);
    assert k + (j - k) == j;
  }

  /** Points of equal x coordinate are equal or opposite. */
  lemma SameX(cv: Curve, q: Point, r: Point)
    requires cv.Sound() && cv.OnCurve(q) && cv.OnCurve(r) && q.Affine? && r.Affine? && q.x == r.x
    ensures q == r || r == cv.Negate(q)
  {
    CongIffDiff(q.y * q.y, r.y * r.y, cv.p);
    assert q.y * q.y - r.y * r.y == (q.y - r.y) * (q.y + r.y);
    PrimeDividesProduct(q.y - r.y, q.y + r.y, cv.p);
    SmallDifference(r.y, q.y, cv.p);
    CongIffDiff(r.y, -q.y, cv.p);
    SmallMod(r.y, cv.p);
  }

  lemma MultipleInjective(cv: Curve, pt: int -> Point, j: int, k: int)
    requires Multiples(cv, pt) && pt(j) == pt(k)
    ensures Cong(j, k, cv.n)
  {
    MultipleNegate(cv, pt, k);
    assert PointAt(cv, pt, j + (-k)) && PointAt(cv, pt, k);
    assert AddsAt(cv, pt, j, -k);
    if pt(k).Affine? {
      CongMod(-pt(k).y, cv.p);
      CongAdd(pt(k).y, pt(k).y, (-pt(k).y) % cv.p, -pt(k).y, cv.p);
      SmallMod(0, cv.p);
    }
    assert j + (-k) == j - k;
    CongIffDiff(j, k, cv.n);
  }

  /** The sum of multiples that are neither equal nor opposite lies on their chord. */
  lemma MultipleSum(cv: Curve, pt: int -> Point, j: int, k: int)
    requires Multiples(cv, pt) && j % cv.n != 0 && k % cv.n != 0
    requires (j + k) % cv.n != 0 && (j - k) % cv.n != 0
    ensures Chord(cv.p, pt(j), pt(k), pt(j + k)) && (pt(k).x - pt(j).x) % cv.p != 0
  {
    assert PointAt(cv, pt, j) && PointAt(cv, pt, k) && PointAt(cv, pt, j + k);
    if pt(j).x == pt(k).x {
      SameX(cv, pt(k), pt(j));
      MultipleNegate(cv, pt, k);
      if pt(j) == pt(k) {
        MultipleInjective(cv, pt, j, k);
        CongIffDiff(j, k, cv.n);
      } else {
        MultipleInjective(cv, pt, j, -k);
        CongIffDiff(j, -k, cv.n);
      }
    }
    AddIsChord(cv, pt(j), pt(k));
    assert AddsAt(cv, pt, j, k);
  }

  /** No multiple is its own negative, as the order is odd. */
  lemma MultipleDouble(cv: Curve, pt: int -> Point, k: int)
    requires Multiples(cv, pt) && k % cv.n != 0
    ensures Tangent(cv, pt(k), pt(2 * k)) && (2 * pt(k).y) % cv.p != 0 && (2 * k) % cv.n != 0
    ensures pt(k).y % cv.p != 0
  {
    SmallMod(2, cv.n);
    if (2 * k) % cv.n == 0 {
      PrimeDividesProduct(2, k, cv.n);
    }
    assert PointAt(cv, pt, k) && PointAt(cv, pt, 2 * k);
    assert AddsAt(cv, pt, k, k);
    assert k + k == 2 * k && pt(k).y + pt(k).y == 2 * pt(k).y;
    AddIsTangent(cv, pt(k));
    if pt(k).y % cv.p == 0 {
      SmallMod(0, cv.p);
      CongAdd(pt(k).y, 0, pt(k).y, 0, cv.p);
    }
  }
}
