/** Congruences, powers and binary prefixes of integers: the arithmetic every other module uses. */
module ModArith {

  /** a and b have the same residue modulo m. */
  predicate Cong(a: int, b: int, m: int)
    requires m > 0
  {
    a % m == b % m
  }

  lemma MulMonotone(a: int, b: int, c: int)
    requires a <= b && 0 <= c
    ensures a * c <= b * c
  {
  }

  lemma ZeroTimes(a: int, b: int)
    requires a == 0
    ensures a * b == 0 && b * a == 0
  {
  }

  lemma DivModUnique(a: int, q: int, r: int, m: int)
    requires 0 <= r < m && a == q * m + r
    ensures a / m == q && a % m == r
  {
    var k := q - a / m;
    assert k * m == a % m - r;
    if k >= 1 {
      MulMonotone(1, k, m);
    } else if k <= -1 {
      MulMonotone(k, -1, m);
    }
  }

  lemma AddMultiple(a: int, k: int, m: int)
    requires m > 0
    ensures (a + k * m) % m == a % m
  {
    var q := a / m;
    assert a + k * m == (q + k) * m + a % m;
    DivModUnique(a + k * m, q + k, a % m, m);
  }

  lemma MultipleMod(k: int, m: int)
    requires m > 0
    ensures (k * m) % m == 0 && (m * k) % m == 0
  {
    AddMultiple(0, k, m);
  }

  /** Congruent numbers differ by a multiple of the modulus. */
  lemma CongDiff(a: int, b: int, m: int) returns (k: int)
    requires m > 0 && Cong(a, b, m)
    ensures a == b + k * m
  {
    k := a / m - b / m;
    assert a == (a / m) * m + a % m;
    assert b == (b / m) * m + b % m;
  }

  lemma CongAdd(a: int, a': int, b: int, b': int, m: int)
    requires m > 0 && Cong(a, a', m) && Cong(b, b', m)
    ensures Cong(a + b, a' + b', m)
  {
    var k := CongDiff(a, a', m);
    var l := CongDiff(b, b', m);
    assert a + b == a' + b' + (k + l) * m;
    AddMultiple(a' + b', k + l, m);
  }

  lemma CongSub(a: int, a': int, b: int, b': int, m: int)
    requires m > 0 && Cong(a, a', m) && Cong(b, b', m)
    ensures Cong(a - b, a' - b', m)
  {
    var k := CongDiff(a, a', m);
    var l := CongDiff(b, b', m);
    assert a - b == a' - b' + (k - l) * m;
    AddMultiple(a' - b', k - l, m);
  }

  lemma CongMul(a: int, a': int, b: int, b': int, m: int)
    requires m > 0 && Cong(a, a', m) && Cong(b, b', m)
    ensures Cong(a * b, a' * b', m)
  {
    var k := CongDiff(a, a', m);
    var l := CongDiff(b, b', m);
    var c := k * b' + a' * l + k * l * m;
    ExpandProduct(a', b', k * m, l * m);
    FactorOut(a', b', k, l, m);
    AddMultiple(a' * b', c, m);
  }

  lemma ExpandProduct(a: int, b: int, u: int, v: int)
    ensures (a + u) * (b + v) == a * b + (u * b + a * v + u * v)
  {
    assert (a + u) * (b + v) == a * (b + v) + u * (b + v);
  }

  lemma FactorOut(a: int, b: int, k: int, l: int, m: int)
    ensures k * m * b + a * (l * m) + k * m * (l * m) == (k * b + a * l + k * l * m) * m
  {
    Swap(k, m, b);
    Associate(a, l, m);
    Swap(k, m, l * m);
    Associate(k, l, m);
    assert (k * b + a * l + k * l * m) * m == k * b * m + a * l * m + k * l * m * m;
  }

  lemma Factor(a: int, b: int, w: int)
    ensures a * w + b * w == (a + b) * w
    ensures b * w - a * w == (b - a) * w
  {
  }

  lemma QuotientBelow(x: int, k: int, b: int)
    requires k > 0 && x < b * k
    ensures x / k < b
  {
    var q := x / k;
    assert x == q * k + x % k;
    if q >= b {
      MulMonotone(b, q, k);
    }
  }

  lemma Associate(a: int, b: int, c: int)
    ensures a * (b * c) == a * b * c
  {
  }

  lemma Swap(a: int, b: int, c: int)
    ensures a * b * c == a * c * b
  {
  }

  lemma CongMod(a: int, m: int)
    requires m > 0
    ensures Cong(a % m, a, m)
  {
    AddMultiple(a % m, a / m, m);
    assert a == a % m + (a / m) * m;
  }

  lemma SmallMod(a: int, m: int)
    requires 0 <= a < m
    ensures a % m == a
  {
    DivModUnique(a, 0, a, m);
  }

  /** A residue is zero exactly when its negation is. */
  lemma CongNeg(a: int, m: int)
    requires m > 0
    ensures (-a) % m == 0 <==> a % m == 0
  {
    if a % m == 0 {
      CongSub(0, 0, a, 0, m);
    }
    if (-a) % m == 0 {
      CongSub(0, 0, -a, 0, m);
    }
  }

  /** Two numbers are congruent exactly when the modulus divides their difference. */
  lemma CongIffDiff(a: int, b: int, m: int)
    requires m > 0
    ensures Cong(a, b, m) <==> (a - b) % m == 0
  {
    if Cong(a, b, m) {
      CongSub(a, b, b, b, m);
      SmallMod(0, m);
    }
    if (a - b) % m == 0 {
      SmallMod(0, m);
      CongAdd(a - b, 0, b, b, m);
    }
  }

  // ---- powers ----

  function Pow(b: int, e: nat): int {
    if e == 0 then 1 else b * Pow(b, e - 1)
  }

  lemma PowNext(b: int, e: nat)
    ensures Pow(b, e + 1) == b * Pow(b, e)
  {
  }

  lemma {:induction false} PowAdd(b: int, e: nat, f: nat)
    ensures Pow(b, e + f) == Pow(b, e) * Pow(b, f)
  {
    if e > 0 {
      PowAdd(b, e - 1, f);
      calc {
        Pow(b, e + f);
        b * (Pow(b, e - 1) * Pow(b, f));
        (b * Pow(b, e - 1)) * Pow(b, f);
      }
    }
  }

  lemma {:induction false} PowMul(b: int, e: nat, f: nat)
    ensures 0 <= e * f
    ensures Pow(Pow(b, e), f) == Pow(b, e * f)
    decreases f
  {
    if f > 0 {
      PowMul(b, e, f - 1);
      assert e * f == e + e * (f - 1);
      PowAdd(b, e, e * (f - 1));
    } else {
      assert e * f == 0;
    }
  }

  lemma {:induction false} PowProduct(a: int, b: int, e: nat)
    ensures Pow(a * b, e) == Pow(a, e) * Pow(b, e)
  {
    if e > 0 {
      PowProduct(a, b, e - 1);
      calc {
        Pow(a * b, e);
        (a * b) * (Pow(a, e - 1) * Pow(b, e - 1));
        (a * Pow(a, e - 1)) * (b * Pow(b, e - 1));
      }
    }
  }

  lemma {:induction false} PowPositive(b: int, e: nat)
    requires b > 0
    ensures Pow(b, e) > 0
  {
    if e > 0 {
      PowPositive(b, e - 1);
    }
  }

  lemma {:induction false} PowCong(a: int, b: int, e: nat, m: int)
    requires m > 0 && Cong(a, b, m)
    ensures Cong(Pow(a, e), Pow(b, e), m)
  {
    if e > 0 {
      PowCong(a, b, e - 1, m);
      CongMul(a, b, Pow(a, e - 1), Pow(b, e - 1), m);
    }
  }

  lemma {:induction false} PowOne(e: nat)
    ensures Pow(1, e) == 1
  {
    if e > 0 {
      PowOne(e - 1);
    }
  }

  lemma {:induction false} PowZero(e: nat)
    requires e > 0
    ensures Pow(0, e) == 0
  {
  }

  // ---- powers of two and binary prefixes ----

  function Pow2(e: nat): (r: nat)
    ensures r >= 1
  {
    if e == 0 then 1 else 2 * Pow2(e - 1)
  }

  lemma {:induction false} Pow2IsPow(e: nat)
    ensures Pow2(e) == Pow(2, e)
  {
    if e > 0 {
      Pow2IsPow(e - 1);
    }
  }

  lemma {:induction false} Pow2Add(e: nat, f: nat)
    ensures Pow2(e + f) == Pow2(e) * Pow2(f)
  {
    if e > 0 {
      Pow2Add(e - 1, f);
      assert Pow2(e + f) == 2 * (Pow2(e - 1) * Pow2(f)) == (2 * Pow2(e - 1)) * Pow2(f);
    }
  }

  lemma {:induction false} Pow2Monotone(e: nat, f: nat)
    requires e <= f
    ensures Pow2(e) <= Pow2(f)
  {
    if e < f {
      Pow2Monotone(e, f - 1);
    }
  }

  /** The bits of v from position i upwards: the number written v[..i] in the ladder's comments. */
  function Prefix(v: nat, i: nat): nat {
    QuotientNonnegative(v, Pow2(i));
    v / Pow2(i)
  }

  lemma QuotientNonnegative(v: int, d: int)
    requires v >= 0 && d > 0
    ensures v / d >= 0
  {
    if v / d < 0 {
      MulMonotone(v / d, -1, d);
    }
  }

  function Bit(v: nat, i: nat): (b: nat)
    ensures b <= 1
  {
    Prefix(v, i) % 2
  }

  lemma DivDiv(v: nat, a: int, b: int)
    requires a > 0 && b > 0
    ensures a * b > 0
    ensures v / (a * b) == (v / a) / b
  {
    var q, r := v / a, v % a;
    MulMonotone(1, a, b);
    SplitQuotient(v, q, r, q / b, q % b, a, b);
    DivModUnique(v, q / b, (q % b) * a + r, a * b);
  }

  lemma SplitQuotient(v: int, q: int, r: int, q2: int, r2: int, a: int, b: int)
    requires v == q * a + r && q == q2 * b + r2 && 0 <= r < a && 0 <= r2 < b
    ensures v == q2 * (a * b) + (r2 * a + r) && 0 <= r2 * a + r < a * b
  {
    MulMonotone(0, r2, a);
    MulMonotone(r2, b - 1, a);
    assert (b - 1) * a == a * b - a;
    assert (q2 * b + r2) * a == q2 * (a * b) + r2 * a;
  }

  /** Extending a prefix by the next lower bit doubles it and adds the bit. */
  lemma PrefixStep(v: nat, i: nat)
    ensures Prefix(v, i) == 2 * Prefix(v, i + 1) + Bit(v, i)
  {
    DivDiv(v, Pow2(i), 2);
    assert Pow2(i + 1) == Pow2(i) * 2;
  }

  lemma PrefixZero(v: nat)
    ensures Prefix(v, 0) == v
  {
  }

  lemma PrefixTop(v: nat, i: nat)
    requires v < Pow2(i)
    ensures Prefix(v, i) == 0
  {
    DivModUnique(v, 0, v, Pow2(i));
  }

  /** Adding an even multiple does not change the parity of a quotient. */
  lemma EvenQuotient(x: nat, hi: nat, c: nat, u: nat)
    requires u > 0
    ensures ((x + hi * (c * (2 * u))) / u) % 2 == (x / u) % 2
  {
    var q, r := x / u, x % u;
    var k := hi * c;
    assert hi * (c * (2 * u)) == (2 * k) * u;
    assert x + (2 * k) * u == (q + 2 * k) * u + r;
    DivModUnique(x + (2 * k) * u, q + 2 * k, r, u);
    AddMultiple(q, k, 2);
  }
}
