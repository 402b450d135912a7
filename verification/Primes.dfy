/** Primes: Bezout coefficients, Euclid's lemma, Fermat's little theorem and inverses by powering. */
module Primes {
  import opened ModArith

  predicate Divides(d: int, n: int)
    requires d > 0
  {
    n % d == 0
  }

  ghost predicate IsPrime(p: int) {
    p >= 2 && forall d :: 2 <= d < p ==> !Divides(d, p)
  }

  /** The greatest common divisor as an integer combination of its arguments. */
  lemma Bezout(a: nat, b: nat) returns (s: int, t: int, g: int)
    requires a > 0 || b > 0
    ensures g > 0 && Divides(g, a) && Divides(g, b)
    ensures s * a + t * b == g
    decreases b
  {
    if b == 0 {
      s, t, g := 1, 0, a;
      MultipleMod(1, a);
      MultipleMod(0, a);
    } else {
      var s', t', g' := Bezout(b, a % b);
      s, t, g := t', s' - t' * (a / b), g';
      var q := a / b;
      assert a == q * b + a % b;
      CongMul(q, q, b, 0, g);
      MultipleMod(q, g);
      CongAdd(q * b, 0, a % b, 0, g);
      calc {
        s * a + t * b;
        t' * a + (s' - t' * q) * b;
        t' * a + s' * b - (t' * q) * b;
        { assert (t' * q) * b == t' * (q * b); }
        t' * a + s' * b - t' * (q * b);
        { assert t' * a - t' * (q * b) == t' * (a - q * b); }
        s' * b + t' * (a % b);
      }
    }
  }

  /** Every residue that is nonzero modulo a prime has an inverse. */
  lemma InverseExists(a: int, p: int) returns (s: int)
    requires IsPrime(p) && a % p != 0
    ensures Cong(s * a, 1, p)
  {
    var r := a % p;
    var s', t, g := Bezout(r, p);
    assert g == 1 by {
      assert g <= r by {
        if g > r { SmallMod(r, g); }
      }
      assert !(2 <= g < p);
    }
    s := s';
    AddMultiple(s * r, t, p);
    CongMod(a, p);
    CongMul(s, s, a, r, p);
  }

  /** Euclid's lemma. */
  lemma PrimeDividesProduct(a: int, b: int, p: int)
    requires IsPrime(p) && (a * b) % p == 0
    ensures a % p == 0 || b % p == 0
  {
    if a % p != 0 {
      var s := InverseExists(a, p);
      SmallMod(0, p);
      CongMul(s, s, a * b, 0, p);
      CongMul(s * a, 1, b, b, p);
      assert s * (a * b) == (s * a) * b;
    }
  }

  /** A factor that is nonzero modulo p can be cancelled. */
  lemma CancelFactor(a: int, b: int, c: int, p: int)
    requires IsPrime(p) && c % p != 0 && Cong(a * c, b * c, p)
    ensures Cong(a, b, p)
  {
    CongIffDiff(a * c, b * c, p);
    assert a * c - b * c == (a - b) * c;
    PrimeDividesProduct(a - b, c, p);
    CongIffDiff(a, b, p);
  }

  lemma {:induction false} PowNonzero(a: int, e: nat, p: int)
    requires IsPrime(p) && a % p != 0
    ensures Pow(a, e) % p != 0
  {
    if e == 0 {
      SmallMod(1, p);
    } else {
      PowNonzero(a, e - 1, p);
      if Pow(a, e) % p == 0 {
        PrimeDividesProduct(a, Pow(a, e - 1), p);
      }
    }
  }

  // ---- Fermat's little theorem, by the binomial expansion of (a + 1)^p ----

  /** Pascal's triangle. */
  ghost function Binomial(n: nat, k: nat): nat {
    if k == 0 then 1
    else if n == 0 then 0
    else Binomial(n - 1, k) + Binomial(n - 1, k - 1)
  }

  lemma {:induction false} BinomialBeyond(n: nat, k: nat)
    requires k > n
    ensures Binomial(n, k) == 0
  {
    if n > 0 {
      BinomialBeyond(n - 1, k);
      BinomialBeyond(n - 1, k - 1);
    }
  }

  lemma {:induction false} BinomialDiagonal(n: nat)
    ensures Binomial(n, n) == 1
  {
    if n > 0 {
      BinomialDiagonal(n - 1);
      BinomialBeyond(n - 1, n);
    }
  }

  lemma {:induction false} BinomialAbsorb(n: nat, k: nat)
    requires n > 0 && k > 0
    ensures k * Binomial(n, k) == n * Binomial(n - 1, k - 1)
    decreases n
  {
    var x, y := Binomial(n - 1, k), Binomial(n - 1, k - 1);
    if n == 1 {
      BinomialBeyond(0, k);
      assert x == 0;
    } else if k == 1 {
      BinomialAbsorb(n - 1, 1);
      assert y == 1;
    } else {
      BinomialAbsorb(n - 1, k);
      BinomialAbsorb(n - 1, k - 1);
      AbsorbSum(n, k, x, y, Binomial(n - 2, k - 1), Binomial(n - 2, k - 2));
    }
  }

  lemma AbsorbSum(n: int, k: int, x: int, y: int, u: int, v: int)
    requires y == u + v && k * x == (n - 1) * u && (k - 1) * y == (n - 1) * v
    ensures k * (x + y) == n * y
  {
    calc {
      k * (x + y);
      k * x + ((k - 1) * y + y);
      (n - 1) * (u + v) + y;
    }
  }

  /** The first k + 1 terms of the binomial expansion of (a + 1)^n. */
  ghost function Expansion(a: int, n: nat, k: nat): int {
    Binomial(n, k) * Pow(a, k) + if k == 0 then 0 else Expansion(a, n, k - 1)
  }

  lemma {:induction false} ExpansionStep(a: int, n: nat, k: nat)
    requires n > 0
    ensures Expansion(a, n, k) == Expansion(a, n - 1, k) + if k == 0 then 0 else a * Expansion(a, n - 1, k - 1)
  {
    if k > 0 {
      ExpansionStep(a, n, k - 1);
      var e := if k == 1 then 0 else Expansion(a, n - 1, k - 2);
      assert Expansion(a, n - 1, k - 1) == Binomial(n - 1, k - 1) * Pow(a, k - 1) + e;
      SplitTerm(a, Pow(a, k - 1), Binomial(n - 1, k), Binomial(n - 1, k - 1), e);
    }
  }

  lemma SplitTerm(a: int, w: int, x: int, y: int, e: int)
    ensures (x + y) * (a * w) + a * e == x * (a * w) + a * (y * w + e)
  {
    assert y * (a * w) == a * (y * w);
  }

  lemma {:induction false} ExpansionIsPower(a: int, n: nat)
    ensures Expansion(a, n, n) == Pow(a + 1, n)
  {
    if n > 0 {
      ExpansionIsPower(a, n - 1);
      ExpansionStep(a, n, n);
      BinomialBeyond(n - 1, n);
      ZeroTimes(0, Pow(a, n));
      OneMore(a, Pow(a + 1, n - 1));
    }
  }

  lemma OneMore(a: int, e: int)
    ensures e + a * e == (a + 1) * e
  {
  }

  /** Modulo a prime every inner term of the expansion vanishes. */
  lemma {:induction false} ExpansionInner(a: int, p: nat, k: nat)
    requires IsPrime(p) && k < p
    ensures Cong(Expansion(a, p, k), 1, p)
  {
    if k == 0 {
      assert Expansion(a, p, 0) == 1 * 1;
    } else {
      ExpansionInner(a, p, k - 1);
      BinomialAbsorb(p, k);
      MultipleMod(Binomial(p - 1, k - 1), p);
      SmallMod(k, p);
      PrimeDividesProduct(k, Binomial(p, k), p);
      SmallMod(0, p);
      CongMul(Binomial(p, k), 0, Pow(a, k), Pow(a, k), p);
      CongAdd(Binomial(p, k) * Pow(a, k), 0, Expansion(a, p, k - 1), 1, p);
    }
  }

  lemma {:induction false} FermatNat(a: nat, p: nat)
    requires IsPrime(p)
    ensures Cong(Pow(a, p), a, p)
    decreases a
  {
    if a == 0 {
      PowZero(p);
    } else {
      FermatNat(a - 1, p);
      ExpansionIsPower(a - 1, p);
      ExpansionInner(a - 1, p, p - 1);
      BinomialDiagonal(p);
      assert Pow(a, p) == 1 * Pow(a - 1, p) + Expansion(a - 1, p, p - 1);
      CongAdd(Pow(a - 1, p), a - 1, Expansion(a - 1, p, p - 1), 1, p);
    }
  }

  /** Fermat's little theorem. */
  lemma Fermat(a: int, p: nat)
    requires IsPrime(p) && a % p != 0
    ensures Cong(Pow(a, p - 1), 1, p)
  {
    var r := a % p;
    CongMod(a, p);
    FermatNat(r, p);
    PowCong(a, r, p, p);
    assert Pow(a, p) == Pow(a, p - 1) * a;
    CancelFactor(Pow(a, p - 1), 1, a, p);
  }

  /** The inverse modulo p by Fermat's little theorem: the power p - 2. Zero is sent to zero when p > 2. */
  function Inv(a: int, p: nat): (r: nat)
    requires p >= 2
    ensures r < p
  {
    Pow(a, p - 2) % p
  }

  lemma InvCorrect(a: int, p: nat)
    requires IsPrime(p) && a % p != 0
    ensures Cong(Inv(a, p) * a, 1, p)
    ensures Inv(a, p) % p != 0
  {
    Fermat(a, p);
    CongMod(Pow(a, p - 2), p);
    CongMul(Inv(a, p), Pow(a, p - 2), a, a, p);
    assert Pow(a, p - 1) == Pow(a, p - 2) * a;
    PowNonzero(a, p - 2, p);
  }

  lemma InvZero(a: int, p: nat)
    requires p > 2 && a % p == 0
    ensures Inv(a, p) == 0
  {
    SmallMod(0, p);
    PowCong(a, 0, p - 2, p);
    PowZero(p - 2);
  }

  /** Any number that multiplies a to 1 is congruent to the inverse. */
  lemma InvUnique(a: int, b: int, p: nat)
    requires IsPrime(p) && Cong(b * a, 1, p)
    ensures a % p != 0 && Cong(b, Inv(a, p), p)
  {
    if a % p == 0 {
      SmallMod(0, p);
      SmallMod(1, p);
      CongMul(b, b, a, 0, p);
    } else {
      InvCorrect(a, p);
      CancelFactor(b, Inv(a, p), a, p);
    }
  }
}
