/** sb_sw_lib.c: the regularized scalar of the Montgomery ladder and why the ladder never adds
    exceptional points. */
module Scalars {
  import opened ModArith
  import opened Primes

  /** An order n of exactly bits bits; the number of bits is even, as SB_FE_BITS = 256 is. */
  ghost predicate IsOrder(n: nat, bits: nat) {
    IsPrime(n) && n > 3 && bits > 2 && bits % 2 == 0 && Pow2(bits - 1) < n < Pow2(bits)
  }

  /** The (bits + 1)-bit number congruent to k: the scalar plus n, or plus 2 n if that does not overflow. */
  function Regular(k: nat, n: nat, radix: nat): nat {
    if k + n >= radix then k + n else k + 2 * n
  }

  lemma RegularTopBit(k: nat, n: nat, bits: nat)
    requires IsOrder(n, bits) && k < n
    ensures Pow2(bits) <= Regular(k, n, Pow2(bits)) < 2 * Pow2(bits)
    ensures Prefix(Regular(k, n, Pow2(bits)), bits) == 1
    ensures Cong(Regular(k, n, Pow2(bits)), k, n)
  {
    var kk := Regular(k, n, Pow2(bits));
    DivModUnique(kk, 1, kk - Pow2(bits), Pow2(bits));
    AddMultiple(k, 1, n);
    AddMultiple(k, 2, n);
  }

  /** No prime of that many bits is next to the powers of two around it: those neighbours are multiples of 3. */
  lemma {:induction false} PowersModThree(i: nat)
    ensures Pow2(2 * i) % 3 == 1 && Pow2(2 * i + 1) % 3 == 2
  {
    if i > 0 {
      hide Pow2;
      PowersModThree(i - 1);
      Doubled(2 * i - 2);
      Doubled(2 * i - 1);
      Doubled(2 * i);
      TimesFour(Pow2(2 * i - 2));
    } else {
      assert Pow2(0) == 1 && Pow2(1) == 2;
    }
  }

  lemma Doubled(i: nat)
    ensures Pow2(i + 1) == 2 * Pow2(i)
  {
  }

  lemma TimesFour(x: nat)
    requires x % 3 == 1
    ensures 4 * x % 3 == 1 && 8 * x % 3 == 2
  {
    var q := x / 3;
    DivModUnique(4 * x, 4 * q + 1, 1, 3);
    DivModUnique(8 * x, 8 * q + 2, 2, 3);
  }

  lemma OrderGaps(n: nat, bits: nat)
    requires IsOrder(n, bits)
    ensures Pow2(bits - 1) + 1 < n < Pow2(bits) - 1 && n % 2 == 1
  {
    var half := bits / 2;
    PowersModThree(half);
    PowersModThree(half - 1);
    assert bits == 2 * half && bits - 1 == 2 * (half - 1) + 1;
    assert !Divides(3, n) && !Divides(2, n);
    NotNextToPowers(n, Pow2(bits - 1), Pow2(bits));
  }

  lemma NotNextToPowers(n: nat, low: nat, high: nat)
    requires low < n < high && low % 3 == 2 && high % 3 == 1 && n % 3 != 0
    ensures low + 1 < n < high - 1
  {
  }

  lemma {:induction false} PrefixAntitone(v: nat, i: nat, j: nat)
    requires i <= j
    ensures Prefix(v, j) <= Prefix(v, i)
    decreases j
  {
    if i < j {
      PrefixStep(v, j - 1);
      PrefixAntitone(v, i, j - 1);
    }
  }

  lemma LowPrefixes(v: nat)
    ensures Prefix(v, 1) == v / 2 && Prefix(v, 2) == v / 4 && Prefix(v, 3) == v / 8
  {
    assert Pow2(1) == 2 && Pow2(2) == 4 && Pow2(3) == 8;
  }

  /** The ladder step from prefix j adds points j and j + 1, and 2 j + 1 and 1: none of these is the
      point at infinity. */
  ghost predicate StepSafe(j: int, n: nat)
    requires n > 0
  {
    j % n != 0 && (j + 1) % n != 0 && (2 * j + 1) % n != 0
  }

  lemma NotMultiple(x: int, k: int, n: nat)
    requires k * n < x < (k + 1) * n
    ensures x % n != 0
  {
    assert (k + 1) * n == k * n + n;
    DivModUnique(x, k, x - k * n, n);
  }

  /** Away from the lowest two bits every step is safe, for every reduced nonzero scalar. */
  lemma StepSafeHigh(k: nat, n: nat, bits: nat, i: nat)
    requires IsOrder(n, bits) && 1 <= k < n && 2 <= i < bits
    ensures StepSafe(Prefix(Regular(k, n, Pow2(bits)), i + 1), n)
  {
    hide Pow2, Prefix, IsPrime;
    var kk := Regular(k, n, Pow2(bits));
    var j := Prefix(kk, i + 1);
    RegularTopBit(k, n, bits);
    TopPower(bits);
    PrefixAntitone(kk, i + 1, bits);
    PrefixAntitone(kk, 3, i + 1);
    LowPrefixes(kk);
    NotMultiple(j, 0, n);
    NotMultiple(j + 1, 0, n);
    NotMultiple(2 * j + 1, 0, n);
  }

  /** The ladder is complete: for every conditionally negated scalar other than 1, every step is safe. */
  lemma LadderSafe(k: nat, n: nat, bits: nat, i: nat)
    requires IsOrder(n, bits) && 2 <= k < Pow2(bits - 1) && i < bits
    ensures StepSafe(Prefix(Regular(k, n, Pow2(bits)), i + 1), n)
  {
    hide Pow2, Prefix, IsPrime;
    var kk := Regular(k, n, Pow2(bits));
    RegularTopBit(k, n, bits);
    LowPrefixes(kk);
    OrderGaps(n, bits);
    TopPower(bits);
    if i >= 2 {
      StepSafeHigh(k, n, bits, i);
    } else if i == 1 {
      LadderSafeNext(kk / 4, kk, k, n, Pow2(bits));
    } else {
      LadderSafeLast(kk / 2, kk, k, n, Pow2(bits));
    }
  }

  lemma TopPower(bits: nat)
    requires bits > 0
    ensures Pow2(bits) == 2 * Pow2(bits - 1)
  {
  }

  /** The step for bit 1. */
  lemma LadderSafeNext(j: nat, kk: nat, k: nat, n: nat, radix: nat)
    requires j == kk / 4 && kk == Regular(k, n, radix) && 3 < n < radix <= kk < 2 * radix
    requires 2 <= k && 2 * k + 2 <= radix <= 2 * n - 4
    ensures StepSafe(j, n)
  {
    Between(j, n);
    Between(j + 1, n);
    Between(2 * j + 1, n);
  }

  /** And for bit 0. */
  lemma LadderSafeLast(j: nat, kk: nat, k: nat, n: nat, radix: nat)
    requires j == kk / 2 && kk == Regular(k, n, radix) && 3 < n < radix - 1 && radix <= kk < 2 * radix
    requires 2 <= k && 2 * k + 2 <= radix <= 2 * n - 4
    ensures StepSafe(j, n)
  {
    Between(j, n);
    Between(j + 1, n);
    Between(2 * j + 1, n);
  }

  lemma Between(x: int, n: nat)
    requires 0 < x < n || n < x < 2 * n || 2 * n < x < 3 * n
    ensures x % n != 0
  {
    NotMultiple(x, if x < n then 0 else if x < 2 * n then 1 else 2, n);
  }

  /** The scalar 1 becomes 2 n + 1.  The step for bit 1 adds the opposite points (n - 1) / 2 and (n + 1) / 2. */
  lemma LadderOfOne(n: nat, bits: nat)
    requires IsOrder(n, bits)
    ensures var kk := Regular(1, n, Pow2(bits));
            kk == 2 * n + 1 && Bit(kk, 0) == 1 && Bit(kk, 1) == 1 && 2 * Prefix(kk, 2) + 1 == n
  {
    OrderGaps(n, bits);
    LowPrefixes(2 * n + 1);
    assert Pow2(0) == 1;
  }

  /** After negation of scalars with the top bit set, the scalar has a clear top bit. */
  lemma TopBit(k: nat, bits: nat)
    requires bits > 0 && k < Pow2(bits)
    ensures Bit(k, bits - 1) == if k >= Pow2(bits - 1) then 1 else 0
  {
    var h := Pow2(bits - 1);
    if k >= h {
      DivModUnique(k, 1, k - h, h);
    } else {
      DivModUnique(k, 0, k, h);
    }
  }

  /** A bit below the top is a bit of the number without the top bit. */
  lemma BitWithoutTop(v: nat, bits: nat, i: nat)
    requires i < bits
    ensures Bit(v + Pow2(bits), i) == Bit(v, i)
  {
    Pow2Add(bits - i - 1, i + 1);
    EvenQuotient(v, 1, Pow2(bits - i - 1), Pow2(i));
    assert Pow2(bits - i - 1) * (2 * Pow2(i)) == Pow2(bits);
  }
}
