/** sb_fe.c: modular arithmetic on word arrays.  Every routine is proved against the function of
    QuasiField that says what it computes. */
module PrimeFields {
  import opened ModArith
  import opened Primes
  import opened QuasiField
  import opened Words

  // ---- the arithmetic of the routines, on numbers ----

  /** Subtracting the modulus from a number with a carry bit, when that number exceeds it. */
  lemma QrByCondSub(f: Field, v: nat, carry: nat)
    requires 2 <= f.m < f.radix && v < f.radix && carry <= 1
    requires 0 < v + carry * f.radix <= 2 * f.m
    ensures (if carry == 1 || f.m < v then (v - f.m) % f.radix else v) == f.Qr(v + carry * f.radix)
  {
    var t := v + carry * f.radix;
    if carry == 1 || f.m < v {
      DivModUnique(v - f.m, 0 - carry, t - f.m, f.radix);
      AddMultiple(t - f.m, 1, f.m);
      QrFixed(f, t - f.m);
    } else {
      QrFixed(f, t);
    }
  }

  /** Subtracting y + 1 and adding back 1, or the modulus and 1 after a borrow. */
  lemma ModSubByBorrow(f: Field, x: nat, y: nat, d: nat, b: nat)
    requires 2 <= f.m < f.radix && f.IsQr(x) && f.IsQr(y)
    requires b <= 1 && d < f.radix && d - b * f.radix == x - y - 1
    ensures (d + (if b == 1 then f.m else 0) + 1) % f.radix == f.ModSub(x, y)
  {
    if b == 1 {
      DivModUnique(d + f.m + 1, 1, x - y + f.m, f.radix);
      AddMultiple(x - y, 1, f.m);
      QrFixed(f, x - y + f.m);
    } else {
      SmallMod(d + 1, f.radix);
      QrFixed(f, x - y);
    }
  }

  /** Adding one, quasi-reducing and subtracting one again quasi-reduces without the zero value. */
  lemma ReduceByShift(f: Field, x: nat)
    requires f.m >= 2
    ensures f.ModSub(f.Qr(x + 1), 1) == f.Qr(x)
  {
    CongSub(f.Qr(x + 1), x + 1, 1, 1, f.m);
  }

  lemma FullByCondSub(f: Field, x: nat)
    requires 2 <= f.m < f.radix && f.IsQr(x)
    ensures (if x < f.m then x else (x - f.m) % f.radix) == x % f.m
  {
    if x < f.m {
      SmallMod(x, f.m);
    } else {
      SmallMod(0, f.radix);
      MultipleMod(1, f.m);
    }
  }

  /** Half of an even number by shifting, half of an odd one by negating, shifting and negating again. */
  lemma HalveByShift(f: Field, x: nat)
    requires f.m > 2 && f.m % 2 == 1 && f.IsQr(x)
    ensures (if x % 2 == 1 then f.m - (f.m - x) / 2 else x / 2) == f.ModHalve(x)
  {
    var c, k := (f.m + 1) / 2, x / 2;
    var h := if x % 2 == 1 then k + c else k;
    TimesHalf(k, c, f.m);
    assert x * c == h + k * f.m by {
      assert (2 * k + 1) * c == (2 * k) * c + c;
    }
    AddMultiple(h, k, f.m);
    QrFixed(f, h);
  }

  lemma LowBit(x: nat)
    ensures Bit(x, 0) == x % 2
  {
    assert Pow2(0) == 1;
  }

  lemma TimesHalf(k: int, c: int, m: int)
    requires 2 * c == m + 1
    ensures (2 * k) * c == k + k * m
  {
    assert (2 * k) * c == k * (2 * c);
  }

  /** sb_prime_field_t for words of w bits and n words, together with the constant SB_FE_ONE.
      m, f1 and f2 are the numbers held by p, pMinusTwoF1 and pMinusTwoF2. */
  datatype PrimeField = PrimeField(
    w: nat, n: nat, m: nat, f1: nat, f2: nat, pMp: nat, bits: nat,
    p: array<nat>, pMinusTwoF1: array<nat>, pMinusTwoF2: array<nat>,
    r2ModP: array<nat>, rModP: array<nat>, one: array<nat>)
  {
    function Base(): nat {
      Pow2(w)
    }

    ghost function R(): nat {
      Radix(Base(), n)
    }

    /** The modulus as a number. */
    ghost function F(): Field {
      if m < 2 then Field(m, R(), 0) else Field(m, R(), Inv(R(), m))
    }

    /** What sb_fe.h promises of the constants. */
    ghost predicate Sound() {
      && w > 1 && n > 0 && F().Valid()
      && (pMp * m + 1) % Base() == 0
      && f1 * f2 == m - 2
      && bits <= w * n && m + 1 < Pow2(bits) && f1 < Pow2(bits) && f2 < Pow2(bits)
    }

    ghost function Consts(): set<array<nat>> {
      {p, pMinusTwoF1, pMinusTwoF2, r2ModP, rModP, one}
    }

    /** The constants are in memory. */
    ghost predicate InMemory()
      reads Consts()
    {
      && IsFe(p) && IsFe(pMinusTwoF1) && IsFe(pMinusTwoF2) && IsFe(r2ModP) && IsFe(rModP) && IsFe(one)
      && V(p) == m && V(pMinusTwoF1) == f1 && V(pMinusTwoF2) == f2 && V(one) == 1
      && (m > 0 ==> V(r2ModP) == F().Qr(R() * R()) && V(rModP) == F().Qr(R()))
    }

    ghost predicate Valid()
      reads Consts()
    {
      Sound() && InMemory()
    }

    ghost function V(a: array<nat>): nat
      reads a
    {
      Val(a[..], Base())
    }

    /** A field element buffer of this field's size. */
    ghost predicate IsFe(a: array<nat>)
      reads a
    {
      Fe(a, Base(), n)
    }

    /** A buffer that may be written: not one of the constants. */
    ghost predicate IsBuffer(a: array<nat>)
      reads a
    {
      IsFe(a) && a !in Consts()
    }

    ghost predicate IsQrFe(a: array<nat>)
      reads a
    {
      IsFe(a) && F().IsQr(V(a))
    }

    lemma BaseBig()
      requires w > 1
      ensures Base() > 1 && Base() % 2 == 0
    {
      assert Pow2(w) == 2 * Pow2(w - 1);
    }

    // ---- quasi-reduction ----

    /** Subtract p iff the number with the extra carry bit is greater than p. */
    method Qr(dest: array<nat>, carry: nat)
      requires Valid() && IsBuffer(dest) && carry <= 1
      requires 0 < V(dest) + carry * R() <= 2 * m
      modifies dest
      ensures IsFe(dest) && V(dest) == F().Qr(old(V(dest)) + carry * R())
    {
      BaseBig();
      ValToBound(dest[..], Base(), n);
      QrByCondSub(F(), V(dest), carry);
      var b := Lt(p, dest, Base());
      CondSubP(dest, if carry == 1 || b == 1 then 1 else 0, p, Base());
    }

    /** dest := left - right, as (left - right - 1) plus 1 or p + 1. */
    method ModSub(dest: array<nat>, left: array<nat>, right: array<nat>)
      requires Valid() && IsBuffer(dest) && IsQrFe(left) && IsQrFe(right)
      modifies dest
      ensures IsFe(dest) && V(dest) == F().ModSub(old(V(left)), old(V(right)))
    {
      BaseBig();
      ghost var x, y := V(left), V(right);
      var b := SubBorrow(dest, left, right, 1, Base());
      ValToBound(dest[..], Base(), n);
      ModSubByBorrow(F(), x, y, V(dest), b);
      CondAddP1(dest, b, p, Base());
    }

    /** dest := p - left. */
    method ModNegate(dest: array<nat>, left: array<nat>)
      requires Valid() && IsBuffer(dest) && IsQrFe(left)
      modifies dest
      ensures IsFe(dest) && V(dest) == F().ModNegate(old(V(left)))
    {
      ModSub(dest, p, left);
    }

    method ModAdd(dest: array<nat>, left: array<nat>, right: array<nat>)
      requires Valid() && IsBuffer(dest) && IsQrFe(left) && IsQrFe(right)
      modifies dest
      ensures IsFe(dest) && V(dest) == F().ModAdd(old(V(left)), old(V(right)))
    {
      BaseBig();
      var carry := Add(dest, left, right, Base());
      Qr(dest, carry);
    }

    method ModDouble(dest: array<nat>, left: array<nat>)
      requires Valid() && IsBuffer(dest) && IsQrFe(left)
      modifies dest
      ensures IsFe(dest) && V(dest) == F().ModDouble(old(V(left)))
    {
      ModAdd(dest, left, left);
    }

    /** Quasi-reduce any number that fits the words; uses 2 * p >= the radix. */
    method ModReduce(dest: array<nat>)
      requires Valid() && IsBuffer(dest)
      modifies dest
      ensures IsFe(dest) && V(dest) == F().ModReduce(old(V(dest)))
    {
      BaseBig();
      ghost var x := V(dest);
      ValToBound(dest[..], Base(), n);
      var c := Add(dest, dest, one, Base());
      Qr(dest, c);
      ModSub(dest, dest, one);
      ReduceByShift(F(), x);
    }

    /** From [1, p] to [0, p - 1]. */
    method ModReduceFull(dest: array<nat>)
      requires Valid() && IsBuffer(dest) && IsQrFe(dest)
      modifies dest
      ensures IsFe(dest) && V(dest) == old(V(dest)) % m
    {
      BaseBig();
      FullByCondSub(F(), V(dest));
      var lt := Lt(dest, p, Base());
      CondSubP(dest, 1 - lt, p, Base());
    }

    /** temp := p - temp, without modular reduction. */
    method SubFromP(temp: array<nat>)
      requires Valid() && IsBuffer(temp) && V(temp) <= m
      modifies temp
      ensures IsFe(temp) && V(temp) == m - old(V(temp))
    {
      BaseBig();
      ghost var d: nat := m - V(temp);
      var borrow := SubBorrow(temp, p, temp, 0, Base());
      NoBorrow(temp, d, borrow);
    }

    /** dest := left / 2 modulo p; temp is scratch space. */
    method ModHalve(dest: array<nat>, left: array<nat>, temp: array<nat>)
      requires Valid() && IsBuffer(dest) && IsBuffer(temp) && dest != temp && IsQrFe(left)
      modifies dest, temp
      ensures IsFe(dest) && V(dest) == F().ModHalve(old(V(left)))
      ensures IsFe(temp)
    {
      hide Field.ModHalve, Field.Qr, Bit;
      BaseBig();
      OddPrime(m);
      ghost var x := V(left);
      HalveByShift(F(), x);
      var low := TestBit(left, 0, w);
      LowBit(x);
      Copy(temp, left);
      Copy(dest, temp);
      RshiftW(dest, 2, Base());
      SubFromP(temp);
      RshiftW(temp, 2, Base());
      SubFromP(temp);
      assert V(dest) == x / 2 && V(temp) == m - (m - x) / 2;
      CtSwap(low, dest, temp);
    }

    /** A difference that is not negative leaves no borrow. */
    lemma NoBorrow(a: array<nat>, d: nat, borrow: nat)
      requires Sound() && IsFe(a) && borrow <= 1 && V(a) - borrow * R() == d
      ensures borrow == 0 && V(a) == d
    {
      BaseBig();
      ValToBound(a[..], Base(), n);
    }
  }
}
