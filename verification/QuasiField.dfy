/** Values of field elements: quasi-reduced residues in [1, m], where zero is represented by m,
    and the Montgomery domain over them.  These functions are what the word-level routines compute. */
module QuasiField {
  import opened ModArith
  import opened Primes

  /** A modulus m with the Montgomery radix 2^SB_FE_BITS and the inverse of the radix modulo m. */
  datatype Field = Field(m: nat, radix: nat, radixInv: nat) {

    ghost predicate Valid() {
      && IsPrime(m) && 2 < m < radix <= 2 * m
      && Cong(radix * radixInv, 1, m)
    }

    predicate IsQr(v: int) {
      1 <= v <= m
    }

    /** The quasi-reduced representative of v. */
    function Qr(v: int): (q: nat)
      requires m > 0
      ensures IsQr(q) && Cong(q, v, m)
      ensures q == m <==> v % m == 0
    {
      if v % m == 0 then
        MultipleMod(1, m);
        m
      else
        CongMod(v, m);
        v % m
    }

    /** The Montgomery form of v. */
    function Mont(v: int): (q: nat)
      requires m > 0
      ensures IsQr(q)
    {
      Qr(v * radix)
    }

    function ModAdd(x: nat, y: nat): (q: nat)
      requires m > 0
      ensures IsQr(q)
    {
      Qr(x + y)
    }

    function ModDouble(x: nat): (q: nat)
      requires m > 0
      ensures IsQr(q)
    {
      ModAdd(x, x)
    }

    function ModSub(x: nat, y: nat): (q: nat)
      requires m > 0
      ensures IsQr(q)
    {
      Qr(x - y)
    }

    function ModNegate(x: nat): (q: nat)
      requires m > 0
      ensures IsQr(q)
    {
      ModSub(m, x)
    }

    /** Half of x modulo m. */
    function ModHalve(x: nat): (q: nat)
      requires m > 0
      ensures IsQr(q)
    {
      Qr(x * ((m + 1) / 2))
    }

    function ModReduce(x: nat): (q: nat)
      requires m > 0
      ensures IsQr(q)
    {
      Qr(x)
    }

    /** Montgomery multiplication: x * y / radix modulo m. */
    function MontMul(x: nat, y: nat): (q: nat)
      requires m > 0
      ensures IsQr(q)
    {
      Qr(x * y * radixInv)
    }

    function MontSquare(x: nat): (q: nat)
      requires m > 0
      ensures IsQr(q)
    {
      MontMul(x, x)
    }

    function MontReduce(x: nat): (q: nat)
      requires m > 0
      ensures IsQr(q)
    {
      MontMul(x, 1)
    }

    function MontConvert(x: nat): (q: nat)
      requires m > 0
      ensures IsQr(q)
    {
      MontMul(x, Qr(radix * radix))
    }

    /** The Montgomery form of the e-th power of the element whose Montgomery form is x. */
    function MontPow(x: nat, e: nat): (q: nat)
      requires m > 0
      ensures IsQr(q)
    {
      Mont(Pow(x * radixInv, e))
    }

    /** Inversion in the Montgomery domain, by the power m - 2. */
    function MontInv(x: nat): (q: nat)
      requires m >= 2
      ensures IsQr(q)
    {
      MontPow(x, m - 2)
    }
  }

  // ---- when two values have the same representative ----

  lemma QrFixed(f: Field, a: int)
    requires f.IsQr(a)
    ensures f.Qr(a) == a
  {
    if a < f.m {
      SmallMod(a, f.m);
    } else {
      MultipleMod(1, f.m);
    }
  }

  /** Multiplying by the radix loses nothing. */
  lemma RadixCancels(f: Field, a: int, b: int)
    requires f.Valid()
    ensures Cong(a * f.radix, b * f.radix, f.m) <==> Cong(a, b, f.m)
  {
    RadixInverse(f, a);
    RadixInverse(f, b);
    if Cong(a * f.radix, b * f.radix, f.m) {
      CongMul(a * f.radix, b * f.radix, f.radixInv, f.radixInv, f.m);
    }
    if Cong(a, b, f.m) {
      CongMul(a, b, f.radix, f.radix, f.m);
    }
  }

  lemma RadixInverse(f: Field, a: int)
    requires f.Valid()
    ensures Cong(a * f.radix * f.radixInv, a, f.m)
    ensures Cong(a * f.radixInv * f.radix, a, f.m)
  {
    CongMul(a, a, f.radix * f.radixInv, 1, f.m);
    Associate(a, f.radix, f.radixInv);
    Swap(a, f.radix, f.radixInv);
  }

  /** Montgomery forms agree exactly when the values are congruent. */
  lemma MontEqual(f: Field, a: int, b: int)
    requires f.Valid()
    ensures f.Mont(a) == f.Mont(b) <==> Cong(a, b, f.m)
  {
    RadixCancels(f, a, b);
  }

  lemma MontZero(f: Field, a: int)
    requires f.Valid()
    ensures f.Mont(a) == f.m <==> a % f.m == 0
  {
    RadixCancels(f, a, 0);
    SmallMod(0, f.m);
    assert 0 * f.radix == 0;
  }

  /** Every quasi-reduced value is the Montgomery form of something. */
  lemma MontOnto(f: Field, x: nat) returns (v: int)
    requires f.Valid() && f.IsQr(x)
    ensures x == f.Mont(v)
    ensures v == x * f.radixInv
  {
    v := x * f.radixInv;
    RadixInverse(f, x);
    QrFixed(f, x);
  }

  // ---- the field operations on Montgomery forms ----

  lemma MontAdd(f: Field, a: int, b: int)
    requires f.Valid()
    ensures f.ModAdd(f.Mont(a), f.Mont(b)) == f.Mont(a + b)
  {
    CongAdd(f.Mont(a), a * f.radix, f.Mont(b), b * f.radix, f.m);
    Factor(a, b, f.radix);
  }

  lemma MontSub(f: Field, a: int, b: int)
    requires f.Valid()
    ensures f.ModSub(f.Mont(a), f.Mont(b)) == f.Mont(a - b)
  {
    CongSub(f.Mont(a), a * f.radix, f.Mont(b), b * f.radix, f.m);
    Factor(b, a, f.radix);
  }

  lemma MontNegate(f: Field, a: int)
    requires f.Valid()
    ensures f.ModNegate(f.Mont(a)) == f.Mont(-a)
  {
    MultipleMod(1, f.m);
    SmallMod(0, f.m);
    CongSub(f.m, 0, f.Mont(a), a * f.radix, f.m);
    assert (-a) * f.radix == -(a * f.radix);
  }

  lemma MontTimes(f: Field, a: int, b: int)
    requires f.Valid()
    ensures f.MontMul(f.Mont(a), f.Mont(b)) == f.Mont(a * b)
  {
    var x, y := f.Mont(a), f.Mont(b);
    CongMul(x, a * f.radix, y, b * f.radix, f.m);
    CongMul(x * y, (a * f.radix) * (b * f.radix), f.radixInv, f.radixInv, f.m);
    RadixFactors(a, b, f.radix);
    RadixInverse(f, a * b * f.radix);
  }

  lemma RadixFactors(a: int, b: int, r: int)
    ensures (a * r) * (b * r) == a * b * r * r
  {
    Associate(a * r, b, r);
    Swap(a, r, b);
  }

  lemma MontReduced(f: Field, a: int)
    requires f.Valid()
    ensures f.MontReduce(f.Mont(a)) == f.Qr(a)
  {
    CongMul(f.Mont(a), a * f.radix, f.radixInv, f.radixInv, f.m);
    assert f.Mont(a) * 1 * f.radixInv == f.Mont(a) * f.radixInv;
    RadixInverse(f, a);
  }

  lemma MontConverted(f: Field, x: nat)
    requires f.Valid()
    ensures f.MontConvert(x) == f.Mont(x)
  {
    var r2 := f.Qr(f.radix * f.radix);
    CongMul(x, x, r2, f.radix * f.radix, f.m);
    CongMul(x * r2, x * (f.radix * f.radix), f.radixInv, f.radixInv, f.m);
    assert x * (f.radix * f.radix) * f.radixInv == x * f.radix * f.radix * f.radixInv;
    RadixInverse(f, x * f.radix);
  }

  /** A plain value times a Montgomery form is a plain value. */
  lemma MontMixed(f: Field, x: nat, b: int)
    requires f.Valid()
    ensures f.MontMul(x, f.Mont(b)) == f.Qr(x * b)
    ensures f.MontMul(f.Mont(b), x) == f.Qr(x * b)
  {
    var y := f.Mont(b);
    CongMul(x, x, y, b * f.radix, f.m);
    CongMul(x * y, x * (b * f.radix), f.radixInv, f.radixInv, f.m);
    assert x * (b * f.radix) * f.radixInv == (x * b) * f.radix * f.radixInv;
    assert y * x == x * y;
    RadixInverse(f, x * b);
  }

  lemma MontPowered(f: Field, a: int, e: nat)
    requires f.Valid()
    ensures f.MontPow(f.Mont(a), e) == f.Mont(Pow(a, e))
  {
    var x := f.Mont(a);
    CongMul(x, a * f.radix, f.radixInv, f.radixInv, f.m);
    RadixInverse(f, a);
    PowCong(x * f.radixInv, a, e, f.m);
    MontEqual(f, Pow(x * f.radixInv, e), Pow(a, e));
  }

  /** Inversion in the Montgomery domain inverts nonzero elements and leaves zero, that is m, fixed. */
  lemma MontInverted(f: Field, a: int)
    requires f.Valid()
    ensures f.MontInv(f.Mont(a)) == f.Mont(Inv(a, f.m))
    ensures a % f.m != 0 ==> f.MontMul(f.MontInv(f.Mont(a)), f.Mont(a)) == f.Mont(1)
    ensures a % f.m == 0 ==> f.MontInv(f.Mont(a)) == f.m
  {
    MontPowered(f, a, f.m - 2);
    CongMod(Pow(a, f.m - 2), f.m);
    MontEqual(f, Inv(a, f.m), Pow(a, f.m - 2));
    if a % f.m != 0 {
      InvCorrect(a, f.m);
      MontTimes(f, Inv(a, f.m), a);
      MontEqual(f, Inv(a, f.m) * a, 1);
    } else {
      InvZero(a, f.m);
      MontZero(f, 0);
      SmallMod(0, f.m);
    }
  }

  // ---- halving ----

  /** Doubling the half gives the value back. */
  lemma HalveDoubles(f: Field, x: nat)
    requires f.m > 0 && f.m % 2 == 1
    ensures f.ModDouble(f.ModHalve(x)) == f.Qr(x)
  {
    var h := f.ModHalve(x);
    var c := (f.m + 1) / 2;
    CongMul(2, 2, h, x * c, f.m);
    assert 2 * (x * c) == x + x * f.m by {
      assert 2 * c == f.m + 1;
      assert 2 * (x * c) == x * (2 * c);
    }
    AddMultiple(x, x, f.m);
  }

  // ---- the field functions in numbers ----

  /** q is the number in [1, m] that is v modulo m. */
  predicate Represents(q: int, v: int, m: nat) {
    1 <= q <= m && Cong(q, v, m)
  }

  lemma SumsMean(f: Field, x: nat, y: nat)
    requires f.Valid()
    ensures Represents(f.ModAdd(x, y), x + y, f.m)
    ensures Represents(f.ModSub(x, y), x - y, f.m)
    ensures Represents(f.ModReduce(x), x, f.m)
  {
  }

  lemma NegationMeans(f: Field, x: nat)
    requires f.Valid()
    ensures Represents(f.ModDouble(x), x + x, f.m)
    ensures 1 <= f.ModNegate(x) <= f.m && (f.ModNegate(x) + x) % f.m == 0
  {
    MultipleMod(1, f.m);
    SmallMod(0, f.m);
    CongAdd(f.ModNegate(x), f.m - x, x, x, f.m);
  }

  /** Twice the half is the value. */
  lemma HalvesMean(f: Field, x: nat)
    requires f.Valid()
    ensures 1 <= f.ModHalve(x) <= f.m && Cong(2 * f.ModHalve(x), x, f.m)
  {
    hide Field.ModHalve;
    OddPrime(f.m);
    HalveDoubles(f, x);
    var h := f.ModHalve(x);
    assert f.Qr(h + h) == f.Qr(x) && h + h == 2 * h;
  }

  /** The result of a Montgomery multiplication, times the radix, is the product. */
  lemma ProductsMean(f: Field, x: nat, y: nat)
    requires f.Valid()
    ensures 1 <= f.MontMul(x, y) <= f.m && Cong(f.MontMul(x, y) * f.radix, x * y, f.m)
  {
    CongMul(f.MontMul(x, y), x * y * f.radixInv, f.radix, f.radix, f.m);
    RadixInverse(f, x * y);
  }

  /** Conversion multiplies by the radix, and reduction divides by it. */
  lemma ConversionsMean(f: Field, x: nat)
    requires f.Valid()
    ensures Represents(f.MontConvert(x), x * f.radix, f.m)
    ensures 1 <= f.MontReduce(x) <= f.m && Cong(f.MontReduce(x) * f.radix, x, f.m)
  {
    hide Field.MontMul;
    MontConverted(f, x);
    ProductsMean(f, x, 1);
    assert x * 1 == x;
  }

  /** Powers and the inverse of the element v, whose Montgomery form is x; the inverse of zero is zero. */
  lemma PowersMean(f: Field, x: nat, v: int, e: nat)
    requires f.Valid() && Represents(x, v * f.radix, f.m)
    ensures Represents(f.MontPow(x, e), Pow(v, e) * f.radix, f.m)
    ensures 1 <= f.MontInv(x) <= f.m && (f.MontInv(x) == f.m <==> v % f.m == 0)
    ensures v % f.m != 0 ==> Cong(f.MontInv(x) * x, f.radix * f.radix, f.m)
  {
    hide Field.MontPow, Field.MontMul, Field.MontInv;
    QrFixed(f, x);
    assert x == f.Mont(v);
    MontPowered(f, v, e);
    MontInverted(f, v);
    if v % f.m != 0 {
      ProductsMean(f, f.MontInv(x), x);
      CongMul(f.Mont(1), 1 * f.radix, f.radix, f.radix, f.m);
      ProductNotZero(f, x);
    }
  }

  /** Not zero, since its product with another number is one. */
  lemma ProductNotZero(f: Field, x: nat)
    requires f.Valid() && f.MontMul(f.MontInv(x), x) == f.Mont(1)
    ensures f.MontInv(x) != f.m
  {
    hide Field.MontInv;
    if f.MontInv(x) == f.m {
      MultipleMod(x * f.radixInv, f.m);
      Associate(f.m, x, f.radixInv);
      MontZero(f, 1);
      SmallMod(1, f.m);
    }
  }

  lemma OddPrime(p: int)
    requires IsPrime(p) && p > 2
    ensures p % 2 == 1
  {
    assert !Divides(2, p);
  }
}
