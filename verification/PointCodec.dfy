/** sb_sw_lib.c: validation, compression and output of points. */
module PointCodec {
  import opened Results
  import opened ModArith
  import opened Primes
  import opened QuasiField
  import opened Curve
  import opened CoZ
  import opened Scalars
  import opened PointMult
  import opened PointMultRun
  import opened Montgomery
  import opened MultAdd
  import opened Verify

  ghost function CurveValue(cv: Curve, x: int): int {
    x * x * x + cv.a * x + cv.b
  }

  /** sb_sw_curve_y2: y1 := x^3 + a x + b for x in x1. */
  method CurveY2(c: Context, sw: SwCurve, ghost x: int)
    requires sw.Sound() && c.x1 == sw.fp.Qr(x)
    modifies c`y1, c`t5, c`t6
    ensures c.y1 == sw.fp.Qr(CurveValue(sw.cv, x))
  {
    var f := sw.fp;
    MontConverted(f, c.x1);
    c.t5 := f.MontConvert(c.x1);
    MontMixed(f, c.x1, c.x1);
    c.t6 := f.MontMul(c.t5, c.x1);
    c.t6 := f.ModSub(c.t6, sw.minusA);
    MontMixed(f, c.t6, c.x1);
    c.y1 := f.MontMul(c.t5, c.t6);
    CurveValueCong(sw, c.x1, x, c.t6, c.y1);
    c.y1 := f.ModAdd(c.y1, sw.b);
  }

  lemma CurveValueCong(sw: SwCurve, x: int, x': int, t: int, u: int)
    requires sw.Sound() && Cong(x, x', sw.fp.m)
    requires t == sw.fp.ModSub(sw.fp.Qr(x * x), sw.minusA) && u == sw.fp.Qr(t * x)
    ensures sw.fp.ModAdd(u, sw.b) == sw.fp.Qr(CurveValue(sw.cv, x'))
  {
    var m, a := sw.fp.m, sw.cv.a;
    CongMul(x, x', x, x', m);
    CongSub(sw.fp.Qr(x * x), x' * x', sw.minusA, -a, m);
    CongMul(t, x' * x' + a, x, x', m);
    CongAdd(u, (x' * x' + a) * x', sw.b, sw.cv.b, m);
    assert (x' * x' + a) * x' == x' * x' * x' + a * x';
  }

  /** The public keys that validation accepts: affine points of the curve, with reduced coordinates. */
  ghost predicate ValidPoint(cv: Curve, x: int, y: int)
    requires cv.p > 0
  {
    cv.OnCurve(Affine(x, y)) && y != 0
  }

  /** sb_sw_point_validate, on the unreduced input in the point registers.  All tests are made in any case. */
  method PointValidate(c: Context, sw: SwCurve) returns (valid: bool)
    requires sw.Sound()
    modifies c`pointX, c`pointY, c`x1, c`y1, c`y2, c`t5, c`t6
    ensures valid <==> ValidPoint(sw.cv, old(c.pointX), old(c.pointY))
    ensures c.pointX == sw.fp.Qr(old(c.pointX)) && c.pointY == sw.fp.Qr(old(c.pointY))
  {
    var f := sw.fp;
    ghost var x, y := c.pointX, c.pointY;
    valid := c.pointY != 0;
    valid := valid && c.pointX < f.m && c.pointY < f.m;
    c.pointY := f.ModReduce(c.pointY);
    c.pointX := f.ModReduce(c.pointX);
    c.t5 := f.MontSquare(c.pointY);
    MontConverted(f, c.t5);
    c.y2 := f.MontConvert(c.t5);
    c.x1 := c.pointX;
    CurveY2(c, sw, x);
    SquareBack(f, c.pointY, y);
    var same := c.y1 == c.y2;
    valid := valid && same;
  }

  /** Conversion undoes the division by the radix in Montgomery squaring. */
  lemma SquareBack(f: Field, y: int, y': int)
    requires f.Valid() && y >= 0 && Cong(y, y', f.m)
    ensures f.MontConvert(f.MontSquare(y)) == f.Qr(y' * y')
  {
    var t := f.MontSquare(y);
    MontConverted(f, t);
    CongMul(t, y * y * f.radixInv, f.radix, f.radix, f.m);
    RadixInverse(f, y * y);
    CongMul(y, y', y, y', f.m);
  }

  // ---- compression ----

  /** sb_fe_mod_sqrt on a register value; the word-level routine is Montgomery.ModSqrt. */
  method SquareRoot(c: Context, f: Field) returns (r: bool)
    requires f.Valid() && f.IsQr(c.y1)
    modifies c`y1, c`t5
    ensures f.IsQr(c.y1)
    ensures r <==> f.m % 4 == 3 && IsSquare(old(c.y1), f.m)
    ensures r ==> IsRoot(c.y1, old(c.y1), f.m)
  {
    ghost var v := c.y1;
    SqrtMeaning(f, v);
    MontConverted(f, v);
    c.y1 := f.MontConvert(c.y1);
    r := false;
    if f.m % 4 == 3 {
      c.t5 := c.y1;
      c.y1 := f.MontPow(c.y1, (f.m + 1) / 4);
      r := f.MontSquare(c.y1) == c.t5;
    }
    c.y1 := f.MontReduce(c.y1);
  }

  /** The square root with the given low bit, if the value is not zero. */
  ghost predicate SignedRoot(f: Field, v: int, sign: nat, y: nat)
    requires f.m > 0
  {
    f.IsQr(y) && IsRoot(y, v, f.m) && (v % f.m != 0 ==> y < f.m && y % 2 == sign)
  }

  lemma RootOfCong(y: int, v: int, v': int, m: nat)
    requires m > 0 && Cong(v, v', m)
    ensures IsRoot(y, v, m) <==> IsRoot(y, v', m)
    ensures IsSquare(v, m) <==> IsSquare(v', m)
  {
    if IsSquare(v, m) {
      var z :| IsRoot(z, v, m);
      assert IsRoot(z, v', m);
    }
    if IsSquare(v', m) {
      var z :| IsRoot(z, v', m);
      assert IsRoot(z, v, m);
    }
  }

  lemma SquareOfNegation(z: int, y: int, m: nat)
    requires m > 0 && Cong(z, -y, m)
    ensures Cong(z * z, y * y, m)
  {
    CongMul(z, -y, z, -y, m);
    assert (-y) * (-y) == y * y;
  }

  /** Negation flips the low bit of a nonzero root. */
  lemma NegatedRoot(f: Field, y: int, v: int)
    requires f.Valid() && f.IsQr(y) && IsRoot(y, v, f.m)
    ensures f.IsQr(f.ModNegate(y)) && IsRoot(f.ModNegate(y), v, f.m)
    ensures v % f.m != 0 ==> y < f.m && f.ModNegate(y) == f.m - y && (f.m - y) % 2 != y % 2
  {
    hide Field.ModNegate;
    NegatedCong(f, y);
    SquareOfNegation(f.ModNegate(y), y, f.m);
    if v % f.m != 0 {
      RootNotZero(f, y, v);
      FlippedBit(f, y);
    }
  }

  lemma FlippedBit(f: Field, y: int)
    requires f.Valid() && 0 < y < f.m
    ensures f.ModNegate(y) == f.m - y && (f.m - y) % 2 != y % 2
  {
    OddPrime(f.m);
    QrFixed(f, f.m - y);
  }

  lemma NegatedCong(f: Field, y: int)
    requires f.m > 0 && y >= 0
    ensures Cong(f.ModNegate(y), -y, f.m)
  {
    MultipleMod(1, f.m);
    SmallMod(0, f.m);
    CongSub(f.m, 0, y, y, f.m);
  }

  lemma RootNotZero(f: Field, y: int, v: int)
    requires f.Valid() && f.IsQr(y) && IsRoot(y, v, f.m) && v % f.m != 0
    ensures y < f.m
  {
    if y == f.m {
      MultipleMod(1, f.m);
      SmallMod(0, f.m);
      CongMul(y, 0, y, 0, f.m);
    }
  }

  /** sb_sw_point_decompress. */
  method PointDecompress(c: Context, sw: SwCurve, sign: nat) returns (valid: bool)
    requires sw.Sound() && sign <= 1
    modifies c`pointX, c`pointY, c`x1, c`y1, c`t5, c`t6
    ensures valid <==>
            && old(c.pointX) < sw.cv.p && sw.cv.p % 4 == 3
            && IsSquare(CurveValue(sw.cv, old(c.pointX)), sw.cv.p)
    ensures c.pointX == sw.fp.Qr(old(c.pointX))
    ensures valid ==> SignedRoot(sw.fp, CurveValue(sw.cv, old(c.pointX)), sign, c.pointY)
  {
    var f := sw.fp;
    ghost var x := c.pointX;
    ghost var v := CurveValue(sw.cv, x);
    valid := c.pointX < f.m;
    c.pointX := f.ModReduce(c.pointX);
    c.x1 := c.pointX;
    CurveY2(c, sw, x);
    RootOfCong(0, c.y1, v, f.m);
    ghost var qr := c.y1;
    var root := SquareRoot(c, f);
    valid := valid && root;
    if root {
      RootOfCong(c.y1, qr, v, f.m);
      NegatedRoot(f, c.y1, v);
    }
    var mismatch := c.y1 % 2 != sign;
    c.t5 := f.ModNegate(c.y1);
    if mismatch {
      c.y1, c.t5 := c.t5, c.y1;
    }
    c.pointY := c.y1;
  }

  /** sb_fe_mod_reduce_full: zero is no longer represented by p. */
  function ReduceFull(f: Field, v: nat): nat {
    if v == f.m then 0 else v
  }

  function LowBit(v: nat): nat { v % 2 }

  /** sb_sw_compress_public_key. */
  method Compress(c: Context, sw: SwCurve, x: nat, y: nat) returns (compressed: Option<(nat, nat)>)
    requires sw.Sound()
    modifies c`pointX, c`pointY, c`x1, c`y1, c`y2, c`t5, c`t6
    ensures compressed == if ValidPoint(sw.cv, x, y) then Some((x, LowBit(y))) else None
  {
    c.pointX, c.pointY := x, y;
    var valid := PointValidate(c, sw);
    if !valid {
      return None;
    }
    QrFixed(sw.fp, y);
    compressed := Some((x, LowBit(c.pointY)));
  }

  /** sb_sw_decompress_public_key. */
  method Decompress(c: Context, sw: SwCurve, x: nat, sign: nat) returns (public: Option<(nat, nat)>)
    requires sw.Sound() && sign <= 1
    modifies c`pointX, c`pointY, c`x1, c`y1, c`t5, c`t6
    ensures public.Some? <==> x < sw.cv.p && sw.cv.p % 4 == 3 && IsSquare(CurveValue(sw.cv, x), sw.cv.p)
    ensures public.Some? ==> public.value.0 == x && SignedRoot(sw.fp, CurveValue(sw.cv, x), sign, public.value.1)
  {
    c.pointX := x;
    var valid := PointDecompress(c, sw, sign);
    if !valid {
      return None;
    }
    FullyReduced(sw.fp, x);
    public := Some((ReduceFull(sw.fp, c.pointX), c.pointY));
  }

  lemma FullyReduced(f: Field, x: nat)
    requires f.m > 0 && x < f.m
    ensures ReduceFull(f, f.Qr(x)) == x
  {
    SmallMod(x, f.m);
  }

  /** A nonzero value has one root with each low bit. */
  lemma RootUnique(f: Field, v: int, y: nat, y': nat)
    requires f.Valid() && v % f.m != 0 && IsRoot(y, v, f.m) && IsRoot(y', v, f.m)
    requires 0 < y < f.m && 0 < y' < f.m && y % 2 == y' % 2
    ensures y == y'
  {
    EqualSquares(f.m, y, y');
    SmallDifference(y', y, f.m);
    SameParity(f.m, y, y');
  }

  lemma SameParity(p: nat, y: nat, y': nat)
    requires IsPrime(p) && p > 2 && 0 < y < p && 0 < y' < p && y % 2 == y' % 2
    ensures (y + y') % p != 0
  {
    OddPrime(p);
    if y + y' < p {
      SmallMod(y + y', p);
    } else {
      DivModUnique(y + y', 1, y + y' - p, p);
    }
  }

  lemma EqualSquares(p: nat, y: int, y': int)
    requires IsPrime(p) && Cong(y * y, y' * y', p)
    ensures (y - y') % p == 0 || (y + y') % p == 0
  {
    CongIffDiff(y * y, y' * y', p);
    assert y * y - y' * y' == (y - y') * (y + y');
    PrimeDividesProduct(y - y', y + y', p);
  }

  /** On a curve without points of order two, a point with reduced coordinates is the only one that decompression
      can give for its x coordinate and sign: compression and decompression undo each other. */
  lemma CodecInverse(sw: SwCurve, x: nat, y: nat, sign: nat)
    requires sw.Sound() && sw.cv.p % 4 == 3 && CurveValue(sw.cv, x) % sw.cv.p != 0
    ensures ValidPoint(sw.cv, x, y) && sign == y % 2 <==>
            x < sw.cv.p && IsSquare(CurveValue(sw.cv, x), sw.cv.p) && SignedRoot(sw.fp, CurveValue(sw.cv, x), sign, y)
  {
    var v := CurveValue(sw.cv, x);
    if ValidPoint(sw.cv, x, y) {
      assert IsRoot(y, v, sw.cv.p);
    }
  }

  /** Compress, then decompress: every valid point comes back, (0, y) included. */
  method CompressDecompress(c: Context, sw: SwCurve, x: nat, y: nat) returns (public: Option<(nat, nat)>)
    requires sw.Sound() && sw.cv.p % 4 == 3 && ValidPoint(sw.cv, x, y)
    modifies c
    ensures public == Some((x, y))
  {
    var compressed := Compress(c, sw, x, y);
    ghost var v := CurveValue(sw.cv, x);
    assert IsRoot(y, v, sw.cv.p);
    SmallMod(y, sw.cv.p);
    if v % sw.cv.p == 0 {
      PrimeDividesProduct(y, y, sw.cv.p);
    }
    public := Decompress(c, sw, compressed.value.0, compressed.value.1);
    RootUnique(sw.fp, v, public.value.1, y);
  }

  // ---- output of points and shared secrets ----

  /** The end of sb_sw_point_multiply_finish: both coordinates fully reduced. */
  method PointOutput(c: Context, f: Field) returns (output: Option<(nat, nat)>)
    modifies c`x1
    ensures output == if old(c.x1) == f.m && c.y1 == f.m then None else Some((ReduceFull(f, old(c.x1)), c.y1))
  {
    if c.x1 == f.m && c.y1 == f.m {
      return None;
    }
    c.x1 := ReduceFull(f, c.x1);
    output := Some((c.x1, c.y1));
  }

  /** The end of sb_sw_compute_public_key_finish: the X coordinate is only quasi-reduced. */
  method PublicKeyOutput(c: Context, f: Field) returns (output: Option<(nat, nat)>)
    ensures output == if c.x1 == f.m && c.y1 == f.m then None else Some((c.x1, c.y1))
  {
    output := if c.x1 == f.m && c.y1 == f.m then None else Some((c.x1, c.y1));
  }

  /** The coordinates of a multiple. */
  lemma MultipleCoordinates(sw: SwCurve, pt: int -> Point, k: int)
    requires sw.Sound() && Multiples(sw.cv, pt) && pt(k).Affine?
    ensures 0 <= pt(k).x < sw.cv.p && 0 < pt(k).y < sw.cv.p && ValidPoint(sw.cv, pt(k).x, pt(k).y)
    ensures sw.fp.Qr(pt(k).y) == pt(k).y && ReduceFull(sw.fp, sw.fp.Qr(pt(k).x)) == pt(k).x
  {
    IsAffine(sw.cv, pt, k);
    MultipleDouble(sw.cv, pt, k);
    SmallMod(0, sw.cv.p);
    assert Affine(pt(k).x, pt(k).y) == pt(k);
    QrFixed(sw.fp, pt(k).y);
    FullyReduced(sw.fp, pt(k).x);
  }

  /** sb_sw_point_multiply, for a validated point and scalar: the output is the multiple, and is a valid point. */
  method MultiplyPoint(c: Context, sw: SwCurve, ghost pt: int -> Point, ghost k: nat, ghost zv: int)
    returns (output: Option<(nat, nat)>)
    requires sw.Sound() && Multiples(sw.cv, pt) && pt(1).Affine?
    requires c.pointX == sw.fp.Mont(pt(1).x) && c.pointY == sw.fp.Mont(pt(1).y)
    requires c.k == k && 1 <= k < sw.cv.n && c.z == sw.fp.Mont(zv) && zv % sw.cv.p != 0 && c.swap == 0
    modifies c
    ensures pt(k).Affine? && output.Some? && Affine(output.value.0, output.value.1) == pt(k)
    ensures ValidPoint(sw.cv, pt(k).x, pt(k).y)
  {
    var calls := PointMultiply(c, sw, pt, k, zv);
    MultipleCoordinates(sw, pt, k);
    output := PointOutput(c, sw.fp);
  }

  /** sb_sw_compute_public_key: the output is a valid public key unless its x coordinate is zero; then p is
      output instead, which validation rejects. */
  method ComputePublicKey(c: Context, sw: SwCurve, ghost pt: int -> Point, ghost k: nat, ghost zv: int)
    returns (output: Option<(nat, nat)>)
    requires sw.Sound() && Multiples(sw.cv, pt) && pt(1).Affine?
    requires c.pointX == sw.fp.Mont(pt(1).x) && c.pointY == sw.fp.Mont(pt(1).y)
    requires c.k == k && 1 <= k < sw.cv.n && c.z == sw.fp.Mont(zv) && zv % sw.cv.p != 0 && c.swap == 0
    modifies c
    ensures pt(k).Affine? && output.Some? && output.value.1 == pt(k).y
    ensures output.value.0 == if pt(k).x == 0 then sw.cv.p else pt(k).x
    ensures ValidPoint(sw.cv, output.value.0, output.value.1) <==> pt(k).x != 0
  {
    var calls := PointMultiply(c, sw, pt, k, zv);
    MultipleCoordinates(sw, pt, k);
    output := PublicKeyOutput(c, sw.fp);
    SmallMod(pt(k).x, sw.cv.p);
  }

  /** sb_sw_shared_secret with the private scalar b and the public key a G: the x coordinate of a b G, which
      the owner of a obtains from b and a. */
  method SharedSecret(c: Context, sw: SwCurve, ghost base: int -> Point, ghost a: int, ghost b: nat, ghost zv: int)
    returns (secret: nat)
    requires sw.Sound() && Multiples(sw.cv, base) && a % sw.cv.n != 0 && base(a).Affine?
    requires c.pointX == sw.fp.Mont(base(a).x) && c.pointY == sw.fp.Mont(base(a).y)
    requires c.k == b && 1 <= b < sw.cv.n && c.z == sw.fp.Mont(zv) && zv % sw.cv.p != 0 && c.swap == 0
    modifies c
    ensures base(b * a).Affine? && base(a * b).Affine? && secret == base(a * b).x == base(b * a).x
  {
    ghost var pt := m => base(a * m);
    ScaledMultiples(sw.cv, base, a, pt);
    assert a * 1 == a && a * b == b * a;
    var output := MultiplyPoint(c, sw, pt, b, zv);
    secret := output.value.0;
  }
}
