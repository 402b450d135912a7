/** sb_fe.c: Montgomery multiplication, exponentiation, inversion and square roots on word arrays. */
module Montgomery {
  import opened ModArith
  import opened Primes
  import opened QuasiField
  import opened Words
  import opened PrimeFields

  // ---- the arithmetic of the outer loop, on numbers ----

  /** (h, l) = a * b + c + d in one double word. */
  lemma MultAddAdd(x: nat, y: nat, c: nat, d: nat, b: nat)
    requires b > 1 && x < b && y < b && c < b && d < b
    ensures var t := x * y + c + d; Hi(t, b) < b && Lo(t, b) < b && t == Lo(t, b) + Hi(t, b) * b
  {
    var t := x * y + c + d;
    WordProduct(x, y, b);
    QuotientBelow(t, b, b);
  }

  lemma WordProduct(x: nat, y: nat, b: nat)
    requires x < b && y < b
    ensures x * y + 2 * b <= b * b + 1
  {
    MulMonotone(x, b - 1, y);
    MulMonotone(y, b - 1, b - 1);
    assert (b - 1) * y == y * (b - 1);
    assert (b - 1) * (b - 1) == b * b - 2 * b + 1;
  }

  /** A value is congruent to its low word, so a zero low word makes it a multiple of the base. */
  lemma {:induction false} ShiftDownWord(s: seq<nat>, t: seq<nat>, b: nat, n: nat)
    requires 0 < n <= |s| && n - 1 <= |t|
    requires forall j :: 0 <= j < n - 1 ==> t[j] == s[j + 1]
    ensures ValTo(s, b, n) == s[0] + b * ValTo(t, b, n - 1)
  {
    if n == 1 {
      assert ValTo(s, b, 1) == ValTo(s, b, 0) + s[0] * Pow(b, 0);
    } else {
      ShiftDownWord(s, t, b, n - 1);
      var w := Pow(b, n - 2);
      assert s[n - 1] * (b * w) == b * (s[n - 1] * w);
      assert b * (ValTo(t, b, n - 2) + s[n - 1] * w) == b * ValTo(t, b, n - 2) + b * (s[n - 1] * w);
    }
  }

  /** The low word is the value modulo the base. */
  lemma LowWord(s: seq<nat>, b: nat)
    requires |s| > 0 && b > 1 && IsWords(s, b)
    ensures Val(s, b) % b == s[0]
  {
    ShiftDownWord(s, s[1..], b, |s|);
    DivModUnique(Val(s, b), ValTo(s[1..], b, |s| - 1), s[0], b);
  }

  /** Adding the multiple u = a0 * m' of m makes a number whose low word is a0 divisible by the base. */
  lemma ClearsLowWord(v: nat, a0: nat, mp: nat, m: nat, b: nat)
    requires b > 1 && (mp * m + 1) % b == 0 && v % b == a0
    ensures (v + Lo(a0 * mp, b) * m) % b == 0
  {
    var u := Lo(a0 * mp, b);
    CongMod(a0 * mp, b);
    CongMul(u, a0 * mp, m, m, b);
    CongMod(v, b);
    CongAdd(v, a0, u * m, a0 * mp * m, b);
    assert a0 + a0 * mp * m == a0 * (mp * m + 1);
    SmallMod(0, b);
    CongMul(a0, a0, mp * m + 1, 0, b);
  }

  /** A number divisible by the base has a zero low word, also after the top is carried out. */
  lemma LowWordZero(s: seq<nat>, c: nat, v: nat, b: nat)
    requires |s| > 0 && b > 1 && IsWords(s, b)
    requires Val(s, b) + c * Pow(b, |s|) == v && v % b == 0
    ensures s[0] == 0
  {
    hide Pow, Val;
    LowWord(s, b);
    PowNext(b, |s| - 1);
    Associate(c, b, Pow(b, |s| - 1));
    Swap(c, b, Pow(b, |s| - 1));
    AddMultiple(Val(s, b), c * Pow(b, |s| - 1), b);
  }

  /** One outer iteration: t' * b = t + x * y + u * p, so t' stays below 2 * p. */
  lemma RoundBound(t: nat, t': nat, x: nat, y: nat, u: nat, p: nat, b: nat)
    requires b > 1 && x < b && u < b && y <= p && t < 2 * p
    requires b * t' == t + x * y + u * p
    ensures t' < 2 * p
  {
    MulMonotone(x, b - 1, y);
    MulMonotone(y, p, b - 1);
    MulMonotone(u, b - 1, p);
    assert (b - 1) * y == y * (b - 1) && (b - 1) * p == b * p - p;
    assert t' * b < (2 * p) * b by {
      assert t' * b == b * t' && (2 * p) * b == 2 * (b * p);
    }
    if t' >= 2 * p {
      MulMonotone(2 * p, t', b);
    }
  }

  /** The running total of the outer loop gains one more word of x. */
  lemma RoundTotal(t: nat, t': nat, x: nat, y: nat, u: nat, p: nat, b: nat, i: nat, low: nat, mult: nat)
    requires b > 0 && b * t' == t + x * y + u * p
    requires t * Pow(b, i) == low * y + mult * p
    ensures t' * Pow(b, i + 1) == (low + x * Pow(b, i)) * y + (mult + u * Pow(b, i)) * p
  {
    hide Pow;
    var w := Pow(b, i);
    PowNext(b, i);
    Associate(t', b, w);
    ThreeTerms(t, x * y, u * p, w);
    Swap(x, y, w);
    Swap(u, p, w);
    Factor(low, x * w, y);
    Factor(mult, u * w, p);
  }

  /** The final total is the Montgomery product before the last quasi-reduction. */
  lemma TotalIsProduct(f: Field, t: nat, x: nat, y: nat, mult: nat)
    requires f.Valid() && f.IsQr(x) && f.IsQr(y)
    requires t * f.radix == x * y + mult * f.m
    ensures t > 0 && f.Qr(t) == f.MontMul(x, y)
  {
    MulMonotone(1, x, y);
    MulMonotone(0, mult, f.m);
    assert t * f.radix > 0 * f.radix;
    assert t > 0;
    AddMultiple(x * y, mult, f.m);
    CongMul(t * f.radix, x * y, f.radixInv, f.radixInv, f.m);
    RadixInverse(f, t);
  }

  /** The carries of the two rows and the old high bit make a word and a bit. */
  lemma HighWord(hw: nat, c: nat, c2: nat, b: nat)
    requires b > 1 && hw <= 1 && c < b && c2 < b
    ensures var d := hw + c + c2; Lo(d, b) < b && Hi(d, b) <= 1 && d == Lo(d, b) + Hi(d, b) * b
  {
    CarryAtMostOne(hw + c + c2, b);
  }

  /** The shifted number with the new high word and bit on top, times the base. */
  lemma HighPart(low: int, hw: int, c: int, c2: int, lo: int, hi: int, b: nat, n: nat)
    requires n > 0 && hw + c + c2 == lo + hi * b
    ensures b * (low + lo * Pow(b, n - 1) + hi * Pow(b, n))
         == b * low + hw * Pow(b, n) + c * Pow(b, n) + c2 * Pow(b, n)
  {
    var w, d := Pow(b, n - 1), hw + c + c2;
    assert lo * w + hi * (b * w) == d * w by {
      assert hi * (b * w) == (hi * b) * w;
      assert (lo + hi * b) * w == lo * w + (hi * b) * w;
    }
    ThreeTerms(hw, c, c2, b * w);
    assert b * (d * w) == d * (b * w);
  }

  lemma ThreeTerms(x: int, y: int, z: int, w: int)
    ensures (x + y + z) * w == x * w + y * w + z * w
  {
  }

  // ---- the loops ----

  /** The lowest j words of t, with the carry c above them, are those of s plus k times those of y; the words of
      t above are still those of s. */
  ghost predicate RowDone(t: seq<nat>, s: seq<nat>, k: nat, y: seq<nat>, c: nat, b: nat, j: nat) {
    && |t| == |s| == |y| && j <= |s| && c < b
    && (forall l :: 0 <= l < j ==> t[l] < b)
    && (forall l :: j <= l < |s| ==> t[l] == s[l])
    && ValTo(t, b, j) + c * Pow(b, j) == ValTo(s, b, j) + k * ValTo(y, b, j)
  }

  lemma RowNext(t: seq<nat>, s: seq<nat>, k: nat, y: seq<nat>, c: nat, b: nat, j: nat)
    requires b > 1 && k < b && IsWords(y, b) && IsWords(s, b) && RowDone(t, s, k, y, c, b, j) && j < |s|
    ensures k * y[j] >= 0
    ensures var d := k * y[j] + s[j] + c; RowDone(t[j := Lo(d, b)], s, k, y, Hi(d, b), b, j + 1)
  {
    hide Lo, Hi, Pow;
    ProductNonnegative(k, y[j]);
    RowStep(k, y[j], s[j], c, b, j, ValTo(t, b, j), ValTo(s, b, j), ValTo(y, b, j));
    ValToFrame(t, t[j := Lo(k * y[j] + s[j] + c, b)], b, j);
  }

  lemma RowStart(s: seq<nat>, k: nat, y: seq<nat>, b: nat)
    requires |s| == |y| && b > 0
    ensures RowDone(s, s, k, y, 0, b, 0)
  {
    ZeroTimes(0, Pow(b, 0));
    ZeroTimes(0, k);
  }

  lemma RowEnd(t: seq<nat>, s: seq<nat>, k: nat, y: seq<nat>, c: nat, b: nat)
    requires RowDone(t, s, k, y, c, b, |s|)
    ensures c < b && IsWords(t, b) && Val(t, b) + c * Pow(b, |t|) == Val(s, b) + k * Val(y, b)
  {
  }

  /** a := a + k * y, or a := k * y when a is to be read as zero; the word carried out of the top is returned. */
  method MulAddRow(a: array<nat>, k: nat, y: array<nat>, clear: bool, b: nat) returns (c: nat)
    requires b > 1 && k < b && a != y && Fe(y, b, a.Length) && (clear || Fe(a, b, a.Length)) && a.Length > 0
    modifies a
    ensures Fe(a, b, a.Length) && c < b
    ensures Val(a[..], b) + c * Pow(b, a.Length) == (if clear then 0 else old(Val(a[..], b))) + k * Val(y[..], b)
  {
    hide Hi, Lo, Pow, RowDone, ValTo;
    var n := a.Length;
    ghost var s := if clear then seq(n, _ => 0) else a[..];
    ghost var t: seq<nat> := s;
    if clear {
      ValToZero(s, b, n);
    }
    RowStart(s, k, y[..], b);
    c := 0;
    for j := 0 to n
      invariant RowDone(t, s, k, y[..], c, b, j) && |t| == n
      invariant forall l :: 0 <= l < n && (l < j || !clear) ==> a[l] == t[l]
    {
      var aj: nat := if clear then 0 else a[j];
      RowWord(t, s, k, y[..], c, b, j);
      RowNext(t, s, k, y[..], c, b, j);
      var d: nat := k * y[j] + aj + c;
      t := t[j := Lo(d, b)];
      c, a[j] := Hi(d, b), Lo(d, b);
    }
    RowEnd(t, s, k, y[..], c, b);
    assert a[..] == t;
  }

  lemma RowWord(t: seq<nat>, s: seq<nat>, k: nat, y: seq<nat>, c: nat, b: nat, j: nat)
    requires RowDone(t, s, k, y, c, b, j) && j < |s|
    ensures t[j] == s[j]
  {
  }

  lemma ProductNonnegative(x: int, y: int)
    requires x >= 0 && y >= 0
    ensures x * y >= 0
  {
  }

  /** One word of a row: a double word holds the product, the old word and the carry. */
  lemma RowStep(k: nat, y: nat, x: nat, c: nat, b: nat, j: nat, low: int, lowX: int, lowY: int)
    requires b > 1 && k < b && y < b && x < b && c < b
    requires low + c * Pow(b, j) == lowX + k * lowY
    ensures var t := k * y + x + c;
            && Hi(t, b) < b && Lo(t, b) < b
            && low + Lo(t, b) * Pow(b, j) + Hi(t, b) * Pow(b, j + 1)
               == lowX + x * Pow(b, j) + k * (lowY + y * Pow(b, j))
  {
    MultAddAdd(k, y, x, c, b);
    var t := k * y + x + c;
    AddChain(k * y, x, c, Lo(t, b), Hi(t, b), b, j);
    hide Lo, Hi, Pow;
    RowSum(low, lowX, k, lowY, y, x, c, Pow(b, j), Lo(t, b) * Pow(b, j) + Hi(t, b) * Pow(b, j + 1));
  }

  lemma RowSum(low: int, lowX: int, k: int, lowY: int, y: int, x: int, c: int, w: int, sum: int)
    requires low + c * w == lowX + k * lowY && sum == (k * y + x + c) * w
    ensures low + sum == lowX + x * w + k * (lowY + y * w)
  {
    assert k * (lowY + y * w) == k * lowY + k * y * w;
    assert (k * y + x + c) * w == k * y * w + x * w + c * w;
  }

  /** A = A / b: every word moves one place down. */
  method ShiftWords(a: array<nat>)
    requires a.Length > 0
    modifies a
    ensures forall j :: 0 <= j < a.Length - 1 ==> a[j] == old(a[j + 1])
    ensures a[a.Length - 1] == old(a[a.Length - 1])
  {
    for j := 1 to a.Length
      invariant forall l :: 0 <= l < j - 1 ==> a[l] == old(a[l + 1])
      invariant forall l :: j - 1 <= l < a.Length ==> a[l] == old(a[l])
    {
      a[j - 1] := a[j];
    }
  }

  /** One iteration of the outer loop of sb_fe_mont_mult.  The total held by a and the bit hw, t before and
      t' after, is divided by the base after adding x * y and the multiple u * p. */
  method MontRound(fld: PrimeField, a: array<nat>, x: nat, y: array<nat>, hw: nat, first: bool)
    returns (hw': nat, u: nat)
    requires fld.Valid() && a !in fld.Consts() && a.Length == fld.n && a != y && fld.IsFe(y)
    requires x < fld.Base() && hw <= 1 && (first || fld.IsFe(a)) && (first ==> hw == 0)
    modifies a
    ensures fld.IsFe(a) && hw' <= 1 && u < fld.Base()
    ensures fld.Base() * (fld.V(a) + hw' * fld.R())
         == (if first then 0 else old(fld.V(a))) + hw * fld.R() + x * fld.V(y) + u * fld.m
  {
    var b := fld.Base();
    var n := fld.n;
    fld.BaseBig();
    ghost var v0 := if first then 0 else fld.V(a);
    var c := MulAddRow(a, x, y, first, b);
    ghost var v1 := fld.V(a);
    LowWord(a[..], b);
    ClearsLowWord(v1, a[0], fld.pMp, fld.m, b);
    u := Lo(a[0] * fld.pMp, b);
    var c2 := MulAddRow(a, u, fld.p, false, b);
    ghost var s := a[..];
    LowWordZero(s, c2, v1 + u * fld.m, b);
    ShiftWords(a);
    ghost var moved := a[..];
    ShiftDownWord(s, moved, b, n);
    var d: nat := hw + c + c2;
    HighWord(hw, c, c2, b);
    hw', a[n - 1] := Hi(d, b), Lo(d, b);
    ValToFrame(moved, a[..], b, n - 1);
    HighPart(ValTo(a[..], b, n - 1), hw, c, c2, a[n - 1], hw', b, n);
  }

  /** After i words of x: the number t held by the words and the high bit, scaled back up, is the product of the
      low part of x and y plus a multiple of p. */
  ghost predicate Accumulated(t: nat, b: nat, i: nat, low: nat, y: nat, mult: nat, p: nat) {
    t < 2 * p && t * Pow(b, i) == low * y + mult * p
  }

  lemma NothingAccumulated(b: nat, y: nat, p: nat)
    requires p > 0
    ensures Accumulated(0, b, 0, 0, y, 0, p)
  {
  }

  /** One more word. */
  lemma RoundAccumulates(t: nat, t': nat, x: nat, y: nat, u: nat, p: nat, b: nat, i: nat, low: nat, mult: nat)
    returns (mult': nat, low': nat)
    requires b > 1 && x < b && u < b && y <= p && b * t' == t + x * y + u * p
    requires Accumulated(t, b, i, low, y, mult, p)
    ensures low' == low + x * Pow(b, i) && Accumulated(t', b, i + 1, low', y, mult', p)
  {
    RoundBound(t, t', x, y, u, p, b);
    RoundTotal(t, t', x, y, u, p, b, i, low, mult);
    PowNat(b, i);
    ProductNonnegative(u, Pow(b, i));
    ProductNonnegative(x, Pow(b, i));
    mult', low' := mult + u * Pow(b, i), low + x * Pow(b, i);
  }

  /** A := x * y / 2^SB_FE_BITS modulo p. */
  method MontMult(fld: PrimeField, a: array<nat>, x: array<nat>, y: array<nat>)
    requires fld.Valid() && fld.IsBuffer(a) && a != x && a != y && fld.IsQrFe(x) && fld.IsQrFe(y)
    modifies a
    ensures fld.IsFe(a) && fld.V(a) == fld.F().MontMul(fld.V(x), fld.V(y))
    ensures fld.m > 0 && 1 <= fld.V(a) <= fld.m && Cong(fld.V(a) * fld.R(), fld.V(x) * fld.V(y), fld.m)
  {
    hide Field.MontMul, Accumulated;
    var b := fld.Base();
    fld.BaseBig();
    var hw := 0;
    ghost var t: nat, mult: nat, low: nat := 0, 0, 0;
    NothingAccumulated(b, fld.V(y), fld.m);
    for i := 0 to fld.n
      invariant fld.IsFe(a) && 0 <= hw <= 1
      invariant i == 0 ==> hw == 0 && t == 0
      invariant i > 0 ==> t == fld.V(a) + hw * fld.R()
      invariant low == ValTo(x[..], b, i) && Accumulated(t, b, i, low, fld.V(y), mult, fld.m)
    {
      var u;
      hw, u := MontRound(fld, a, x[i], y, hw, i == 0);
      ProductNonnegative(hw, fld.R());
      ghost var t': nat := fld.V(a) + hw * fld.R();
      mult, low := RoundAccumulates(t, t', x[i], fld.V(y), u, fld.m, b, i, low, mult);
      t := t';
    }
    AllAccumulated(fld.F(), b, fld.n, t, fld.V(x), fld.V(y), mult);
    fld.Qr(a, hw);
    ProductsMean(fld.F(), fld.V(x), fld.V(y));
  }

  lemma AllAccumulated(f: Field, b: nat, n: nat, t: nat, x: nat, y: nat, mult: nat)
    requires f.Valid() && f.IsQr(x) && f.IsQr(y) && f.radix == Pow(b, n)
    requires Accumulated(t, b, n, x, y, mult, f.m)
    ensures 0 < t < 2 * f.m && f.Qr(t) == f.MontMul(x, y)
  {
    TotalIsProduct(f, t, x, y, mult);
  }

  // ---- exponentiation ----

  /** One bit of square and multiply. */
  lemma PowerBit(f: Field, x: nat, e: nat, i: nat)
    requires f.Valid() && f.IsQr(x)
    ensures var t3 := f.MontSquare(f.MontPow(x, Prefix(e, i + 1)));
            f.MontPow(x, Prefix(e, i)) == if Bit(e, i) == 1 then f.MontMul(t3, x) else t3
  {
    var z, j := x * f.radixInv, Prefix(e, i + 1);
    var v := MontOnto(f, x);
    PrefixStep(e, i);
    PowAdd(z, j, j);
    MontTimes(f, Pow(z, j), Pow(z, j));
    assert Pow(z, 2 * j + 1) == z * Pow(z, 2 * j);
    MontTimes(f, Pow(z, 2 * j), z);
    assert Pow(z, 2 * j) * z == z * Pow(z, 2 * j);
  }

  lemma PowerStart(f: Field, x: nat)
    requires f.Valid()
    ensures f.MontPow(x, 0) == f.Qr(f.radix)
  {
    assert 1 * f.radix == f.radix;
  }

  /** x := x^(e >> eShift) in the Montgomery domain; leading zero bits of e are skipped. */
  method ModExptR(fld: PrimeField, x: array<nat>, e: array<nat>, eShift: nat, t2: array<nat>, t3: array<nat>)
    requires fld.Valid() && fld.IsBuffer(x) && fld.IsBuffer(t2) && fld.IsBuffer(t3) && fld.IsFe(e)
    requires x != e && t2 != e && t3 != e && x != t2 && x != t3 && t2 != t3
    requires fld.IsQrFe(x) && fld.V(e) < Pow2(fld.bits) && eShift <= fld.bits
    modifies x, t2, t3
    ensures fld.IsFe(x) && fld.IsFe(t2) && fld.IsFe(t3)
    ensures fld.V(x) == fld.F().MontPow(old(fld.V(x)), Prefix(fld.V(e), eShift))
  {
    hide Field.MontPow, Field.MontMul, Prefix, Pow2;
    ghost var f, v, ev := fld.F(), fld.V(x), fld.V(e);
    var begun := false;
    Copy(t2, fld.rModP);
    PowerStart(f, v);
    PrefixTop(ev, fld.bits);
    var i := fld.bits;
    while i > eShift
      invariant eShift <= i <= fld.bits
      invariant fld.IsFe(t2) && fld.IsFe(t3) && x[..] == old(x[..])
      invariant fld.V(t2) == f.MontPow(v, Prefix(ev, i))
      invariant !begun ==> Prefix(ev, i) == 0
    {
      i := i - 1;
      PowerBit(f, v, ev, i);
      PrefixStep(ev, i);
      var b := TestBit(e, i, fld.w);
      if !begun {
        if b == 1 {
          begun := true;
        } else {
          continue;
        }
      }
      SquareAndMultiply(fld, x, b, t2, t3);
    }
    Copy(x, t2);
  }

  /** t2 := t2^2, times x for a set bit. */
  method SquareAndMultiply(fld: PrimeField, x: array<nat>, b: nat, t2: array<nat>, t3: array<nat>)
    requires fld.Valid() && fld.IsBuffer(t2) && fld.IsBuffer(t3) && x != t2 && x != t3 && t2 != t3
    requires fld.IsQrFe(x) && fld.IsQrFe(t2)
    modifies t2, t3
    ensures fld.IsFe(t2) && fld.IsFe(t3)
    ensures var sq := fld.F().MontSquare(old(fld.V(t2)));
            fld.V(t2) == if b == 1 then fld.F().MontMul(sq, fld.V(x)) else sq
  {
    hide Field.MontMul;
    MontMult(fld, t3, t2, t2);
    if b == 1 {
      MontMult(fld, t2, t3, x);
    } else {
      Copy(t2, t3);
    }
  }

  /** dest := 1 / dest in the Montgomery domain, as (dest^f1)^f2 with f1 * f2 = p - 2. */
  method ModInvR(fld: PrimeField, dest: array<nat>, t2: array<nat>, t3: array<nat>)
    requires fld.Valid() && fld.IsBuffer(dest) && fld.IsBuffer(t2) && fld.IsBuffer(t3)
    requires dest != t2 && dest != t3 && t2 != t3 && fld.IsQrFe(dest)
    modifies dest, t2, t3
    ensures fld.IsFe(dest) && fld.IsFe(t2) && fld.IsFe(t3)
    ensures fld.V(dest) == fld.F().MontInv(old(fld.V(dest)))
  {
    hide Field.MontPow, Field.MontInv, Prefix;
    InTwoSteps(fld.F(), fld.V(dest), fld.f1, fld.f2);
    PrefixZero(fld.f1);
    PrefixZero(fld.f2);
    ModExptR(fld, dest, fld.pMinusTwoF1, 0, t2, t3);
    ModExptR(fld, dest, fld.pMinusTwoF2, 0, t2, t3);
  }

  lemma InTwoSteps(f: Field, v: nat, f1: nat, f2: nat)
    requires f.Valid() && f1 * f2 == f.m - 2
    ensures f.MontPow(f.MontPow(v, f1), f2) == f.MontInv(v)
  {
    PowMul(v * f.radixInv, f1, f2);
    MontPowered(f, Pow(v * f.radixInv, f1), f2);
  }

  // ---- square roots ----

  ghost predicate IsRoot(y: int, v: int, m: nat)
    requires m > 0
  {
    Cong(y * y, v, m)
  }

  ghost predicate IsSquare(v: int, m: nat)
    requires m > 0
  {
    exists y :: IsRoot(y, v, m)
  }

  /** For a prime m = 3 mod 4 the power (m + 1) / 4 is a square root exactly when there is one. */
  lemma RootPower(v: int, m: nat)
    requires IsPrime(m) && m % 4 == 3
    ensures IsRoot(Pow(v, (m + 1) / 4), v, m) <==> IsSquare(v, m)
  {
    var h := (m + 1) / 4;
    var s := Pow(v, h);
    if exists y :: IsRoot(y, v, m) {
      var y :| IsRoot(y, v, m);
      PowAdd(v, h, h);
      assert h + h == (m - 1) / 2 + 1;
      if v % m == 0 {
        SmallMod(0, m);
        PowCong(v, 0, h, m);
        PowZero(h);
        CongMul(s, 0, s, 0, m);
      } else {
        EulerOfSquare(y, v, m);
      }
    }
  }

  /** Euler's criterion, for a square with the given root. */
  lemma EulerOfSquare(y: int, v: int, m: nat)
    requires IsPrime(m) && m % 4 == 3 && IsRoot(y, v, m) && v % m != 0
    ensures Cong(Pow(v, (m - 1) / 2 + 1), v, m)
  {
    var k := (m - 1) / 2;
    if y % m == 0 {
      SmallMod(0, m);
      CongMul(y, 0, y, 0, m);
    }
    PowCong(y * y, v, k, m);
    PowProduct(y, y, k);
    PowAdd(y, k, k);
    Fermat(y, m);
    CongMul(Pow(v, k), 1, v, v, m);
    assert Pow(v, k + 1) == Pow(v, k) * v;
  }

  predicate AllDifferent(a: array<nat>, b: array<nat>, c: array<nat>, d: array<nat>, e: array<nat>) {
    a != b && a != c && a != d && a != e && b != c && b != d && b != e && c != d && c != e && d != e
  }

  /** sb_fe_mod_sqrt_r: x := x^((p + 1) / 4); true when that squares to the input. */
  method ModSqrtR(fld: PrimeField, x: array<nat>, t1: array<nat>, t2: array<nat>, t3: array<nat>, t4: array<nat>)
    returns (r: bool)
    requires fld.Valid() && fld.IsQrFe(x)
    requires fld.IsBuffer(x) && fld.IsBuffer(t1) && fld.IsBuffer(t2) && fld.IsBuffer(t3) && fld.IsBuffer(t4)
    requires AllDifferent(x, t1, t2, t3, t4)
    modifies x, t1, t2, t3, t4
    ensures fld.IsFe(x) && fld.IsFe(t1) && fld.IsFe(t2) && fld.IsFe(t3) && fld.IsFe(t4)
    ensures fld.V(x) == if fld.m % 4 == 3
                        then fld.F().MontPow(old(fld.V(x)), (fld.m + 1) / 4) else old(fld.V(x))
    ensures r <==> fld.m % 4 == 3 && fld.F().MontSquare(fld.V(x)) == old(fld.V(x))
  {
    hide Field.MontPow, Field.MontMul;
    fld.BaseBig();
    LowTwoBits(fld.p[..], fld.w);
    if fld.p[0] % 4 != 3 {
      return false;
    }
    PPlusOne(fld, t1);
    Copy(t4, x);
    ModExptR(fld, x, t1, 2, t2, t3);
    MontMult(fld, t3, x, x);
    var same := Equal(t3, t4, fld.Base());
    r := same == 1;
  }

  lemma LowTwoBits(s: seq<nat>, w: nat)
    requires |s| > 0 && w >= 2 && IsWords(s, Pow2(w))
    ensures s[0] % 4 == Val(s, Pow2(w)) % 4
  {
    assert Pow2(w) == 4 * Pow2(w - 2);
    LowWord(s, Pow2(w));
    ModFour(Val(s, Pow2(w)), Pow2(w - 2));
  }

  lemma ModFour(m: nat, c: nat)
    requires c > 0
    ensures (m % (4 * c)) % 4 == m % 4
  {
    var q, r := m / (4 * c), m % (4 * c);
    assert m == r + (q * c) * 4 by {
      assert q * (4 * c) == (q * c) * 4;
    }
    AddMultiple(r, q * c, 4);
  }

  lemma SumFits(fld: PrimeField, a: array<nat>, carry: nat)
    requires fld.Sound() && fld.IsFe(a) && carry <= 1 && fld.V(a) + carry * fld.R() == fld.m + 1
    ensures fld.V(a) == fld.m + 1
  {
    fld.BaseBig();
    ValToBound(a[..], fld.Base(), fld.n);
    Pow2Monotone(fld.bits, fld.w * fld.n);
    Pow2IsPow(fld.w);
    Pow2IsPow(fld.w * fld.n);
    PowMul(2, fld.w, fld.n);
  }

  /** t1 := p + 1; the carry is dropped. */
  method PPlusOne(fld: PrimeField, t1: array<nat>)
    requires fld.Valid() && fld.IsBuffer(t1)
    modifies t1
    ensures fld.IsFe(t1) && fld.V(t1) == fld.m + 1
  {
    fld.BaseBig();
    Copy(t1, fld.p);
    var carry := Add(t1, t1, fld.one, fld.Base());
    SumFits(fld, t1, carry);
  }

  /** sb_fe_mod_sqrt: replace x by a square root of x; true exactly when x is a square (and p = 3 mod 4). */
  method ModSqrt(fld: PrimeField, x: array<nat>, t1: array<nat>, t2: array<nat>, t3: array<nat>, t4: array<nat>)
    returns (r: bool)
    requires fld.Valid() && fld.IsQrFe(x)
    requires fld.IsBuffer(x) && fld.IsBuffer(t1) && fld.IsBuffer(t2) && fld.IsBuffer(t3) && fld.IsBuffer(t4)
    requires AllDifferent(x, t1, t2, t3, t4)
    modifies x, t1, t2, t3, t4
    ensures fld.IsQrFe(x)
    ensures fld.m % 4 == 3 ==> fld.V(x) == fld.F().Qr(Pow(old(fld.V(x)), (fld.m + 1) / 4))
    ensures r <==> fld.m % 4 == 3 && IsSquare(old(fld.V(x)), fld.m)
    ensures r ==> IsRoot(fld.V(x), old(fld.V(x)), fld.m)
  {
    ghost var f, v := fld.F(), fld.V(x);
    MontConverted(f, v);
    MontMult(fld, t4, x, fld.r2ModP);
    Copy(x, t4);
    r := ModSqrtR(fld, x, t1, t2, t3, t4);
    MontMult(fld, t4, x, fld.one);
    Copy(x, t4);
    SqrtMeaning(f, v);
  }

  /** The Montgomery-domain test of the square root, on plain values. */
  lemma SqrtMeaning(f: Field, v: nat)
    requires f.Valid()
    ensures f.MontReduce(f.Mont(v)) == f.Qr(v)
    ensures f.m % 4 == 3 ==>
              && f.MontReduce(f.MontPow(f.Mont(v), (f.m + 1) / 4)) == f.Qr(Pow(v, (f.m + 1) / 4))
              && (f.MontSquare(f.MontPow(f.Mont(v), (f.m + 1) / 4)) == f.Mont(v) <==> IsSquare(v, f.m))
              && (IsSquare(v, f.m) ==> IsRoot(f.Qr(Pow(v, (f.m + 1) / 4)), v, f.m))
  {
    MontReduced(f, v);
    if f.m % 4 == 3 {
      var s := Pow(v, (f.m + 1) / 4);
      MontPowered(f, v, (f.m + 1) / 4);
      MontReduced(f, s);
      MontTimes(f, s, s);
      MontEqual(f, s * s, v);
      RootPower(v, f.m);
      CongMul(f.Qr(s), s, f.Qr(s), s, f.m);
    }
  }
}
