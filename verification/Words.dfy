/** Multi-word naturals: arrays of words of base b, least significant word first, and the
    carry and borrow loops that work on them in place. */
module Words {
  import opened ModArith

  // ---- the number a word sequence stands for ----

  /** The value of the lowest n words of s. */
  ghost function ValTo(s: seq<nat>, b: nat, n: nat): nat
    requires n <= |s|
  {
    if n == 0 then 0 else
      PowNat(b, n - 1);
      ValTo(s, b, n - 1) + s[n - 1] * Pow(b, n - 1)
  }

  ghost function Val(s: seq<nat>, b: nat): nat {
    ValTo(s, b, |s|)
  }

  /** An array of n words of base b. */
  ghost predicate Fe(a: array<nat>, b: nat, n: nat)
    reads a
  {
    a.Length == n && IsWords(a[..], b)
  }

  ghost predicate IsWords(s: seq<nat>, b: nat) {
    forall i :: 0 <= i < |s| ==> s[i] < b
  }

  lemma {:induction false} PowNat(b: nat, e: nat)
    ensures Pow(b, e) >= 0
  {
    if e > 0 {
      PowNat(b, e - 1);
    }
  }

  /** The lowest n words determine the value. */
  lemma {:induction false} ValToFrame(s: seq<nat>, t: seq<nat>, b: nat, n: nat)
    requires n <= |s| && n <= |t|
    requires forall i :: 0 <= i < n ==> s[i] == t[i]
    ensures ValTo(s, b, n) == ValTo(t, b, n)
  {
    if n > 0 {
      ValToFrame(s, t, b, n - 1);
    }
  }

  lemma {:induction false} ValToZero(s: seq<nat>, b: nat, n: nat)
    requires n <= |s| && forall i :: 0 <= i < n ==> s[i] == 0
    ensures ValTo(s, b, n) == 0
  {
    if n > 0 {
      ValToZero(s, b, n - 1);
    }
  }

  lemma {:induction false} ValToBound(s: seq<nat>, b: nat, n: nat)
    requires n <= |s| && b > 0 && IsWords(s, b)
    ensures ValTo(s, b, n) < Pow(b, n)
  {
    if n > 0 {
      ValToBound(s, b, n - 1);
      PowPositive(b, n - 1);
      MulMonotone(s[n - 1], b - 1, Pow(b, n - 1));
      assert (b - 1) * Pow(b, n - 1) == b * Pow(b, n - 1) - Pow(b, n - 1);
    }
  }

  /** Equal values of equally many words have equal words. */
  lemma {:induction false} ValToInjective(s: seq<nat>, t: seq<nat>, b: nat, n: nat)
    requires n <= |s| && n <= |t| && b > 0 && IsWords(s, b) && IsWords(t, b)
    requires ValTo(s, b, n) == ValTo(t, b, n)
    ensures forall i :: 0 <= i < n ==> s[i] == t[i]
  {
    if n > 0 {
      var w := Pow(b, n - 1);
      ValToBound(s, b, n - 1);
      ValToBound(t, b, n - 1);
      DivModUnique(ValTo(s, b, n), s[n - 1], ValTo(s, b, n - 1), w);
      DivModUnique(ValTo(s, b, n), t[n - 1], ValTo(t, b, n - 1), w);
      ValToInjective(s, t, b, n - 1);
    }
  }

  // ---- one word of a carry or borrow chain ----

  /** The low and the high word of a double word. */
  function Lo(t: nat, b: nat): nat
    requires b > 0
  {
    t % b
  }

  function Hi(t: nat, b: nat): nat
    requires b > 0
  {
    t / b
  }

  /** The sum of two words and a carry splits into a word and a carry. */
  lemma CarryAtMostOne(d: nat, b: nat)
    requires b > 1 && d < 2 * b
    ensures Lo(d, b) < b && Hi(d, b) <= 1 && d == Lo(d, b) + Hi(d, b) * b
  {
    var c := if d < b then 0 else 1;
    DivModUnique(d, c, d - c * b, b);
  }

  /** One word of an addition: what it adds at weight b^i is its low word plus the carry into weight b^(i + 1). */
  lemma AddChain(l: int, r: int, c: int, d: int, out: int, b: nat, i: nat)
    requires l + r + c == d + out * b
    ensures l * Pow(b, i) + r * Pow(b, i) + c * Pow(b, i) == d * Pow(b, i) + out * Pow(b, i + 1)
  {
    var w := Pow(b, i);
    assert (l + r + c) * w == l * w + r * w + c * w;
    assert (d + out * b) * w == d * w + out * (b * w);
  }

  /** One word of a subtraction. */
  lemma SubChain(l: int, r: int, c: int, d: int, out: int, b: nat, i: nat)
    requires l - r - c == d - out * b
    ensures l * Pow(b, i) - r * Pow(b, i) - c * Pow(b, i) == d * Pow(b, i) - out * Pow(b, i + 1)
  {
    var w := Pow(b, i);
    assert (l - r - c) * w == l * w - r * w - c * w;
    assert (d - out * b) * w == d * w - out * (b * w);
  }

  /** The radix b^n of an n-word number. */
  ghost function Radix(b: nat, n: nat): (r: nat)
    requires b > 0
    ensures r > 0
  {
    PowPositive(b, n);
    Pow(b, n)
  }

  /** The double-word subtraction of the source: the difference wraps modulo b^2, and its high word
      negated is the outgoing borrow. */
  function BorrowWord(l: nat, r: nat, borrow: nat, b: nat): (res: (nat, nat))
    requires b > 1 && l < b && r < b && borrow <= 1
    ensures res.0 < b && res.1 <= 1
    ensures l - r - borrow == res.0 - res.1 * b
  {
    var d := (l - (r + borrow)) % (b * b);
    BorrowWraps(l, r, borrow, b);
    (d % b, (-(d / b)) % b)
  }

  lemma BorrowWraps(l: nat, r: nat, borrow: nat, b: nat)
    requires b > 1 && l < b && r < b && borrow <= 1
    ensures b * b > 0
    ensures var d := (l - (r + borrow)) % (b * b);
            if l >= r + borrow
            then d % b == l - r - borrow && (-(d / b)) % b == 0
            else d % b == b + l - r - borrow && (-(d / b)) % b == 1
  {
    MulMonotone(1, b, b);
    var x := l - (r + borrow);
    if x >= 0 {
      SmallMod(x, b * b);
      DivModUnique(x, 0, x, b);
      SmallMod(0, b);
    } else {
      var d := b * b + x;
      MulMonotone(2, b, b);
      DivModUnique(x, -1, d, b * b);
      DivModUnique(d, b - 1, b + x, b);
      DivModUnique(-(b - 1), -1, 1, b);
    }
  }

  /** sb_ctc_word: c selects between the two words. */
  function Choose(c: nat, x: nat, y: nat): nat {
    if c == 1 then y else x
  }

  // ---- whole numbers ----

  /** dest := left + right; dest may be left or right.  The carry is returned. */
  method Add(dest: array<nat>, left: array<nat>, right: array<nat>, b: nat) returns (carry: nat)
    requires b > 1 && Fe(dest, b, dest.Length) && Fe(left, b, dest.Length) && Fe(right, b, dest.Length)
    modifies dest
    ensures Fe(dest, b, dest.Length) && carry <= 1
    ensures Val(dest[..], b) + carry * Pow(b, dest.Length) == old(Val(left[..], b) + Val(right[..], b))
  {
    var n := dest.Length;
    ghost var l, r := left[..], right[..];
    carry := 0;
    for i := 0 to n
      invariant carry <= 1 && IsWords(dest[..], b)
      invariant ValTo(dest[..], b, i) + carry * Pow(b, i) == ValTo(l, b, i) + ValTo(r, b, i)
      invariant forall j :: i <= j < n ==> left[j] == l[j] && right[j] == r[j]
    {
      ghost var before := dest[..];
      ghost var c0 := carry;
      var d: nat := left[i] + right[i] + carry;
      dest[i] := Lo(d, b);
      carry := Hi(d, b);
      CarryAtMostOne(d, b);
      ValToFrame(before, dest[..], b, i);
      AddChain(l[i], r[i], c0, Lo(d, b), carry, b, i);
    }
  }

  /** dest := left - right - borrow; dest may be left or right.  The outgoing borrow is returned. */
  method SubBorrow(dest: array<nat>, left: array<nat>, right: array<nat>, borrowIn: nat, b: nat)
    returns (borrow: nat)
    requires b > 1 && Fe(dest, b, dest.Length) && Fe(left, b, dest.Length) && Fe(right, b, dest.Length)
    requires borrowIn <= 1
    modifies dest
    ensures Fe(dest, b, dest.Length) && borrow <= 1
    ensures Val(dest[..], b) - borrow * Pow(b, dest.Length) == old(Val(left[..], b) - Val(right[..], b)) - borrowIn
  {
    var n := dest.Length;
    ghost var l, r := left[..], right[..];
    borrow := borrowIn;
    for i := 0 to n
      invariant borrow <= 1 && IsWords(dest[..], b)
      invariant ValTo(dest[..], b, i) - borrow * Pow(b, i) == ValTo(l, b, i) - ValTo(r, b, i) - borrowIn
      invariant forall j :: i <= j < n ==> left[j] == l[j] && right[j] == r[j]
    {
      ghost var before := dest[..];
      ghost var c0 := borrow;
      var (d, out) := BorrowWord(left[i], right[i], borrow, b);
      dest[i] := d;
      borrow := out;
      ValToFrame(before, dest[..], b, i);
      SubChain(l[i], r[i], c0, d, out, b, i);
    }
  }

  /** The borrow out of left - right, that is whether left is the smaller number. */
  method Lt(left: array<nat>, right: array<nat>, b: nat) returns (borrow: nat)
    requires b > 1 && Fe(left, b, left.Length) && Fe(right, b, left.Length)
    ensures borrow == if Val(left[..], b) < Val(right[..], b) then 1 else 0
  {
    var n := left.Length;
    borrow := 0;
    ghost var diff: nat := 0;
    for i := 0 to n
      invariant borrow <= 1 && diff < Pow(b, i)
      invariant diff - borrow * Pow(b, i) == ValTo(left[..], b, i) - ValTo(right[..], b, i)
    {
      ghost var c0 := borrow;
      var (d, out) := BorrowWord(left[i], right[i], borrow, b);
      borrow := out;
      PowPositive(b, i);
      SubChain(left[i], right[i], c0, d, out, b, i);
      MulMonotone(d, b - 1, Pow(b, i));
      assert (b - 1) * Pow(b, i) == Pow(b, i + 1) - Pow(b, i);
      diff := diff + d * Pow(b, i);
    }
  }

  method Equal(left: array<nat>, right: array<nat>, b: nat) returns (r: nat)
    requires b > 1 && Fe(left, b, left.Length) && Fe(right, b, left.Length)
    ensures r == if Val(left[..], b) == Val(right[..], b) then 1 else 0
  {
    var differ := false;
    for i := 0 to left.Length
      invariant differ <==> left[..i] != right[..i]
    {
      assert left[..i + 1] == left[..i] + [left[i]] && right[..i + 1] == right[..i] + [right[i]];
      differ := differ || left[i] != right[i];
    }
    assert left[..left.Length] == left[..] && right[..right.Length] == right[..];
    if Val(left[..], b) == Val(right[..], b) {
      ValToInjective(left[..], right[..], b, left.Length);
    }
    r := if differ then 0 else 1;
  }

  /** Subtract p from dest if c is 1; the difference is computed either way. */
  method CondSubP(dest: array<nat>, c: nat, p: array<nat>, b: nat)
    requires b > 1 && Fe(dest, b, dest.Length) && Fe(p, b, dest.Length) && dest != p && c <= 1
    modifies dest
    ensures Fe(dest, b, dest.Length)
    ensures c == 0 ==> dest[..] == old(dest[..])
    ensures c == 1 ==> Val(dest[..], b) == (old(Val(dest[..], b)) - Val(p[..], b)) % Radix(b, dest.Length)
  {
    hide BorrowWord, Pow;
    var n := dest.Length;
    ghost var l, r := dest[..], p[..];
    var borrow: nat := 0;
    for i := 0 to n
      invariant borrow <= 1 && IsWords(dest[..], b)
      invariant c == 0 ==> dest[..] == l
      invariant c == 1 ==> ValTo(dest[..], b, i) - borrow * Pow(b, i) == ValTo(l, b, i) - ValTo(r, b, i)
      invariant forall j :: i <= j < n ==> dest[j] == l[j]
    {
      ghost var before := dest[..];
      ghost var c0 := borrow;
      var (d, out) := BorrowWord(dest[i], p[i], borrow, b);
      dest[i] := Choose(c, dest[i], d);
      borrow := out;
      ValToFrame(before, dest[..], b, i);
      SubChain(l[i], r[i], c0, d, out, b, i);
    }
    ValToBound(dest[..], b, n);
    if c == 1 {
      DivModUnique(Val(l, b) - Val(r, b), 0 - borrow, Val(dest[..], b), Radix(b, n));
    }
  }

  /** Add p + 1 to dest if c is 1, and 1 otherwise. */
  method CondAddP1(dest: array<nat>, c: nat, p: array<nat>, b: nat)
    requires b > 1 && Fe(dest, b, dest.Length) && Fe(p, b, dest.Length) && dest != p && c <= 1
    modifies dest
    ensures Fe(dest, b, dest.Length)
    ensures Val(dest[..], b)
         == (old(Val(dest[..], b)) + (if c == 1 then Val(p[..], b) else 0) + 1) % Radix(b, dest.Length)
  {
    hide Lo, Hi;
    var n := dest.Length;
    ghost var l := dest[..];
    ghost var r := seq(n, j requires 0 <= j < n reads p => Choose(c, 0, p[j]));
    if c == 0 {
      ValToZero(r, b, n);
    } else {
      assert r == p[..];
    }
    var carry: nat := 1;
    for i := 0 to n
      invariant carry <= 1 && IsWords(dest[..], b)
      invariant ValTo(dest[..], b, i) + carry * Pow(b, i) == ValTo(l, b, i) + ValTo(r, b, i) + 1
      invariant forall j :: i <= j < n ==> dest[j] == l[j]
    {
      ghost var before := dest[..];
      ghost var c0 := carry;
      var d: nat := dest[i] + Choose(c, 0, p[i]) + carry;
      dest[i] := Lo(d, b);
      carry := Hi(d, b);
      CarryAtMostOne(d, b);
      ValToFrame(before, dest[..], b, i);
      AddChain(l[i], r[i], c0, Lo(d, b), carry, b, i);
    }
    ValToBound(dest[..], b, n);
    DivModUnique(Val(l, b) + Val(r, b) + 1, carry, Val(dest[..], b), Radix(b, n));
  }

  /** Swap the two numbers if c is 1. */
  method CtSwap(c: nat, x: array<nat>, y: array<nat>)
    requires x.Length == y.Length && x != y && c <= 1
    modifies x, y
    ensures c == 0 ==> x[..] == old(x[..]) && y[..] == old(y[..])
    ensures c == 1 ==> x[..] == old(y[..]) && y[..] == old(x[..])
  {
    ghost var u, v := x[..], y[..];
    for i := 0 to x.Length
      invariant forall j :: i <= j < x.Length ==> x[j] == u[j] && y[j] == v[j]
      invariant forall j :: 0 <= j < i ==> x[j] == Choose(c, u[j], v[j]) && y[j] == Choose(c, v[j], u[j])
    {
      var t := Choose(c, x[i], y[i]);
      y[i] := Choose(c, y[i], x[i]);
      x[i] := t;
    }
  }

  /** *dest = *src. */
  method Copy(dest: array<nat>, src: array<nat>)
    requires dest.Length == src.Length
    modifies dest
    ensures dest[..] == old(src[..])
  {
    ghost var s := src[..];
    for i := 0 to dest.Length
      invariant forall j :: 0 <= j < i ==> dest[j] == s[j]
      invariant forall j :: i <= j < dest.Length ==> src[j] == s[j]
    {
      dest[i] := src[i];
    }
  }

  // ---- right shift ----

  function Shr(x: nat, k: nat): nat
    requires k > 0
  {
    x / k
  }

  /** The bits a word hands down to the next lower word when it is shifted right by a factor of k. */
  ghost function ShiftOut(x: nat, b: nat, k: nat): nat
    requires k > 0
  {
    (x % k) * (b / k)
  }

  /** Word j of s shifted right by a factor of k. */
  ghost function ShiftedWord(s: seq<nat>, b: nat, k: nat, j: nat): nat
    requires j < |s| && k > 0
  {
    Shr(s[j], k) + if j + 1 < |s| then ShiftOut(s[j + 1], b, k) else 0
  }

  lemma {:induction false} ShiftedValue(s: seq<nat>, t: seq<nat>, b: nat, k: nat, i: nat)
    requires k > 0 && b % k == 0 && |s| == |t| > 0 && i <= |s|
    requires forall j :: 0 <= j < |s| ==> t[j] == ShiftedWord(s, b, k, j)
    ensures k * ValTo(t, b, i) + s[0] % k == ValTo(s, b, i) + (if i < |s| then s[i] % k else 0) * Pow(b, i)
  {
    if i > 0 {
      ShiftedValue(s, t, b, k, i - 1);
      var up := if i < |s| then s[i] % k else 0;
      assert t[i - 1] == Shr(s[i - 1], k) + up * (b / k);
      ShiftedTerm(s[i - 1], up, b, k, Pow(b, i - 1), ValTo(t, b, i - 1));
    }
  }

  lemma ShiftedTerm(x: nat, up: nat, b: nat, k: nat, w: int, lower: int)
    requires k > 0 && b % k == 0
    ensures k * (lower + (x / k + up * (b / k)) * w) == k * lower + x * w - (x % k) * w + up * (b * w)
  {
    var q, c := x / k, b / k;
    assert x == k * q + x % k && b == k * c;
    calc {
      k * (lower + (q + up * c) * w);
      k * lower + k * ((q + up * c) * w);
      k * lower + (k * q) * w + up * ((k * c) * w);
    }
    assert (x - x % k) * w == x * w - (x % k) * w;
  }

  lemma ShiftedQuotient(s: seq<nat>, t: seq<nat>, b: nat, k: nat)
    requires k > 0 && b % k == 0 && |s| == |t| > 0
    requires forall j :: 0 <= j < |s| ==> t[j] == ShiftedWord(s, b, k, j)
    ensures Val(t, b) == Val(s, b) / k
  {
    ShiftedValue(s, t, b, k, |s|);
    assert 0 * Pow(b, |s|) == 0;
    DivModUnique(Val(s, b), Val(t, b), s[0] % k, k);
  }

  /** Shift right by a factor of k, a power of two below the word base, from the top word down. */
  method RshiftW(a: array<nat>, k: nat, b: nat)
    requires b > 1 && k > 0 && b % k == 0 && a.Length > 0 && Fe(a, b, a.Length)
    modifies a
    ensures Fe(a, b, a.Length)
    ensures Val(a[..], b) == old(Val(a[..], b)) / k
  {
    ghost var s := a[..];
    var n := a.Length;
    var carry: nat := 0;
    var i := n;
    while i > 0
      invariant 0 <= i <= n
      invariant carry == if i < n then ShiftOut(s[i], b, k) else 0
      invariant forall j :: 0 <= j < i ==> a[j] == s[j]
      invariant forall j :: i <= j < n ==> a[j] == ShiftedWord(s, b, k, j)
    {
      i := i - 1;
      var word := a[i];
      CarryWord(word, b, k);
      a[i] := Shr(word, k) + carry;
      carry := (word * (b / k)) % b;
    }
    forall j | 0 <= j < n
      ensures a[j] < b
    {
      ShiftedBound(s, b, k, j);
    }
    ShiftedQuotient(s, a[..], b, k);
  }

  lemma CarryWord(x: nat, b: nat, k: nat)
    requires k > 0 && b > 0 && b % k == 0
    ensures (x * (b / k)) % b == ShiftOut(x, b, k)
  {
    var c := b / k;
    assert b == k * c;
    assert x * c == (x / k) * b + (x % k) * c by {
      assert x == (x / k) * k + x % k;
      assert ((x / k) * k) * c == (x / k) * (k * c);
    }
    MulMonotone(x % k, k - 1, c);
    MulMonotone(0, x % k, c);
    assert (k - 1) * c == b - c;
    assert c > 0;
    DivModUnique(x * c, x / k, (x % k) * c, b);
  }

  lemma ShiftedBound(s: seq<nat>, b: nat, k: nat, j: nat)
    requires k > 0 && b > 0 && b % k == 0 && j < |s| && IsWords(s, b)
    ensures ShiftedWord(s, b, k, j) < b
  {
    var up := if j + 1 < |s| then s[j + 1] % k else 0;
    assert 0 * (b / k) == 0;
    QuotientBound(s[j], up, b, k, b / k);
  }

  lemma QuotientBound(x: nat, up: nat, b: nat, k: nat, c: nat)
    requires k > 0 && b == k * c && x < b && up < k
    ensures x / k + up * c < b
  {
    if x / k >= c {
      MulMonotone(c, x / k, k);
    }
    MulMonotone(up, k - 1, c);
    assert (k - 1) * c == b - c;
  }

  // ---- single bits ----

  lemma {:induction false} ValToSplit(s: seq<nat>, b: nat, i: nat, n: nat) returns (hi: nat)
    requires i < n <= |s| && b > 0
    ensures ValTo(s, b, n) == ValTo(s, b, i) + (s[i] + hi * b) * Pow(b, i)
    decreases n
  {
    if n == i + 1 {
      hi := 0;
    } else {
      var h := ValToSplit(s, b, i, n - 1);
      PowNat(b, n - 2 - i);
      hi := h + s[n - 1] * Pow(b, n - 2 - i);
      PowAdd(b, n - 2 - i, i + 1);
      var u := Pow(b, n - 2 - i);
      HighTerm(s[i], h, s[n - 1], u, b, Pow(b, i));
    }
  }

  lemma HighTerm(x: int, h: int, y: int, u: int, b: int, w: int)
    ensures (x + (h + y * u) * b) * w == (x + h * b) * w + y * (u * (b * w))
  {
    assert (h + y * u) * b == h * b + (y * u) * b;
    assert ((y * u) * b) * w == y * (u * (b * w));
    assert (x + h * b + (y * u) * b) * w == (x + h * b) * w + ((y * u) * b) * w;
  }

  /** A bit of a number is a bit of one of its words. */
  lemma BitOfWord(s: seq<nat>, w: nat, i: nat, j: nat)
    requires i < |s| && j < w && IsWords(s, Pow2(w))
    ensures Bit(Val(s, Pow2(w)), w * i + j) == (s[i] / Pow2(j)) % 2
  {
    var b := Pow2(w);
    var hi := ValToSplit(s, b, i, |s|);
    ValToBound(s, b, i);
    Pow2IsPow(w);
    PowMul(2, w, i);
    Pow2IsPow(w * i);
    DivModUnique(Val(s, b), s[i] + hi * b, ValTo(s, b, i), Pow(b, i));
    Pow2Add(w * i, j);
    DivDiv(Val(s, b), Pow2(w * i), Pow2(j));
    BitBelow(s[i], hi, w, j);
  }

  /** Adding a multiple of 2^w does not change a bit below position w. */
  lemma BitBelow(x: nat, hi: nat, w: nat, j: nat)
    requires j < w
    ensures ((x + hi * Pow2(w)) / Pow2(j)) % 2 == (x / Pow2(j)) % 2
  {
    Pow2Add(w - j - 1, j + 1);
    EvenQuotient(x, hi, Pow2(w - j - 1), Pow2(j));
  }

  /** A position lies in one word. */
  lemma InWord(bit: nat, w: nat, i: nat)
    requires w > 0
    ensures i * w <= bit <= i * w + w - 1 <==> i == bit / w
  {
    if i * w <= bit <= i * w + w - 1 {
      DivModUnique(bit, i, bit - i * w, w);
    }
    if i == bit / w {
      assert bit == i * w + bit % w;
    }
  }

  /** The bit of a at the given position, for words of w bits.  Every word is looked at; only the one
      whose bit range holds the position contributes. */
  method TestBit(a: array<nat>, bit: nat, w: nat) returns (r: nat)
    requires w > 0 && Fe(a, Pow2(w), a.Length) && bit < w * a.Length
    ensures r == Bit(Val(a[..], Pow2(w)), bit)
  {
    hide Bit, Val, Pow2;
    var acc := 0;
    var wordBit := bit % w;
    for i := 0 to a.Length
      invariant i <= bit / w ==> acc == 0
      invariant i > bit / w ==> bit / w < a.Length && acc == a[bit / w] / Pow2(wordBit)
    {
      var l := i * w;
      var h := l + w - 1;
      var we := a[i] / Pow2(wordBit);
      InWord(bit, w, i);
      if l <= bit && bit <= h {
        acc := we;
      }
    }
    assert bit / w < a.Length by {
      if bit / w >= a.Length { MulMonotone(a.Length, bit / w, w); }
    }
    BitOfWord(a[..], w, bit / w, wordBit);
    assert w * (bit / w) + wordBit == bit;
    r := acc % 2;
  }
}
