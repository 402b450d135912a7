/** sb_fe.c: conversion between numbers of several words and byte strings in either byte order. */
module FieldBytes {
  import opened ModArith
  import opened Bytes
  import opened Words

  // ---- byte strings and numbers ----

  /** The number v in n bytes, most significant byte first. */
  function BigEndian(v: nat, n: nat): (s: seq<byte>)
    ensures |s| == n
  {
    if n == 0 then [] else BigEndian(v / 256, n - 1) + [ByteOf(v)]
  }

  function FromBigEndian(s: seq<byte>): nat {
    if s == [] then 0 else 256 * FromBigEndian(s[..|s| - 1]) + ValueOf(s[|s| - 1])
  }

  function Reverse(s: seq<byte>): (r: seq<byte>)
    ensures |r| == |s|
  {
    seq(|s|, i requires 0 <= i < |s| => s[|s| - 1 - i])
  }

  /** The bytes most significant first, or the other way around. */
  function Ordered(s: seq<byte>, little: bool): (r: seq<byte>)
    ensures |r| == |s|
  {
    if little then Reverse(s) else s
  }

  /** The number that a byte string stands for in either byte order. */
  function Number(s: seq<byte>, little: bool): nat {
    FromBigEndian(Ordered(s, little))
  }

  /** The number v in n bytes in either byte order. */
  function BytesOf(v: nat, n: nat, little: bool): (s: seq<byte>)
    ensures |s| == n
  {
    Ordered(BigEndian(v, n), little)
  }

  lemma ReverseTwice(s: seq<byte>)
    ensures Reverse(Reverse(s)) == s
  {
  }

  lemma {:induction false} FromBigEndianOf(v: nat, n: nat)
    requires v < Pow(256, n)
    ensures FromBigEndian(BigEndian(v, n)) == v
  {
    hide ValueOf, ByteOf;
    if n > 0 {
      PowPositive(256, n - 1);
      FromBigEndianOf(v / 256, n - 1);
      assert BigEndian(v, n)[..n - 1] == BigEndian(v / 256, n - 1);
      ValueOfByte(v);
    }
  }

  lemma {:induction false} FromBigEndianInjective(s: seq<byte>, t: seq<byte>)
    requires |s| == |t| && FromBigEndian(s) == FromBigEndian(t)
    ensures s == t
  {
    hide ValueOf;
    if s != [] {
      var a, b := s[..|s| - 1], t[..|t| - 1];
      LastDigit(FromBigEndian(a), FromBigEndian(b), ValueOf(s[|s| - 1]), ValueOf(t[|t| - 1]));
      ValueInjective(s[|s| - 1], t[|t| - 1]);
      FromBigEndianInjective(a, b);
      assert s == a + [s[|s| - 1]] && t == b + [t[|t| - 1]];
    }
  }

  /** Bytes are digits to the base 256: the last one is the lowest in big-endian order, the first one in
      little-endian order. */
  lemma NumberDigits(s: seq<byte>, b: byte)
    ensures Number([], false) == 0 && Number([], true) == 0
    ensures Number(s + [b], false) == 256 * Number(s, false) + b as nat
    ensures Number([b] + s, true) == 256 * Number(s, true) + b as nat
  {
    hide ValueOf;
    ByteNumbers(b, 0);
    assert (s + [b])[..|s|] == s;
    assert Reverse([b] + s) == Reverse(s) + [b];
    assert (Reverse(s) + [b])[..|s|] == Reverse(s);
  }

  lemma LastDigit(a: int, b: int, x: int, y: int)
    requires 256 * a + x == 256 * b + y && 0 <= x < 256 && 0 <= y < 256
    ensures a == b && x == y
  {
  }

  lemma {:induction false} FromBigEndianBound(s: seq<byte>)
    ensures FromBigEndian(s) < Pow(256, |s|)
  {
    hide ValueOf;
    if s != [] {
      FromBigEndianBound(s[..|s| - 1]);
    }
  }

  /** Both ways around, in either byte order: numbers that fit are what their bytes stand for, and byte strings
      are the bytes of what they stand for. */
  lemma BytesRoundTrip(v: nat, s: seq<byte>, little: bool)
    requires v < Pow(256, |s|)
    ensures Number(BytesOf(v, |s|, little), little) == v
    ensures BytesOf(Number(s, little), |s|, little) == s
  {
    hide FromBigEndian, BigEndian;
    var n, t := |s|, Ordered(s, little);
    FromBigEndianOf(v, n);
    ReverseTwice(BigEndian(v, n));
    FromBigEndianBound(t);
    FromBigEndianOf(FromBigEndian(t), n);
    FromBigEndianInjective(BigEndian(FromBigEndian(t), n), t);
    ReverseTwice(s);
  }

  lemma {:induction false} FromBigEndianAppend(s: seq<byte>, t: seq<byte>)
    ensures FromBigEndian(s + t) == FromBigEndian(s) * Pow(256, |t|) + FromBigEndian(t)
  {
    hide ValueOf;
    if t == [] {
      assert s + t == s;
    } else {
      var u, w := t[..|t| - 1], Pow(256, |t| - 1);
      FromBigEndianAppend(s, u);
      assert (s + t)[..|s + t| - 1] == s + u;
      assert FromBigEndian(s) * (256 * w) == 256 * (FromBigEndian(s) * w);
    }
  }

  // ---- the loops over words and bytes ----

  function Pow256(n: nat): (r: nat)
    ensures r == Pow(256, n) && r > 0
  {
    if n == 0 then 1 else 256 * Pow256(n - 1)
  }

  /** A number with another word below it. */
  lemma {:induction false} ValBelow(x: nat, s: seq<nat>, b: nat, n: nat)
    requires n <= |s|
    ensures ValTo([x] + s, b, n + 1) == x + b * ValTo(s, b, n)
  {
    hide Pow;
    var u := [x] + s;
    if n == 0 {
      BelowNothing(u, b);
    } else {
      ValBelow(x, s, b, n - 1);
      PowNat(b, n);
      PowNat(b, n - 1);
      PowNext(b, n - 1);
      BelowTerm(ValTo(s, b, n - 1), s[n - 1], Pow(b, n - 1), b);
      assert u[n] == s[n - 1];
    }
  }

  lemma BelowNothing(u: seq<nat>, b: nat)
    requires |u| > 0
    ensures ValTo(u, b, 1) == u[0]
  {
    assert Pow(b, 0) == 1 && ValTo(u, b, 0) == 0;
  }

  lemma BelowTerm(v: int, x: int, w: int, b: int)
    ensures b * (v + x * w) == b * v + x * (b * w)
  {
    assert x * (b * w) == b * (x * w);
  }

  /** The value of the words from i upwards is that of the bytes read so far. */
  ghost predicate UpperWords(a: seq<nat>, b: nat, i: nat, s: seq<byte>)
    requires i <= |a|
  {
    IsWords(a[i..], b) && Val(a[i..], b) == FromBigEndian(s)
  }

  /** Another word, read from the next bytes. */
  lemma UpperStep(a: seq<nat>, b: nat, i: nat, s: seq<byte>, t: seq<byte>)
    requires i < |a| && b == Pow256(|t|) && UpperWords(a, b, i + 1, s) && a[i] == FromBigEndian(t)
    ensures UpperWords(a, b, i, s + t)
  {
    hide FromBigEndian, ValTo, Pow, Pow256;
    var upper := a[i + 1..];
    assert a[i..] == [a[i]] + upper;
    ValBelow(a[i], upper, b, |upper|);
    FromBigEndianAppend(s, t);
    FromBigEndianBound(t);
    assert b * Val(upper, b) == FromBigEndian(s) * b;
  }

  /** The word that the bytes from start onwards stand for, read from the most significant byte. */
  method WordFromBytes(src: seq<byte>, little: bool, start: nat, size: nat) returns (t: nat)
    requires size > 0 && start + size <= |src|
    ensures t == FromBigEndian(Ordered(src, little)[start..start + size])
  {
    hide ValueOf, Ordered, FromBigEndian, Pow256, Pow;
    ghost var s := Ordered(src, little);
    t := 0;
    NothingRead(2, s[start..start]);
    for j := 0 to size
      invariant t == FromBigEndian(s[start..start + j])
    {
      var srcI := if little then |src| - 1 - (start + j) else start + j;
      OrderedAt(src, little, start + j);
      FromBigEndianBound(s[start..start + j]);
      Shifted(t, size, j);
      ReadByte(s, start, j);
      t := (256 * t) % Pow256(size) + ValueOf(src[srcI]);
    }
  }

  lemma OrderedAt(s: seq<byte>, little: bool, i: nat)
    requires i < |s|
    ensures Ordered(s, little)[i] == s[if little then |s| - 1 - i else i]
  {
  }

  lemma ReadByte(s: seq<byte>, start: nat, j: nat)
    requires start + j < |s|
    ensures FromBigEndian(s[start..start + j + 1]) == 256 * FromBigEndian(s[start..start + j]) + ValueOf(s[start + j])
  {
    hide ValueOf;
    assert s[start..start + j + 1][..j] == s[start..start + j];
  }

  /** No bits are shifted out of a word before its last byte. */
  lemma Shifted(t: nat, size: nat, j: nat)
    requires t < Pow(256, j) && j < size
    ensures Pow(256, size) > 0 && (256 * t) % Pow(256, size) == 256 * t
  {
    PowAdd(256, j + 1, size - j - 1);
    PowPositive(256, size - j - 1);
    PowPositive(256, j + 1);
    MulMonotone(1, Pow(256, size - j - 1), Pow(256, j + 1));
    SmallMod(256 * t, Pow(256, size));
  }

  /** sb_fe_from_bytes, for words of the given size in bytes. */
  method FromBytes(dest: array<nat>, src: seq<byte>, little: bool, size: nat)
    requires size > 0 && |src| == dest.Length * size
    modifies dest
    ensures Fe(dest, Pow256(size), dest.Length) && Val(dest[..], Pow256(size)) == Number(src, little)
  {
    hide FromBigEndian, Ordered, Pow256, ValTo;
    var n := dest.Length;
    ghost var s, b := Ordered(src, little), Pow256(size);
    assert dest[n..] == [] && s[..0] == [];
    NothingRead(b, s[..0]);
    for i := 0 to n
      invariant UpperWords(dest[..], b, n - i, s[..i * size])
    {
      ghost var before := dest[..];
      NextChunk(i, n, size);
      var t := WordFromBytes(src, little, i * size, size);
      dest[n - 1 - i] := t;
      ghost var chunk := s[i * size..i * size + size];
      assert dest[..][n - i..] == before[n - i..];
      UpperStep(dest[..], b, n - 1 - i, s[..i * size], chunk);
      assert s[..i * size] + chunk == s[..(i + 1) * size];
    }
    assert dest[..][0..] == dest[..] && s[..n * size] == s;
  }

  lemma NothingRead(b: nat, s: seq<byte>)
    requires s == []
    ensures Val([], b) == FromBigEndian(s) == 0 && IsWords([], b)
  {
  }

  lemma NextChunk(i: nat, n: nat, size: nat)
    requires i < n
    ensures i * size + size == (i + 1) * size <= n * size
  {
    MulMonotone(i + 1, n, size);
  }

  // ---- and back ----

  /** One byte off the top of what is left of a word: rest is that, t is it shifted to the top. */
  lemma TopByte(rest: nat, size: nat, j: nat)
    requires j < size && rest < Pow(256, size - j)
    ensures var t, k := rest * Pow(256, j), Pow(256, size - 1 - j);
            && k > 0 && Pow(256, size - 1) > 0 && Pow(256, size) > 0
            && t / Pow(256, size - 1) == rest / k < 256
            && (256 * t) % Pow(256, size) == (rest % k) * Pow(256, j + 1)
            && rest == rest / k * k + rest % k && rest % k < k
  {
    hide Pow;
    var k, w := Pow(256, size - 1 - j), Pow(256, j);
    PowPositive(256, size - 1 - j);
    PowPositive(256, j);
    PowAdd(256, j, size - 1 - j);
    PowAdd(256, j + 1, size - 1 - j);
    var d, r := rest / k, rest % k;
    PowNext(256, size - 1 - j);
    PowNext(256, j);
    QuotientBelow(rest, k, 256);
    SplitProduct(d, r, k, w);
    DivModUnique(rest * w, d, r * w, w * k);
    DivModUnique(256 * (rest * w), d, r * (256 * w), 256 * w * k);
  }

  lemma SplitProduct(d: nat, r: nat, k: nat, w: nat)
    requires r < k && w > 0
    ensures (d * k + r) * w == d * (w * k) + r * w && r * w < w * k
    ensures 256 * ((d * k + r) * w) == d * (256 * w * k) + r * (256 * w) && r * (256 * w) < 256 * w * k
  {
    MulMonotone(r, k - 1, w);
    assert (k - 1) * w == k * w - w;
    assert d * (256 * w * k) == 256 * (d * (w * k));
  }

  /** j bytes of a word have been put in place from position start onwards; rest is what is left of the word, and
      t is that, shifted to the top. */
  ghost predicate Emitted(s: seq<byte>, start: nat, j: nat, size: nat, word: nat, rest: nat, t: nat)
    requires j <= size && start + size <= |s|
  {
    && rest < Pow256(size - j) && t == rest * Pow256(j)
    && word == FromBigEndian(s[start..start + j]) * Pow256(size - j) + rest
  }

  lemma EmitStep(u: seq<byte>, s: seq<byte>, start: nat, j: nat, size: nat, word: nat, rest: nat, t: nat)
    requires j < size && start + size <= |u| && Emitted(u, start, j, size, word, rest, t)
    requires s == u[start + j := ByteOf(t / Pow256(size - 1))]
    ensures Emitted(s, start, j + 1, size, word, rest % Pow256(size - 1 - j), (256 * t) % Pow256(size))
    ensures s[..start] == u[..start]
  {
    hide ValueOf, ByteOf, FromBigEndian, Pow256, Pow;
    var k := Pow256(size - 1 - j);
    EmitNumbers(FromBigEndian(u[start..start + j]), j, size, word, rest, t);
    assert s[start..start + j] == u[start..start + j];
    ReadByte(s, start, j);
    ValueOfByte(rest / k);
    SmallMod(rest / k, 256);
  }

  lemma EmitNumbers(read: nat, j: nat, size: nat, word: nat, rest: nat, t: nat)
    requires j < size && rest < Pow256(size - j) && t == rest * Pow256(j) && word == read * Pow256(size - j) + rest
    ensures var k := Pow256(size - 1 - j);
            && t / Pow256(size - 1) == rest / k < 256
            && rest % k < k && (256 * t) % Pow256(size) == rest % k * Pow256(j + 1)
            && word == (256 * read + rest / k) * k + rest % k
  {
    hide Pow;
    var k := Pow256(size - 1 - j);
    TopByte(rest, size, j);
    WordGrows(read, rest / k, rest % k, k);
  }

  /** The bytes of a word, most significant first, put in place from position start onwards. */
  method WordToBytes(dest: array<byte>, word: nat, little: bool, start: nat, size: nat)
    requires size > 0 && start + size <= dest.Length && word < Pow256(size)
    modifies dest
    ensures Ordered(dest[..], little)[..start] == old(Ordered(dest[..], little))[..start]
    ensures FromBigEndian(Ordered(dest[..], little)[start..start + size]) == word
  {
    hide ByteOf, Ordered, FromBigEndian, Pow256, Emitted;
    var t: nat := word;
    ghost var rest: nat := word;
    ghost var s := Ordered(dest[..], little);
    OrderedLength(dest[..], little);
    WholeWord(word, size, s, start);
    for j := 0 to size
      invariant |s| == dest.Length && Emitted(s, start, j, size, word, rest, t)
      invariant s == Ordered(dest[..], little) && s[..start] == old(Ordered(dest[..], little))[..start]
    {
      ghost var before, u := dest[..], s;
      var destI := if little then dest.Length - 1 - (start + j) else start + j;
      var top := ByteOf(t / Pow256(size - 1));
      dest[destI] := top;
      OrderedUpdate(before, little, start + j, top);
      assert dest[..] == before[destI := top];
      s := Ordered(dest[..], little);
      OrderedLength(dest[..], little);
      EmitStep(u, s, start, j, size, word, rest, t);
      rest := rest % Pow256(size - 1 - j);
      t := (256 * t) % Pow256(size);
    }
    WordRead(s, start, size, word, rest, t);
  }

  lemma WholeWord(word: nat, size: nat, s: seq<byte>, start: nat)
    requires word < Pow256(size) && start + size <= |s|
    ensures Emitted(s, start, 0, size, word, word, word)
  {
    ZeroTimes(0, Pow256(size));
  }

  lemma WordRead(s: seq<byte>, start: nat, size: nat, word: nat, rest: nat, t: nat)
    requires start + size <= |s| && Emitted(s, start, size, size, word, rest, t)
    ensures FromBigEndian(s[start..start + size]) == word
  {
  }

  lemma WordGrows(read: nat, d: nat, r: nat, k: nat)
    ensures read * (256 * k) + (d * k + r) == (256 * read + d) * k + r
  {
    assert read * (256 * k) == 256 * read * k;
  }

  lemma OrderedLength(s: seq<byte>, little: bool)
    ensures |Ordered(s, little)| == |s|
  {
  }

  lemma OrderedUpdate(s: seq<byte>, little: bool, i: nat, v: byte)
    requires i < |s|
    ensures Ordered(s[(if little then |s| - 1 - i else i) := v], little) == Ordered(s, little)[i := v]
  {
  }

  /** sb_fe_to_bytes, for words of the given size in bytes. */
  method ToBytes(dest: array<byte>, src: seq<nat>, little: bool, size: nat)
    requires size > 0 && dest.Length == |src| * size && IsWords(src, Pow256(size))
    modifies dest
    ensures dest[..] == BytesOf(Val(src, Pow256(size)), dest.Length, little)
  {
    hide FromBigEndian, Ordered, Pow256, Val, BytesOf, UpperWords;
    var n := |src|;
    ghost var b := Pow256(size);
    ghost var s := Ordered(dest[..], little);
    OrderedLength(dest[..], little);
    NothingAbove(src, b, s[..0]);
    for i := 0 to n
      invariant |s| == dest.Length && s == Ordered(dest[..], little) && UpperWords(src, b, n - i, s[..i * size])
    {
      NextChunk(i, n, size);
      ghost var u := s;
      WordToBytes(dest, src[n - 1 - i], little, i * size, size);
      OrderedLength(dest[..], little);
      s := Ordered(dest[..], little);
      ghost var chunk := s[i * size..i * size + size];
      assert s[..i * size] == u[..i * size];
      UpperStep(src, b, n - 1 - i, s[..i * size], chunk);
      assert s[..i * size] + chunk == s[..(i + 1) * size];
    }
    assert s[..n * size] == s;
    AllWords(src, b, s);
    BytesKnown(dest[..], Val(src, b), little);
  }

  lemma NothingAbove(a: seq<nat>, b: nat, s: seq<byte>)
    requires s == []
    ensures UpperWords(a, b, |a|, s)
  {
    assert a[|a|..] == [];
    NothingRead(b, s);
  }

  lemma AllWords(a: seq<nat>, b: nat, s: seq<byte>)
    requires UpperWords(a, b, 0, s)
    ensures Val(a, b) == FromBigEndian(s)
  {
    assert a[0..] == a;
  }

  lemma BytesKnown(s: seq<byte>, v: nat, little: bool)
    requires FromBigEndian(Ordered(s, little)) == v
    ensures s == BytesOf(v, |s|, little)
  {
    hide FromBigEndian, BigEndian;
    FromBigEndianBound(Ordered(s, little));
    BytesRoundTrip(v, s, little);
  }
}
