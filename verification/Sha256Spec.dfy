/** SHA-256 as RFC 6234 defines it. */
module Sha256Spec {
  import opened Bytes

  type word = bv32

  const BLOCK: nat := 64
  const DIGEST: nat := 32

  // ---- functions of section 5.1 ----

  /** Addition modulo 2^32. */
  function Plus(x: word, y: word): word { x + y }

  function Ch(x: word, y: word, z: word): word { (x & y) ^ (!x & z) }

  function Maj(x: word, y: word, z: word): word { (x & y) ^ (x & z) ^ (y & z) }

  function BigSigma0(x: word): word {
    ((x >> 2) | (x << 30)) ^ ((x >> 13) | (x << 19)) ^ ((x >> 22) | (x << 10))
  }

  function BigSigma1(x: word): word {
    ((x >> 6) | (x << 26)) ^ ((x >> 11) | (x << 21)) ^ ((x >> 25) | (x << 7))
  }

  function SmallSigma0(x: word): word {
    ((x >> 7) | (x << 25)) ^ ((x >> 18) | (x << 14)) ^ (x >> 3)
  }

  function SmallSigma1(x: word): word {
    ((x >> 17) | (x << 15)) ^ ((x >> 19) | (x << 13)) ^ (x >> 10)
  }

  const K0: seq<word> := [
    0x428A2F98, 0x71374491, 0xB5C0FBCF, 0xE9B5DBA5, 0x3956C25B, 0x59F111F1, 0x923F82A4, 0xAB1C5ED5]
  const K1: seq<word> := [
    0xD807AA98, 0x12835B01, 0x243185BE, 0x550C7DC3, 0x72BE5D74, 0x80DEB1FE, 0x9BDC06A7, 0xC19BF174]
  const K2: seq<word> := [
    0xE49B69C1, 0xEFBE4786, 0x0FC19DC6, 0x240CA1CC, 0x2DE92C6F, 0x4A7484AA, 0x5CB0A9DC, 0x76F988DA]
  const K3: seq<word> := [
    0x983E5152, 0xA831C66D, 0xB00327C8, 0xBF597FC7, 0xC6E00BF3, 0xD5A79147, 0x06CA6351, 0x14292967]
  const K4: seq<word> := [
    0x27B70A85, 0x2E1B2138, 0x4D2C6DFC, 0x53380D13, 0x650A7354, 0x766A0ABB, 0x81C2C92E, 0x92722C85]
  const K5: seq<word> := [
    0xA2BFE8A1, 0xA81A664B, 0xC24B8B70, 0xC76C51A3, 0xD192E819, 0xD6990624, 0xF40E3585, 0x106AA070]
  const K6: seq<word> := [
    0x19A4C116, 0x1E376C08, 0x2748774C, 0x34B0BCB5, 0x391C0CB3, 0x4ED8AA4A, 0x5B9CCA4F, 0x682E6FF3]
  const K7: seq<word> := [
    0x748F82EE, 0x78A5636F, 0x84C87814, 0x8CC70208, 0x90BEFFFA, 0xA4506CEB, 0xBEF9A3F7, 0xC67178F2]
  const K: seq<word> := K0 + K1 + K2 + K3 + K4 + K5 + K6 + K7

  const INIT: seq<word> := [
    0x6A09E667, 0xBB67AE85, 0x3C6EF372, 0xA54FF53A, 0x510E527F, 0x9B05688C, 0x1F83D9AB, 0x5BE0CD19]

  // ---- processing of a block, section 6.2 ----

  /** The big-endian word that starts at byte i. */
  function WordAt(m: seq<byte>, i: nat): word
    requires i + 4 <= |m|
  {
    ((m[i] as word) << 24) | ((m[i + 1] as word) << 16) | ((m[i + 2] as word) << 8) | (m[i + 3] as word)
  }

  /** The first t words of the message schedule. */
  function Schedule(m: seq<byte>, t: nat): (w: seq<word>)
    requires |m| == BLOCK
    ensures |w| == t
  {
    if t == 0 then []
    else
      var w := Schedule(m, t - 1);
      w + [if t - 1 < 16 then WordAt(m, 4 * (t - 1))
           else NextWord(w[t - 3], w[t - 8], w[t - 16], w[t - 17])]
  }

  /** A word of the schedule from those 2, 7, 15 and 16 before it. */
  function NextWord(w2: word, w7: word, w15: word, w16: word): word {
    Plus(Plus(Plus(SmallSigma1(w2), w7), SmallSigma0(w15)), w16)
  }

  function T1(h: word, e: word, f: word, g: word, k: word, w: word): word {
    Plus(Plus(Plus(Plus(h, BigSigma1(e)), Ch(e, f, g)), k), w)
  }

  function T2(a: word, b: word, c: word): word {
    Plus(BigSigma0(a), Maj(a, b, c))
  }

  /** The working variables a to h after one round. */
  function Round(v: seq<word>, k: word, w: word): (r: seq<word>)
    requires |v| == 8
    ensures |r| == 8
  {
    var t1 := T1(v[7], v[4], v[5], v[6], k, w);
    var t2 := T2(v[0], v[1], v[2]);
    [Plus(t1, t2), v[0], v[1], v[2], Plus(v[3], t1), v[4], v[5], v[6]]
  }

  function Rounds(h: seq<word>, m: seq<byte>, t: nat): (v: seq<word>)
    requires |h| == 8 && |m| == BLOCK && t <= |K|
    ensures |v| == 8
  {
    if t == 0 then h else Round(Rounds(h, m, t - 1), K[t - 1], Schedule(m, t)[t - 1])
  }

  function AddWords(h: seq<word>, v: seq<word>): (r: seq<word>)
    requires |h| == |v|
    ensures |r| == |h|
  {
    seq(|h|, i requires 0 <= i < |h| => Plus(h[i], v[i]))
  }

  /** The next intermediate hash value. */
  function Compress(h: seq<word>, m: seq<byte>): (r: seq<word>)
    requires |h| == 8 && |m| == BLOCK
    ensures |r| == 8
  {
    AddWords(h, Rounds(h, m, |K|))
  }

  /** Process all whole blocks of m. */
  function Blocks(h: seq<word>, m: seq<byte>): (r: seq<word>)
    requires |h| == 8
    ensures |r| == 8
    decreases |m|
  {
    if |m| < BLOCK then h else Blocks(Compress(h, m[..BLOCK]), m[BLOCK..])
  }

  // ---- padding, section 4.1, and the digest ----

  function Zeros(n: nat): (s: seq<byte>)
    ensures |s| == n
  {
    seq(n, i => 0)
  }

  /** The low 64 bits of v, most significant byte first. */
  function LengthBytes(v: nat): (s: seq<byte>)
    ensures |s| == 8
  {
    [ByteOf(v / 0x100_0000_0000_0000), ByteOf(v / 0x1_0000_0000_0000), ByteOf(v / 0x100_0000_0000),
     ByteOf(v / 0x1_0000_0000), ByteOf(v / 0x100_0000), ByteOf(v / 0x1_0000), ByteOf(v / 0x100), ByteOf(v)]
  }

  /** The least number of zero bytes that makes the message, one byte of padding and the length whole blocks. */
  function PadZeros(len: nat): nat { (119 - len % BLOCK) % BLOCK }

  /** The message with a one bit, zeros, and a length in bits. */
  function PadWith(m: seq<byte>, bits: nat): seq<byte> {
    m + [0x80] + Zeros(PadZeros(|m|)) + LengthBytes(bits)
  }

  function Padded(m: seq<byte>): seq<byte> { PadWith(m, 8 * |m|) }

  /** Eight bytes of a number, the last one lowest. */
  predicate EightDigits(s: seq<byte>, v: nat) {
    && |s| == 8 && s[7] as nat == v % 256 && s[6] as nat == v / 0x100 % 256 && s[5] as nat == v / 0x1_0000 % 256
    && s[4] as nat == v / 0x100_0000 % 256 && s[3] as nat == v / 0x1_0000_0000 % 256
    && s[2] as nat == v / 0x100_0000_0000 % 256 && s[1] as nat == v / 0x1_0000_0000_0000 % 256
    && s[0] as nat == v / 0x100_0000_0000_0000 % 256
  }

  /** The padded message in bytes: whole blocks of 64 bytes, and no more than that needs; the message, the byte 0x80,
      zeros, and the length in bits in the last eight bytes. */
  lemma PaddedMeans(m: seq<byte>, p: seq<byte>)
    requires p == Padded(m)
    ensures |p| % 64 == 0 && |m| + 9 <= |p| < |m| + 73
    ensures p[..|m|] == m && p[|m|] == 0x80 && (forall i :: |m| < i < |p| - 8 ==> p[i] == 0)
    ensures EightDigits(p[|p| - 8..], 8 * |m|)
  {
    hide LengthBytes, PadZeros, EightDigits;
    var l := LengthBytes(8 * |m|);
    assert p == m + [0x80] + Zeros(PadZeros(|m|)) + l;
    WholeBlocks(|m|);
    LengthInBytes(8 * |m|);
    assert p[|p| - 8..] == l;
  }

  lemma WholeBlocks(len: nat)
    ensures (len + 1 + PadZeros(len) + 8) % 64 == 0 && PadZeros(len) < 64
  {
  }

  lemma LengthInBytes(v: nat)
    ensures EightDigits(LengthBytes(v), v)
  {
    hide ByteOf;
    ByteNumbers(0, v);
    ByteNumbers(0, v / 0x100);
    ByteNumbers(0, v / 0x1_0000);
    ByteNumbers(0, v / 0x100_0000);
    ByteNumbers(0, v / 0x1_0000_0000);
    ByteNumbers(0, v / 0x100_0000_0000);
    ByteNumbers(0, v / 0x1_0000_0000_0000);
    ByteNumbers(0, v / 0x100_0000_0000_0000);
  }

  function WordBytes(w: word): (s: seq<byte>)
    ensures |s| == 4
  {
    [(w >> 24) as byte, ((w >> 16) & 0xFF) as byte, ((w >> 8) & 0xFF) as byte, (w & 0xFF) as byte]
  }

  function HashBytes(h: seq<word>): (s: seq<byte>)
    ensures |s| == 4 * |h|
  {
    if h == [] then [] else WordBytes(h[0]) + HashBytes(h[1..])
  }

  function Sha256(m: seq<byte>): (digest: seq<byte>)
    ensures |digest| == DIGEST
  {
    HashBytes(Blocks(INIT, Padded(m)))
  }

  /** Hashing continues over a boundary between blocks. */
  lemma {:induction false} BlocksAppend(h: seq<word>, a: seq<byte>, b: seq<byte>)
    requires |h| == 8 && |a| % BLOCK == 0
    ensures Blocks(h, a + b) == Blocks(Blocks(h, a), b)
    decreases |a|
  {
    hide Compress;
    if |a| == 0 {
      assert a + b == b;
    } else {
      BlocksAppend(Compress(h, a[..BLOCK]), a[BLOCK..], b);
      assert (a + b)[..BLOCK] == a[..BLOCK] && (a + b)[BLOCK..] == a[BLOCK..] + b;
    }
  }

  lemma OneBlock(h: seq<word>, m: seq<byte>)
    requires |h| == 8 && |m| == BLOCK
    ensures Blocks(h, m) == Compress(h, m)
  {
    assert m[..BLOCK] == m;
  }

  /** Blocks are compressed one after the other, each into the value that the ones before it give. */
  lemma BlocksMeans(h: seq<word>, a: seq<byte>, m: seq<byte>)
    requires |h| == 8 && |a| % 64 == 0 && |m| == 64
    ensures Blocks(h, []) == h && Blocks(h, a + m) == Compress(Blocks(h, a), m)
  {
    hide Compress;
    BlocksAppend(h, a, m);
    OneBlock(Blocks(h, a), m);
  }

  /** A trailing partial block is not processed. */
  lemma {:induction false} PartialBlock(h: seq<word>, a: seq<byte>, b: seq<byte>)
    requires |h| == 8 && |a| % BLOCK == 0 && |b| < BLOCK
    ensures Blocks(h, a + b) == Blocks(h, a)
  {
    BlocksAppend(h, a, b);
  }
}
