/** sb_hkdf.c: key derivation. */
module Hkdf {
  import opened Bytes
  import opened Sha256Spec
  import opened Sha256
  import opened Hmac

  /** T(n) of section 2.3 of RFC 5869, under a key of one block; the counter is one byte. */
  function T(k: seq<byte>, info: seq<byte>, n: nat): (t: seq<byte>)
    requires |k| == BLOCK
    ensures |t| == if n == 0 then 0 else DIGEST
  {
    if n == 0 then [] else Mac(k, T(k, info, n - 1) + info + [ByteOf(n)])
  }

  /** T(1) | ... | T(n). */
  function Stream(k: seq<byte>, info: seq<byte>, n: nat): (s: seq<byte>)
    requires |k| == BLOCK
    ensures |s| == DIGEST * n
  {
    if n == 0 then [] else Stream(k, info, n - 1) + T(k, info, n)
  }

  /** The output keying material: OKM of RFC 5869 for len up to 255 digests. */
  function Expansion(k: seq<byte>, info: seq<byte>, len: nat): (okm: seq<byte>)
    requires |k| == BLOCK
    ensures |okm| == len
  {
    Stream(k, info, BlocksFor(len))[..len]
  }

  /** A longer expansion extends a shorter one. */
  lemma {:induction false} StreamPrefix(k: seq<byte>, info: seq<byte>, m: nat, n: nat)
    requires |k| == BLOCK && m <= n
    ensures Stream(k, info, m) <= Stream(k, info, n)
  {
    hide Mac;
    if m < n {
      StreamPrefix(k, info, m, n - 1);
    }
  }

  lemma ExpansionPrefix(k: seq<byte>, info: seq<byte>, len: nat, longer: nat)
    requires |k| == BLOCK && len <= longer
    ensures Expansion(k, info, len) <= Expansion(k, info, longer)
  {
    hide Mac, Stream, T;
    var m, n := BlocksFor(len), BlocksFor(longer);
    StreamPrefix(k, info, m, n);
    assert Expansion(k, info, len) == Stream(k, info, n)[..len];
  }

  lemma StreamStep(k: seq<byte>, info: seq<byte>, n: nat, count: nat)
    requires |k| == BLOCK && count <= DIGEST
    ensures Stream(k, info, n + 1)[..DIGEST * n + count] == Stream(k, info, n) + T(k, info, n + 1)[..count]
  {
    hide Mac, T;
  }

  lemma EnoughExpanded(k: seq<byte>, info: seq<byte>, n: nat, len: nat)
    requires |k| == BLOCK && len <= DIGEST * n && (n > 0 ==> DIGEST * (n - 1) < len)
    ensures Expansion(k, info, len) == Stream(k, info, n)[..len]
  {
    hide Stream, BlocksFor;
    EnoughBlocks(n, len);
  }

  // ---- the same on the output itself ----

  /** The bytes of block i, which may be the last and incomplete one. */
  lemma {:induction false} StreamBlock(k: seq<byte>, info: seq<byte>, n: nat, i: nat)
    requires |k| == BLOCK && i < n
    ensures Stream(k, info, n)[DIGEST * i..DIGEST * (i + 1)] == T(k, info, i + 1)
  {
    hide Mac, T;
    if i < n - 1 {
      StreamBlock(k, info, n - 1, i);
    }
  }

  lemma ExpansionBlock(k: seq<byte>, info: seq<byte>, len: nat, i: nat, end: nat)
    requires |k| == BLOCK && DIGEST * i < end <= len && end <= DIGEST * (i + 1)
    ensures Expansion(k, info, len)[DIGEST * i..end] == T(k, info, i + 1)[..end - DIGEST * i]
  {
    hide Stream, T;
    var n := BlocksFor(len);
    assert i < n;
    StreamBlock(k, info, n, i);
    var stream := Stream(k, info, n);
    assert Expansion(k, info, len)[DIGEST * i..end] == stream[DIGEST * i..DIGEST * (i + 1)][..end - DIGEST * i];
  }

  /** Every block of 32 bytes of the output, or what there is of the last one, is the MAC of the block before it, the
      info and the number of the block in one byte, under the key. */
  lemma ExpansionMeans(key: seq<byte>, info: seq<byte>, out: seq<byte>, i: nat, end: nat, number: byte)
    requires |key| < 0x1_0000_0000 && |info| + 97 < 0x1_0000_0000 && out == Expansion(BlockKey(key), info, |out|)
    requires 32 * i < end <= |out| && (end == 32 * i + 32 || (end == |out| && end < 32 * i + 32))
    requires number as nat == (i + 1) % 256
    ensures var before := if i == 0 then [] else out[32 * i - 32..32 * i];
            out[32 * i..end] == StandardHmac(key, before + info + [number])[..end - 32 * i]
  {
    hide Expansion, T, BlockKey, StandardHmac, ByteOf, HmacOf;
    var k := BlockKey(key);
    var before := if i == 0 then [] else out[32 * i - 32..32 * i];
    ExpansionBlock(k, info, |out|, i, end);
    if i > 0 {
      ExpansionBlock(k, info, |out|, i - 1, 32 * i);
    }
    NumberByte(number, i + 1);
    NextMac(key, info, i, before);
    HmacIsStandard(key, before + info + [number]);
  }

  lemma NextMac(key: seq<byte>, info: seq<byte>, i: nat, before: seq<byte>)
    requires before == T(BlockKey(key), info, i)
    ensures T(BlockKey(key), info, i + 1) == HmacOf(key, before + info + [ByteOf(i + 1)])
  {
    hide BlockKey, Mac, ByteOf;
  }

  lemma NumberByte(b: byte, v: nat)
    requires b as nat == v % 256
    ensures b == ByteOf(v)
  {
    hide ByteOf, ValueOf;
    ByteNumbers(b, v);
    ByteNumbers(ByteOf(v), v);
    ValueInjective(b, ByteOf(v));
  }

  /** An absent salt, which is replaced by zeros, is the empty key: the extraction is the MAC of the input under the
      salt in any case. */
  lemma ExtractionMeans(salt: seq<byte>, input: seq<byte>)
    requires |salt| < 0x1_0000_0000 && 64 + |input| < 0x1_0000_0000
    ensures HmacOf(if salt == [] then Zeros(DIGEST) else salt, input) == StandardHmac(salt, input)
  {
    hide StandardHmac, Mac;
    assert BlockKey(Zeros(DIGEST)) == BlockKey([]);
    HmacIsStandard(salt, input);
  }

  class HkdfState {
    const hmac: HmacState
    const output: array<byte>

    ghost predicate Shaped()
    {
      hmac.Shaped() && output.Length == DIGEST && output != hmac.key && output != hmac.sha.buffer
    }

    /** Ready to expand under the key k: the intermediate output is zero. */
    ghost predicate Ready(k: seq<byte>)
      reads output, hmac, hmac.key, hmac.sha, hmac.sha.ihash, hmac.sha.buffer
    {
      Shaped() && hmac.Started() && hmac.data == [] && hmac.key[..] == k && output[..] == Zeros(DIGEST)
    }

    constructor ()
      ensures Shaped() && fresh(this) && fresh(hmac) && fresh(output) && fresh(hmac.Repr())
    {
      hmac := new HmacState();
      output := new byte[DIGEST];
    }

    method SetOutput(bytes: seq<byte>)
      requires Shaped() && |bytes| == DIGEST
      modifies output
      ensures output[..] == bytes
    {
      forall i | 0 <= i < DIGEST {
        output[i] := bytes[i];
      }
    }

    /** sb_hkdf_extract_init: an absent salt is replaced by zeros. */
    method ExtractInit(salt: seq<byte>)
      requires Shaped()
      modifies output, hmac`data, hmac.key, hmac.sha, hmac.sha.ihash, hmac.sha.ah, hmac.sha.w, hmac.sha.buffer
      ensures Shaped() && hmac.Started() && hmac.data == []
      ensures hmac.key[..] == BlockKey(if salt == [] then Zeros(DIGEST) else salt)
    {
      hide Blocks, Digest;
      SetOutput(Zeros(DIGEST));
      if |salt| > 0 {
        hmac.Init(salt);
      } else {
        hmac.Init(output[..]);
      }
    }

    /** sb_hkdf_extract_update. */
    method ExtractUpdate(input: seq<byte>)
      requires Shaped() && hmac.Started()
      modifies hmac`data, hmac.sha, hmac.sha.ihash, hmac.sha.ah, hmac.sha.w, hmac.sha.buffer
      ensures hmac.Started() && hmac.data == old(hmac.data) + input
    {
      hide Blocks, Digest;
      hmac.Update(input);
    }

    /** sb_hkdf_extract_finish: the MAC of the input becomes the key. */
    method ExtractFinish()
      requires Shaped() && hmac.Started()
      modifies output, hmac`data, hmac.key, hmac.sha, hmac.sha.ihash, hmac.sha.ah, hmac.sha.w, hmac.sha.buffer
      ensures Ready(BlockKey(Mac(old(hmac.key[..]), old(hmac.data))))
    {
      hide Blocks, Digest;
      var prk := hmac.Finish();
      SetOutput(prk);
      hmac.Init(output[..]);
      SetOutput(Zeros(DIGEST));
    }

    /** sb_hkdf_extract: PRK = HMAC(salt, IKM), section 2.2 of RFC 5869. */
    method Extract(salt: seq<byte>, input: seq<byte>)
      requires Shaped()
      modifies output, hmac`data, hmac.key, hmac.sha, hmac.sha.ihash, hmac.sha.ah, hmac.sha.w, hmac.sha.buffer
      ensures Ready(BlockKey(HmacOf(if salt == [] then Zeros(DIGEST) else salt, input)))
      ensures |salt| < 0x1_0000_0000 && 64 + |input| < 0x1_0000_0000 ==> Ready(BlockKey(StandardHmac(salt, input)))
    {
      hide Blocks, Digest, BlockKey, StandardHmac;
      if |salt| < 0x1_0000_0000 && 64 + |input| < 0x1_0000_0000 {
        ExtractionMeans(salt, input);
      }
      ExtractInit(salt);
      ExtractUpdate(input);
      assert [] + input == input;
      ExtractFinish();
    }

    /** sb_hkdf_kdf_init: the input is used as the key without extraction. */
    method KdfInit(input: seq<byte>)
      requires Shaped()
      modifies output, hmac`data, hmac.key, hmac.sha, hmac.sha.ihash, hmac.sha.ah, hmac.sha.w, hmac.sha.buffer
      ensures Ready(BlockKey(input))
    {
      hide Blocks, Digest;
      SetOutput(Zeros(DIGEST));
      hmac.Init(input);
    }

    /** One iteration of the loop: the next block of the stream is placed in output. */
    method NextBlock(info: seq<byte>, iter: byte, first: bool)
      requires Shaped() && hmac.Started() && hmac.data == []
      modifies output, hmac`data, hmac.key, hmac.sha, hmac.sha.ihash, hmac.sha.ah, hmac.sha.w, hmac.sha.buffer
      ensures Shaped() && hmac.Started() && hmac.data == [] && hmac.key[..] == old(hmac.key[..])
      ensures output[..] == Mac(hmac.key[..], (if first then [] else old(output[..])) + info + [iter])
    {
      hide Blocks, Digest, Mac;
      ghost var previous := if first then [] else output[..];
      if !first {
        hmac.Update(output[..]);
      }
      assert hmac.data == previous;
      hmac.Update(info);
      hmac.Update([iter]);
      var t := hmac.Finish();
      SetOutput(t);
      hmac.Reinit();
    }

    /** sb_hkdf_expand: the whole of out is filled, and the state is as it was. */
    method Expand(info: seq<byte>, out: array<byte>, ghost k: seq<byte>)
      requires |k| == BLOCK && Ready(k) && out != output && out != hmac.key && out != hmac.sha.buffer
      modifies out, output, hmac`data, hmac.key, hmac.sha, hmac.sha.ihash, hmac.sha.ah, hmac.sha.w, hmac.sha.buffer
      ensures Ready(k) && out[..] == Expansion(k, info, out.Length)
    {
      hide Blocks, Digest, Mac, T, Stream, ByteOf, Expansion, BlocksFor;
      var produced: nat := 0;
      var iter: nat := 1;
      ghost var n: nat := 0;
      while produced < out.Length
        invariant produced == DIGEST * n || produced == out.Length
        invariant produced <= out.Length && DIGEST * n >= produced && (n > 0 ==> DIGEST * (n - 1) < out.Length)
        invariant iter == (n + 1) % 256
        invariant Shaped() && hmac.Started() && hmac.data == [] && hmac.key[..] == k
        invariant n > 0 ==> output[..] == T(k, info, n)
        invariant out[..produced] == Stream(k, info, n)[..produced]
      {
        produced := NextPart(info, out, produced, iter, k, n);
        n := n + 1;
        iter := (iter + 1) % 256;
      }
      EnoughExpanded(k, info, n, out.Length);
      SetOutput(Zeros(DIGEST));
      assert out[..produced] == out[..];
    }

    /** The iteration in terms of T. */
    method NextT(info: seq<byte>, iter: nat, first: bool, ghost k: seq<byte>, ghost n: nat)
      requires Shaped() && hmac.Started() && hmac.data == [] && hmac.key[..] == k && |k| == BLOCK
      requires iter == (n + 1) % 256 && (first <==> n == 0) && (n > 0 ==> output[..] == T(k, info, n))
      modifies output, hmac`data, hmac.key, hmac.sha, hmac.sha.ihash, hmac.sha.ah, hmac.sha.w, hmac.sha.buffer
      ensures Shaped() && hmac.Started() && hmac.data == [] && hmac.key[..] == k
      ensures output[..] == T(k, info, n + 1)
    {
      hide Blocks, Digest, Mac, ByteOf;
      SameByte(iter, n + 1);
      NextBlock(info, ByteOf(iter), first);
    }

    /** One iteration of the loop of sb_hkdf_expand, on T(1) | ... | T(n). */
    method NextPart(info: seq<byte>, out: array<byte>, produced: nat, iter: nat, ghost k: seq<byte>, ghost n: nat)
      returns (produced': nat)
      requires Shaped() && hmac.Started() && hmac.data == [] && hmac.key[..] == k && |k| == BLOCK
      requires out != output && out != hmac.key && out != hmac.sha.buffer
      requires iter == (n + 1) % 256 && (n > 0 ==> output[..] == T(k, info, n))
      requires produced == DIGEST * n < out.Length && out[..produced] == Stream(k, info, n)[..produced]
      modifies out, output, hmac`data, hmac.key, hmac.sha, hmac.sha.ihash, hmac.sha.ah, hmac.sha.w, hmac.sha.buffer
      ensures Shaped() && hmac.Started() && hmac.data == [] && hmac.key[..] == k
      ensures output[..] == T(k, info, n + 1)
      ensures produced' == if out.Length - produced > DIGEST then produced + DIGEST else out.Length
      ensures out[..produced'] == Stream(k, info, n + 1)[..produced']
    {
      hide Blocks, Digest, Mac, T, Stream, ByteOf;
      var bytes := if out.Length - produced > DIGEST then DIGEST else out.Length - produced;
      NextT(info, iter, produced == 0, k, n);
      StreamStep(k, info, n, bytes);
      CopyOut(out, produced, bytes);
      produced' := produced + bytes;
    }

    method CopyOut(out: array<byte>, start: nat, count: nat)
      requires Shaped() && out != output && count <= DIGEST && start + count <= out.Length
      modifies out
      ensures out[..start + count] == old(out[..start]) + output[..count]
    {
      forall i | 0 <= i < count {
        out[start + i] := output[i];
      }
    }
  }

  lemma SameByte(u: nat, v: nat)
    requires u == v % 256
    ensures ByteOf(u) == ByteOf(v)
  {
    hide Octet;
  }
}
