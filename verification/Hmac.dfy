/** sb_hmac_sha256.c: the HMAC object, which pads its key in place. */
module Hmac {
  import opened Bytes
  import opened Sha256Spec
  import opened Sha256

  const IPAD: byte := 0x36
  const OPAD: byte := 0x5C

  // ---- section 2 of RFC 2104 ----

  function XorPad(k: seq<byte>, pad: byte): (r: seq<byte>)
    ensures |r| == |k|
  {
    seq(|k|, i requires 0 <= i < |k| => k[i] ^ pad)
  }

  /** The key of one block: long keys are hashed, and the rest is zeros. */
  function BlockKey(key: seq<byte>): (k: seq<byte>)
    ensures |k| == BLOCK
  {
    var k := if |key| > BLOCK then Digest(key) else key;
    k + Zeros(BLOCK - |k|)
  }

  /** The MAC of data under a key of one block. */
  function Mac(k: seq<byte>, data: seq<byte>): (mac: seq<byte>)
    requires |k| == BLOCK
    ensures |mac| == DIGEST
  {
    Digest(XorPad(k, OPAD) + Digest(XorPad(k, IPAD) + data))
  }

  function HmacOf(key: seq<byte>, data: seq<byte>): (mac: seq<byte>)
    ensures |mac| == DIGEST
  {
    Mac(BlockKey(key), data)
  }

  /** HMAC with SHA-256 as section 2 of RFC 2104 defines it. */
  function StandardHmac(key: seq<byte>, data: seq<byte>): (mac: seq<byte>) {
    var k := if |key| > BLOCK then Sha256Spec.Sha256(key) else key;
    var block := k + Zeros(BLOCK - |k|);
    Sha256Spec.Sha256(XorPad(block, OPAD) + Sha256Spec.Sha256(XorPad(block, IPAD) + data))
  }

  /** The object computes it as long as its 32-bit count holds the length of the key, and of a block and the data. */
  lemma HmacIsStandard(key: seq<byte>, data: seq<byte>)
    requires |key| < 0x1_0000_0000 && 64 + |data| < 0x1_0000_0000
    ensures HmacOf(key, data) == StandardHmac(key, data)
  {
    hide Digest, Sha256Spec.Sha256, XorPad;
    DigestIsSha256(key);
    var k := BlockKey(key);
    DigestIsSha256(XorPad(k, IPAD) + data);
    DigestIsSha256(XorPad(k, OPAD) + Digest(XorPad(k, IPAD) + data));
  }

  /** The same byte by byte: the key of 64 bytes, and its two paddings. */
  lemma HmacBytes(key: seq<byte>, data: seq<byte>, k: seq<byte>, inner: seq<byte>, outer: seq<byte>)
    requires |k| == |inner| == |outer| == 64
    requires |key| <= 64 ==> k[..|key|] == key && forall i :: |key| <= i < 64 ==> k[i] == 0
    requires |key| > 64 ==> k[..32] == Sha256Spec.Sha256(key) && forall i :: 32 <= i < 64 ==> k[i] == 0
    requires forall i :: 0 <= i < 64 ==> inner[i] == k[i] ^ 0x36 && outer[i] == k[i] ^ 0x5C
    ensures StandardHmac(key, data) == Sha256Spec.Sha256(outer + Sha256Spec.Sha256(inner + data))
  {
    hide Sha256Spec.Sha256, XorPad;
    var short := if |key| > BLOCK then Sha256Spec.Sha256(key) else key;
    assert short + Zeros(BLOCK - |short|) == k;
    forall i | 0 <= i < BLOCK
      ensures XorPad(k, IPAD)[i] == inner[i] && XorPad(k, OPAD)[i] == outer[i]
    {
      XorPadAt(k, IPAD, i);
      XorPadAt(k, OPAD, i);
    }
    assert XorPad(k, IPAD) == inner && XorPad(k, OPAD) == outer;
  }

  lemma XorPadAt(k: seq<byte>, pad: byte, i: nat)
    requires i < |k|
    ensures XorPad(k, pad)[i] == k[i] ^ pad
  {
  }

  /** Un-padding restores the key. */
  lemma PadTwice(k: seq<byte>, pad: byte)
    ensures XorPad(XorPad(k, pad), pad) == k
  {
    forall i | 0 <= i < |k|
      ensures XorPad(XorPad(k, pad), pad)[i] == k[i]
    {
      XorTwice(k[i], pad);
    }
  }

  class HmacState {
    const sha: State
    const key: array<byte>
    /** The data of the MAC that is being computed. */
    ghost var data: seq<byte>

    ghost predicate Shaped()
    {
      sha.Shaped() && key.Length == BLOCK && key != sha.buffer
    }

    ghost function Repr(): set<object>
    {
      {this, key} + sha.Repr()
    }

    /** The inner hash has been fed the padded key and the data. */
    ghost predicate Started()
      reads this, key, sha, sha.ihash, sha.buffer
    {
      Shaped() && sha.Valid() && sha.fed == XorPad(key[..], IPAD) + data
    }

    constructor ()
      ensures Shaped() && fresh(Repr())
    {
      sha := new State();
      key := new byte[BLOCK];
    }

    method KeyPad(pad: byte)
      requires Shaped()
      modifies key
      ensures key[..] == XorPad(old(key[..]), pad)
    {
      hide XorPad;
      ghost var k, padded := key[..], XorPad(key[..], pad);
      var i := 0;
      while i < BLOCK
        invariant 0 <= i <= BLOCK
        invariant forall j :: 0 <= j < i ==> key[j] == padded[j]
        invariant forall j :: i <= j < BLOCK ==> key[j] == k[j]
      {
        XorPadAt(k, pad, i);
        key[i] := key[i] ^ pad;
        i := i + 1;
      }
      assert key[..] == padded;
    }

    /** sb_hmac_sha256_reinit: start again under the same key. */
    method Reinit()
      requires Shaped()
      modifies this`data, key, sha, sha.ihash, sha.ah, sha.w, sha.buffer
      ensures Started() && data == [] && key[..] == old(key[..])
    {
      hide Digest, Blocks;
      PadTwice(key[..], IPAD);
      KeyPad(IPAD);
      sha.Init();
      sha.Update(key[..]);
      KeyPad(IPAD);
      data := [];
    }

    /** Overwrite the bytes of the key from start onwards. */
    method Store(start: nat, bytes: seq<byte>)
      requires Shaped() && start + |bytes| <= BLOCK
      modifies key
      ensures key[..] == old(key[..start]) + bytes + old(key[start + |bytes|..])
    {
      forall i | 0 <= i < |bytes| {
        key[start + i] := bytes[i];
      }
    }

    /** sb_hmac_sha256_init. */
    method Init(newKey: seq<byte>)
      requires Shaped()
      modifies this`data, key, sha, sha.ihash, sha.ah, sha.w, sha.buffer
      ensures Started() && data == [] && key[..] == BlockKey(newKey)
    {
      hide Digest, Blocks;
      Store(0, Zeros(BLOCK));
      if |newKey| > BLOCK {
        var digest := sha.Message(newKey);
        Store(0, digest);
      } else {
        Store(0, newKey);
      }
      assert key[..] == BlockKey(newKey);
      Reinit();
    }

    /** sb_hmac_sha256_update. */
    method Update(input: seq<byte>)
      requires Started()
      modifies this`data, sha, sha.ihash, sha.ah, sha.w, sha.buffer
      ensures Started() && data == old(data) + input
    {
      hide Digest, Blocks;
      Sha256.Regroup(XorPad(key[..], IPAD), data, input);
      sha.Update(input);
      data := data + input;
    }

    /** Hash the key, as it is padded now, and the input. */
    method HashWithKey(input: seq<byte>) returns (digest: seq<byte>)
      requires Shaped()
      modifies sha, sha.ihash, sha.ah, sha.w, sha.buffer
      ensures digest == Digest(key[..] + input)
    {
      hide Digest, Blocks;
      sha.Init();
      sha.Update(key[..]);
      sha.Update(input);
      assert [] + key[..] == key[..];
      digest := sha.Finish();
    }

    /** sb_hmac_sha256_finish: output the MAC; the key is as it was. */
    method Finish() returns (mac: seq<byte>)
      requires Started()
      modifies key, sha, sha.ihash, sha.ah, sha.w, sha.buffer
      ensures Shaped() && mac == Mac(key[..], data) && key[..] == old(key[..])
    {
      hide Digest, Blocks;
      mac := sha.Finish();
      PadTwice(key[..], OPAD);
      KeyPad(OPAD);
      mac := HashWithKey(mac);
      KeyPad(OPAD);
    }

    /** The outer hash, with the inner one placed in the upper half of the padded key, and then padding in the
        lower half. */
    method OuterInPlace(ghost k: seq<byte>) returns (mac: seq<byte>)
      requires Shaped() && sha.Valid() && |k| == BLOCK && k[DIGEST..] == Zeros(DIGEST) && key[..] == XorPad(k, OPAD)
      modifies key, sha, sha.ihash, sha.ah, sha.w, sha.buffer
      ensures mac == Digest(XorPad(k, OPAD) + Digest(old(sha.fed)))
    {
      hide Digest, Blocks, XorPad, Filled;
      ghost var padded := key[..];
      var inner := sha.Finish();
      Store(DIGEST, inner);
      assert key[..DIGEST] == padded[..DIGEST] && key[DIGEST..] == inner;
      sha.Init();
      sha.Update(key[..DIGEST]);
      assert sha.fed == padded[..DIGEST];
      Store(0, Filled(OPAD));
      assert key[..DIGEST] == Filled(OPAD) && key[DIGEST..] == inner;
      sha.Update(key[..DIGEST]);
      sha.Update(key[DIGEST..]);
      OuterInput(k, inner);
      mac := sha.Finish();
    }

    /** A key of half a block. */
    method ReplaceKey(mac: seq<byte>)
      requires Shaped() && |mac| == DIGEST
      modifies key
      ensures key[..] == BlockKey(mac) && key[DIGEST..] == Zeros(DIGEST)
    {
      Store(0, mac);
      Store(DIGEST, Zeros(DIGEST));
      assert key[..] == mac + Zeros(DIGEST);
    }

    /** sb_hmac_sha256_finish_to_key: the MAC becomes the new key, through the unused upper half of the old
        one; the object starts again under the new key. */
    method FinishToKey()
      requires Started() && key[DIGEST..] == Zeros(DIGEST)
      modifies this`data, key, sha, sha.ihash, sha.ah, sha.w, sha.buffer
      ensures Started() && data == [] && key[..] == BlockKey(Mac(old(key[..]), old(data)))
      ensures key[DIGEST..] == Zeros(DIGEST)
    {
      hide Digest, Blocks;
      ghost var k := key[..];
      KeyPad(OPAD);
      var mac := OuterInPlace(k);
      ReplaceKey(mac);
      ghost var k' := key[..];
      Reinit();
      assert key[DIGEST..] == k'[DIGEST..];
    }

    /** The plain way to the same state: finish, then start with the MAC as the key. */
    method FinishThenInit()
      requires Started()
      modifies this`data, key, sha, sha.ihash, sha.ah, sha.w, sha.buffer
      ensures Started() && data == [] && key[..] == BlockKey(Mac(old(key[..]), old(data)))
    {
      hide Digest, Blocks;
      var mac := Finish();
      Init(mac);
    }
  }

  /** Half a block of one byte value. */
  function Filled(b: byte): (s: seq<byte>)
    ensures |s| == DIGEST
  {
    seq(DIGEST, i => b)
  }

  /** Padding the unused half of the key gives the padding byte. */
  lemma OuterInput(k: seq<byte>, inner: seq<byte>)
    requires |k| == BLOCK && k[DIGEST..] == Zeros(DIGEST)
    ensures XorPad(k, OPAD)[..DIGEST] + Filled(OPAD) + inner == XorPad(k, OPAD) + inner
  {
    forall i | DIGEST <= i < BLOCK
      ensures XorPad(k, OPAD)[i] == OPAD
    {
      assert k[i] == k[DIGEST..][i - DIGEST] == 0;
      ZeroXor(OPAD);
    }
    assert XorPad(k, OPAD)[..DIGEST] + Filled(OPAD) == XorPad(k, OPAD);
  }

  // ---- output in blocks ----

  /** Digests that are needed for a number of bytes. */
  function BlocksFor(len: nat): (n: nat)
    ensures DIGEST * n >= len && (n > 0 ==> DIGEST * (n - 1) < len)
  {
    (len + DIGEST - 1) / DIGEST
  }

  lemma EnoughBlocks(n: nat, len: nat)
    requires len <= DIGEST * n && (n > 0 ==> DIGEST * (n - 1) < len)
    ensures n == BlocksFor(len)
  {
  }
}
