/** sb_sha256.c: the streaming hash object. */
module Sha256 {
  import opened Bytes
  import opened Sha256Spec

  const UINT32: nat := 0x1_0000_0000

  /** The rewritten forms of Ch and Maj. */
  function FastCh(x: word, y: word, z: word): word { z ^ (x & (y ^ z)) }

  function FastMaj(x: word, y: word, z: word): word { (x & y) | (z & (x | y)) }

  lemma ChIdentity(x: word, y: word, z: word)
    ensures z ^ (x & (y ^ z)) == (x & y) ^ (!x & z)
  {
  }

  lemma MajIdentity(x: word, y: word, z: word)
    ensures (x & y) | (z & (x | y)) == (x & y) ^ (x & z) ^ (y & z)
  {
  }

  lemma FastForms(x: word, y: word, z: word)
    ensures FastCh(x, y, z) == Ch(x, y, z) && FastMaj(x, y, z) == Maj(x, y, z)
  {
    ChIdentity(x, y, z);
    MajIdentity(x, y, z);
  }

  function FastT1(h: word, e: word, f: word, g: word, k: word, w: word): word {
    Plus(Plus(Plus(Plus(h, BigSigma1(e)), FastCh(e, f, g)), k), w)
  }

  function FastT2(a: word, b: word, c: word): word {
    Plus(BigSigma0(a), FastMaj(a, b, c))
  }

  lemma FastSums(v: seq<word>, k: word, w: word)
    requires |v| == 8
    ensures FastT1(v[7], v[4], v[5], v[6], k, w) == T1(v[7], v[4], v[5], v[6], k, w)
    ensures FastT2(v[0], v[1], v[2]) == T2(v[0], v[1], v[2])
  {
    FastForms(v[4], v[5], v[6]);
    FastForms(v[0], v[1], v[2]);
  }

  /** Where working variable i is kept in round t: the variables rotate instead of being moved. */
  function Slot(i: nat, t: nat): (s: nat)
    requires i < 8 && t <= 64
    ensures s < 8
  {
    (i + (64 - t)) % 8
  }

  lemma SlotShifts(i: nat, t: nat)
    requires i < 8 && t < 64
    ensures Slot(i, t + 1) == Slot(if i == 0 then 7 else i - 1, t)
  {
  }

  lemma SlotsDiffer(i: nat, j: nat, t: nat)
    requires i < 8 && j < 8 && t <= 64
    ensures Slot(i, t) == Slot(j, t) <==> i == j
  {
  }

  ghost predicate Rotated<T>(ah: seq<T>, v: seq<T>, t: nat)
    requires |ah| == 8 && |v| == 8 && t <= 64
  {
    forall i :: 0 <= i < 8 ==> ah[Slot(i, t)] == v[i]
  }

  /** One round updates two of the working variables in place. */
  lemma RotatedRound<T>(ah: seq<T>, v: seq<T>, t: nat, e: T, a: T)
    requires |ah| == 8 && |v| == 8 && t < 64 && Rotated(ah, v, t)
    ensures Rotated(ah[Slot(3, t) := e][Slot(7, t) := a], [a, v[0], v[1], v[2], e, v[4], v[5], v[6]], t + 1)
  {
    var ah', v' := ah[Slot(3, t) := e][Slot(7, t) := a], [a, v[0], v[1], v[2], e, v[4], v[5], v[6]];
    forall i | 0 <= i < 8
      ensures ah'[Slot(i, t + 1)] == v'[i]
    {
      SlotShifts(i, t);
      var was := if i == 0 then 7 else i - 1;
      SlotsDiffer(was, 3, t);
      SlotsDiffer(was, 7, t);
    }
  }

  /** The window holds the last sixteen words of the schedule. */
  ghost predicate Window<T>(w: seq<T>, schedule: seq<T>)
    requires |w| == 16
  {
    forall j :: 0 <= j < |schedule| <= j + 16 ==> w[j % 16] == schedule[j]
  }

  lemma WindowStep<T>(w: seq<T>, schedule: seq<T>, x: T)
    requires |w| == 16 && Window(w, schedule)
    ensures Window(w[|schedule| % 16 := x], schedule + [x])
  {
    var t := |schedule|;
    forall j | 0 <= j < t + 1 <= j + 16
      ensures w[t % 16 := x][j % 16] == (schedule + [x])[j]
    {
      if j < t {
        assert j % 16 != t % 16;
      }
    }
  }

  lemma WindowAt<T>(w: seq<T>, schedule: seq<T>, i: nat)
    requires |w| == 16 && Window(w, schedule) && 1 <= i <= 16 <= |schedule|
    ensures w[((16 - i) + |schedule|) % 16] == schedule[|schedule| - i]
  {
    assert ((16 - i) + |schedule|) % 16 == (|schedule| - i) % 16;
  }

  /** The whole blocks of a message, and the bytes after them. */
  function Whole(m: seq<byte>): seq<byte> { m[..|m| - |m| % BLOCK] }

  function Tail(m: seq<byte>): seq<byte> { m[|m| - |m| % BLOCK..] }

  lemma Split(m: seq<byte>)
    ensures m == Whole(m) + Tail(m) && |Whole(m)| % BLOCK == 0 && |Tail(m)| == |m| % BLOCK
  {
  }

  lemma TailIs(a: seq<byte>, t: seq<byte>)
    requires |a| % BLOCK == 0
    ensures |t| < BLOCK ==> Tail(a + t) == t
    ensures |t| == BLOCK ==> Tail(a + t) == []
  {
    assert |a + t| % BLOCK == |t| % BLOCK;
  }

  lemma Regroup(a: seq<byte>, t: seq<byte>, c: seq<byte>)
    ensures a + t + c == a + (t + c)
  {
  }

  /** Bytes that do not fill the block that has been started. */
  lemma Absorbs(h: seq<word>, m: seq<byte>, chunk: seq<byte>)
    requires |h| == 8 && |m| % BLOCK + |chunk| < BLOCK
    ensures Blocks(h, m + chunk) == Blocks(h, m) && Tail(m + chunk) == Tail(m) + chunk
  {
    Split(m);
    var a, t := Whole(m), Tail(m);
    Regroup(a, t, chunk);
    TailIs(a, t + chunk);
    PartialBlock(h, a, t + chunk);
    PartialBlock(h, a, t);
  }

  lemma Fills(h: seq<word>, m: seq<byte>, chunk: seq<byte>)
    requires |h| == 8 && |m| % BLOCK + |chunk| == BLOCK
    ensures |Tail(m) + chunk| == BLOCK
    ensures Blocks(h, m + chunk) == Compress(Blocks(h, m), Tail(m) + chunk) && Tail(m + chunk) == []
  {
    Split(m);
    var a, t := Whole(m), Tail(m);
    Regroup(a, t, chunk);
    TailIs(a, t + chunk);
    PartialBlock(h, a, t);
    BlocksAppend(h, a, t + chunk);
    OneBlock(Blocks(h, a), t + chunk);
  }

  lemma AbsorbsOrFills(h: seq<word>, m: seq<byte>, chunk: seq<byte>)
    requires |h| == 8 && |m| % BLOCK + |chunk| <= BLOCK
    ensures if |m| % BLOCK + |chunk| == BLOCK
            then |Tail(m) + chunk| == BLOCK && Tail(m + chunk) == []
                 && Blocks(h, m + chunk) == Compress(Blocks(h, m), Tail(m) + chunk)
            else Tail(m + chunk) == Tail(m) + chunk && Blocks(h, m + chunk) == Blocks(h, m)
  {
    if |m| % BLOCK + |chunk| == BLOCK {
      Fills(h, m, chunk);
    } else {
      Absorbs(h, m, chunk);
    }
  }

  /** Padding that fits into the block that has been started. */
  lemma PadsShort(h: seq<word>, m: seq<byte>, bits: nat)
    requires |h| == 8 && |m + [0x80]| % BLOCK <= BLOCK - 8
    ensures var m1 := m + [0x80];
            var block := Tail(m1) + Zeros(BLOCK - 8 - |m1| % BLOCK) + LengthBytes(bits);
            |block| == BLOCK && Blocks(h, PadWith(m, bits)) == Compress(Blocks(h, m1), block)
  {
    var m1 := m + [0x80];
    var zeros := Zeros(BLOCK - 8 - |m1| % BLOCK);
    PadCount(|m|, |m1| % BLOCK);
    Regroup(m1, zeros, LengthBytes(bits));
    Fills(h, m1, zeros + LengthBytes(bits));
    Regroup(Tail(m1), zeros, LengthBytes(bits));
  }

  /** Padding that needs another block. */
  lemma PadsLong(h: seq<word>, m: seq<byte>, bits: nat)
    requires |h| == 8 && |m + [0x80]| % BLOCK > BLOCK - 8
    ensures var m1 := m + [0x80];
            var block, last := Tail(m1) + Zeros(BLOCK - |m1| % BLOCK), Zeros(BLOCK - 8) + LengthBytes(bits);
            && |block| == BLOCK && |last| == BLOCK
            && Blocks(h, PadWith(m, bits)) == Compress(Compress(Blocks(h, m1), block), last)
  {
    var m1 := m + [0x80];
    var zeros, last := Zeros(BLOCK - |m1| % BLOCK), Zeros(BLOCK - 8) + LengthBytes(bits);
    PadCount(|m|, |m1| % BLOCK);
    LongPadding(m, bits, zeros);
    Fills(h, m1, zeros);
    WholeLength(|m1|, |zeros|);
    AnotherBlock(h, m1 + zeros, last);
  }

  lemma AnotherBlock(h: seq<word>, m: seq<byte>, last: seq<byte>)
    requires |h| == 8 && |m| % BLOCK == 0 && |last| == BLOCK
    ensures Blocks(h, m + last) == Compress(Blocks(h, m), last)
  {
    BlocksAppend(h, m, last);
    OneBlock(Blocks(h, m), last);
  }

  lemma Padding(h: seq<word>, m: seq<byte>, bits: nat)
    requires |h| == 8
    ensures var m1, last := m + [0x80], Zeros(BLOCK - 8) + LengthBytes(bits);
            var fill := |m1| % BLOCK;
            |Tail(m1)| == fill && Blocks(h, PadWith(m, bits)) ==
            if fill > BLOCK - 8 then Compress(Compress(Blocks(h, m1), Tail(m1) + Zeros(BLOCK - fill)), last)
            else Compress(Blocks(h, m1), Tail(m1) + Zeros(BLOCK - 8 - fill) + LengthBytes(bits))
  {
    if |m + [0x80]| % BLOCK > BLOCK - 8 {
      PadsLong(h, m, bits);
    } else {
      PadsShort(h, m, bits);
    }
  }

  lemma LongPadding(m: seq<byte>, bits: nat, zeros: seq<byte>)
    requires |zeros| + BLOCK - 8 == PadZeros(|m|) && zeros == Zeros(|zeros|)
    ensures PadWith(m, bits) == (m + [0x80] + zeros) + (Zeros(BLOCK - 8) + LengthBytes(bits))
  {
  }

  lemma WholeLength(len: nat, k: nat)
    requires len % BLOCK + k == BLOCK
    ensures (len + k) % BLOCK == 0
  {
  }

  /** The fill of the buffer is known from the 32-bit count. */
  lemma Counts(total: nat, len: nat, k: nat)
    requires total == len % UINT32 && 0 < k <= BLOCK - total % BLOCK
    ensures total % BLOCK == len % BLOCK && (total + k) % UINT32 == (len + k) % UINT32
    ensures (len + k) % BLOCK == if len % BLOCK + k == BLOCK then 0 else len % BLOCK + k
    ensures ((total + k) % UINT32) % BLOCK == (len + k) % BLOCK
  {
    FillOfCount(len);
    FillOfCount(len + k);
    CountWraps(len, k);
    FillAfter(len, k);
  }

  lemma FillOfCount(len: nat)
    ensures (len % UINT32) % BLOCK == len % BLOCK
  {
  }

  lemma CountWraps(len: nat, k: nat)
    ensures (len % UINT32 + k) % UINT32 == (len + k) % UINT32
  {
  }

  lemma FillAfter(len: nat, k: nat)
    requires 0 < k <= BLOCK - len % BLOCK
    ensures (len + k) % BLOCK == if len % BLOCK + k == BLOCK then 0 else len % BLOCK + k
  {
  }

  lemma PadCount(len: nat, fill: nat)
    requires fill == (len + 1) % BLOCK
    ensures PadZeros(len) == if fill <= BLOCK - 8 then BLOCK - 8 - fill else 2 * BLOCK - 8 - fill
  {
  }

  /** Where the bytes end that the buffer can take in one go. */
  function NextChunk(total: nat, pos: nat, len: nat): (next: nat)
    requires pos < len
    ensures pos < next <= len && next - pos <= BLOCK - total % BLOCK
  {
    var remaining := BLOCK - total % BLOCK;
    if len - pos > remaining then pos + remaining else len
  }

  /** What the object computes: the count of bytes, and so the length that is encoded, has 32 bits. */
  function Digest(m: seq<byte>): (digest: seq<byte>)
    ensures |digest| == DIGEST
  {
    HashBytes(Blocks(INIT, PadWith(m, 8 * (|m| % UINT32))))
  }

  /** Messages shorter than 2^32 bytes are hashed as RFC 6234 defines; from that length on the encoded length
      is another one. */
  lemma DigestIsSha256(m: seq<byte>)
    ensures |m| < 0x1_0000_0000 ==> Digest(m) == Sha256Spec.Sha256(m)
    ensures 8 * (|m| % 0x1_0000_0000) == 8 * |m| <==> |m| < 0x1_0000_0000
  {
    CountExact(|m|);
    if |m| < UINT32 {
      assert PadWith(m, 8 * (|m| % UINT32)) == Padded(m);
    }
  }

  lemma CountExact(len: nat)
    ensures len % UINT32 == len <==> len < UINT32
  {
  }

  class State {
    const ihash: array<word>
    const ah: array<word>
    const w: array<word>
    const buffer: array<byte>
    /** A 32-bit count. */
    var totalBytes: nat
    /** The bytes that have been hashed. */
    ghost var fed: seq<byte>

    ghost predicate Shaped()
    {
      && ihash.Length == 8 && ah.Length == 8 && w.Length == 16 && buffer.Length == BLOCK
      && ihash != ah && ihash != w && ah != w
    }

    ghost function Repr(): set<object>
    {
      {this, ihash, ah, w, buffer}
    }

    /** The state stands for the bytes fed so far: whole blocks are hashed, the rest is in the buffer. */
    ghost predicate Valid()
      reads this, ihash, buffer
    {
      && Shaped()
      && totalBytes == |fed| % UINT32
      && ihash[..] == Blocks(INIT, fed)
      && buffer[..|fed| % BLOCK] == Tail(fed)
    }

    constructor ()
      ensures Shaped() && fresh(Repr())
    {
      ihash := new word[8];
      ah := new word[8];
      w := new word[16];
      buffer := new byte[BLOCK];
    }

    /** The next word of the schedule, kept in the window. */
    method NextWord(m: seq<byte>, t: nat) returns (wt: word)
      requires Shaped() && |m| == BLOCK && t < 64 && Window(w[..], Schedule(m, t))
      modifies w
      ensures wt == Schedule(m, t + 1)[t] && Window(w[..], Schedule(m, t + 1))
    {
      if t < 16 {
        wt := WordAt(m, 4 * t);
      } else {
        WindowAt(w[..], Schedule(m, t), 2);
        WindowAt(w[..], Schedule(m, t), 7);
        WindowAt(w[..], Schedule(m, t), 15);
        WindowAt(w[..], Schedule(m, t), 16);
        wt := Sha256Spec.NextWord(w[(14 + t) % 16], w[(9 + t) % 16], w[(1 + t) % 16], w[(0 + t) % 16]);
      }
      WindowStep(w[..], Schedule(m, t), wt);
      w[t % 16] := wt;
    }

    method RoundInPlace(t: nat, k: word, wt: word, ghost v: seq<word>)
      requires Shaped() && t < 64 && |v| == 8 && Rotated(ah[..], v, t)
      modifies ah
      ensures Rotated(ah[..], Round(v, k, wt), t + 1)
    {
      assert forall i :: 0 <= i < 8 ==> ah[..][Slot(i, t)] == v[i];
      FastSums(v, k, wt);
      var t1 := FastT1(ah[Slot(7, t)], ah[Slot(4, t)], ah[Slot(5, t)], ah[Slot(6, t)], k, wt);
      var t2 := FastT2(ah[Slot(0, t)], ah[Slot(1, t)], ah[Slot(2, t)]);
      RotatedRound(ah[..], v, t, Plus(v[3], t1), Plus(t1, t2));
      ah[Slot(3, t)] := Plus(ah[Slot(3, t)], t1);
      ah[Slot(7, t)] := Plus(t1, t2);
    }

    /** sb_sha256_process_block. */
    method ProcessBlock(m: seq<byte>)
      requires Shaped() && |m| == BLOCK
      modifies ihash, ah, w
      ensures ihash[..] == Compress(old(ihash[..]), m)
    {
      ghost var h := ihash[..];
      forall i | 0 <= i < 8 {
        ah[i] := ihash[i];
      }
      var t := 0;
      while t < |K|
        invariant 0 <= t <= |K| && ihash[..] == h
        invariant Window(w[..], Schedule(m, t)) && Rotated(ah[..], Rounds(h, m, t), t)
      {
        var wt := NextWord(m, t);
        RoundInPlace(t, K[t], wt, Rounds(h, m, t));
        t := t + 1;
      }
      AddBack(Rounds(h, m, |K|));
    }

    method AddBack(ghost v: seq<word>)
      requires Shaped() && |v| == 8 && Rotated(ah[..], v, 64)
      modifies ihash
      ensures ihash[..] == AddWords(old(ihash[..]), v)
    {
      ghost var h, sum := ihash[..], AddWords(ihash[..], v);
      assert forall i :: 0 <= i < 8 ==> Slot(i, 64) == i;
      var t := 0;
      while t < 8
        invariant 0 <= t <= 8
        invariant forall i :: 0 <= i < t ==> ihash[i] == sum[i]
        invariant forall i :: t <= i < 8 ==> ihash[i] == h[i]
      {
        assert ah[Slot(t, 64)] == v[t];
        ihash[t] := Plus(ihash[t], ah[t]);
        t := t + 1;
      }
      assert ihash[..] == sum;
    }

    /** sb_sha256_init. */
    method Init()
      requires Shaped()
      modifies this, ihash, ah, w, buffer
      ensures Valid() && fed == []
    {
      forall i | 0 <= i < 8 {
        ihash[i] := INIT[i];
      }
      totalBytes := 0;
      fed := [];
      assert ihash[..] == INIT;
    }

    /** Count k more bytes, which at most fill the block that has been started. */
    method Count(k: nat) returns (fill: nat, full: bool)
      requires totalBytes == |fed| % UINT32 && 0 < k <= BLOCK - totalBytes % BLOCK
      modifies this`totalBytes
      ensures totalBytes == (|fed| + k) % UINT32 && fill == |fed| % BLOCK
      ensures fill + k <= BLOCK && (full <==> fill + k == BLOCK)
      ensures (|fed| + k) % BLOCK == if full then 0 else fill + k
    {
      Counts(totalBytes, |fed|, k);
      fill := totalBytes % BLOCK;
      totalBytes := (totalBytes + k) % UINT32;
      full := totalBytes % BLOCK == 0;
    }

    /** One iteration of sb_sha256_update. */
    method Absorb(chunk: seq<byte>)
      requires Valid() && 0 < |chunk| <= BLOCK - totalBytes % BLOCK
      modifies this, ihash, ah, w, buffer
      ensures Valid() && fed == old(fed) + chunk
    {
      ghost var before := fed;
      var fill, full := Count(|chunk|);
      AbsorbsOrFills(INIT, before, chunk);
      Place(fill, chunk, full);
      fed := before + chunk;
    }

    /** Whole blocks are processed where they are, other bytes in the buffer once it is full. */
    method Place(fill: nat, chunk: seq<byte>, full: bool)
      requires Shaped() && fill + |chunk| <= BLOCK && (full <==> fill + |chunk| == BLOCK)
      modifies ihash, ah, w, buffer
      ensures full ==> ihash[..] == Compress(old(ihash[..]), old(buffer[..fill]) + chunk)
      ensures !full ==> ihash[..] == old(ihash[..]) && buffer[..fill + |chunk|] == old(buffer[..fill]) + chunk
    {
      if fill == 0 && |chunk| == BLOCK {
        assert buffer[..fill] + chunk == chunk;
        ProcessBlock(chunk);
      } else {
        CopyIn(fill, chunk);
        if full {
          assert buffer[..] == buffer[..fill + |chunk|];
          ProcessBlock(buffer[..]);
        }
      }
    }

    method CopyIn(fill: nat, chunk: seq<byte>)
      requires Shaped() && fill + |chunk| <= BLOCK
      modifies buffer
      ensures buffer[..fill + |chunk|] == old(buffer[..fill]) + chunk
    {
      forall i | 0 <= i < |chunk| {
        buffer[fill + i] := chunk[i];
      }
    }

    /** sb_sha256_update. */
    method Update(input: seq<byte>)
      requires Valid()
      modifies this, ihash, ah, w, buffer
      ensures Valid() && fed == old(fed) + input
    {
      hide Blocks, Tail;
      var pos := 0;
      while pos < |input|
        invariant 0 <= pos <= |input|
        invariant Valid() && fed == old(fed) + input[..pos]
      {
        var next := NextChunk(totalBytes, pos, |input|);
        Absorb(input[pos..next]);
        assert input[..next] == input[..pos] + input[pos..next];
        pos := next;
      }
      assert input[..pos] == input;
    }

    method Clear(start: nat)
      requires Shaped() && start <= BLOCK
      modifies buffer
      ensures buffer[..] == old(buffer[..start]) + Zeros(BLOCK - start)
    {
      forall i | start <= i < BLOCK {
        buffer[i] := 0;
      }
    }

    method SetLength(bits: nat)
      requires Shaped()
      modifies buffer
      ensures buffer[..] == old(buffer[..BLOCK - 8]) + LengthBytes(bits)
    {
      var l := LengthBytes(bits);
      forall i | 0 <= i < 8 {
        buffer[BLOCK - 8 + i] := l[i];
      }
    }

    /** sb_sha256_finish_internal: the digest words end in ihash.  The 32-bit count bounds the length that is
        encoded. */
    method FinishInternal()
      requires Valid()
      modifies this, ihash, ah, w, buffer
      ensures Shaped() && ihash[..] == Blocks(INIT, PadWith(old(fed), 8 * (|old(fed)| % UINT32)))
    {
      ghost var m := fed;
      var bits := 8 * totalBytes;
      Update([0x80]);
      Counts(totalBytes, |fed|, 1);
      var fill := totalBytes % BLOCK;
      Padding(INIT, m, bits);
      FillRest(fill, bits);
    }

    /** Clear the rest of the buffer, process it if the length does not fit, and process the length. */
    method FillRest(fill: nat, bits: nat)
      requires Shaped() && fill < BLOCK
      modifies ihash, ah, w, buffer
      ensures var last := Zeros(BLOCK - 8) + LengthBytes(bits);
              ihash[..] ==
              if fill > BLOCK - 8
              then Compress(Compress(old(ihash[..]), old(buffer[..fill]) + Zeros(BLOCK - fill)), last)
              else Compress(old(ihash[..]), old(buffer[..fill]) + Zeros(BLOCK - 8 - fill) + LengthBytes(bits))
    {
      hide Compress, LengthBytes;
      Clear(fill);
      if BLOCK - fill < 8 {
        ProcessBlock(buffer[..]);
        Clear(0);
      }
      ghost var before := buffer[..BLOCK - 8];
      SetLength(bits);
      assert fill <= BLOCK - 8 ==> before == old(buffer[..fill]) + Zeros(BLOCK - 8 - fill);
      assert fill > BLOCK - 8 ==> before == Zeros(BLOCK - 8);
      ProcessBlock(buffer[..]);
    }

    /** Write the digest words to the buffer, from byte 0. */
    method StoreDigest()
      requires Shaped()
      modifies buffer
      ensures buffer[..DIGEST] == HashBytes(ihash[..])
    {
      ghost var h := ihash[..];
      var i := 0;
      while i < 8
        invariant 0 <= i <= 8 && ihash[..] == h
        invariant buffer[..4 * i] == HashBytes(h[..i])
      {
        var bytes := WordBytes(ihash[i]);
        ghost var before := buffer[..4 * i];
        forall j | 0 <= j < 4 {
          buffer[4 * i + j] := bytes[j];
        }
        assert buffer[..4 * i + 4] == before + bytes;
        HashBytesAppend(h[..i], h[i]);
        assert h[..i + 1] == h[..i] + [h[i]];
        i := i + 1;
      }
      assert h[..8] == h;
    }

    /** sb_sha256_finish_to_buffer. */
    method FinishToBuffer()
      requires Valid()
      modifies this, ihash, ah, w, buffer
      ensures Shaped() && buffer[..DIGEST] == Digest(old(fed))
    {
      FinishInternal();
      StoreDigest();
    }

    /** SB_NULLIFY. */
    method Nullify()
      requires Shaped()
      modifies this, ihash, ah, w, buffer
      ensures totalBytes == 0 && (forall i :: 0 <= i < 8 ==> ihash[i] == 0 && ah[i] == 0)
      ensures (forall i :: 0 <= i < 16 ==> w[i] == 0) && buffer[..] == Zeros(BLOCK)
    {
      forall i | 0 <= i < 8 {
        ihash[i] := 0;
      }
      forall i | 0 <= i < 8 {
        ah[i] := 0;
      }
      forall i | 0 <= i < 16 {
        w[i] := 0;
      }
      Clear(0);
      totalBytes := 0;
    }

    /** sb_sha256_finish: the digest is output and the state cleared. */
    method Finish() returns (digest: seq<byte>)
      requires Valid()
      modifies this, ihash, ah, w, buffer
      ensures Shaped() && digest == Digest(old(fed))
      ensures totalBytes == 0 && buffer[..] == Zeros(BLOCK) && forall i :: 0 <= i < 8 ==> ihash[i] == 0
    {
      FinishToBuffer();
      digest := buffer[..DIGEST];
      Nullify();
    }

    /** sb_sha256_message. */
    method Message(input: seq<byte>) returns (digest: seq<byte>)
      requires Shaped()
      modifies this, ihash, ah, w, buffer
      ensures Shaped() && digest == Digest(input)
      ensures |input| < 0x1_0000_0000 ==> digest == Sha256Spec.Sha256(input)
    {
      DigestIsSha256(input);
      Init();
      Update(input);
      assert [] + input == input;
      digest := Finish();
    }
  }

  lemma {:induction false} HashBytesAppend(h: seq<word>, w: word)
    ensures HashBytes(h + [w]) == HashBytes(h) + WordBytes(w)
  {
    if h == [] {
      assert h + [w] == [w];
      assert HashBytes([w]) == WordBytes(w) + HashBytes([w][1..]) == WordBytes(w);
    } else {
      assert (h + [w])[1..] == h[1..] + [w];
      HashBytesAppend(h[1..], w);
    }
  }
}
