/** sb_sw_lib.c: per-message secrets without a random source, and section 3.2 of RFC 6979. */
module Rfc6979 {
  import opened Results
  import opened ModArith
  import opened QuasiField
  import opened Bytes
  import opened FieldBytes
  import opened Sha256Spec
  import opened Sha256
  import opened Hmac
  import opened Drbg
  import CoZ
  import Sign

  // ---- section 3.2 of RFC 6979, for a hash and an order of 32 bytes ----

  /** K and V after step g, for the private key and the message as byte strings. */
  function Seeded(x: seq<byte>, h: seq<byte>): Working {
    var k0, v0 := Repeated(0), Repeated(1);
    var k1 := HmacOf(k0, v0 + [0] + x + h);
    var v1 := HmacOf(k1, v0);
    var k2 := HmacOf(k1, v1 + [1] + x + h);
    Working(k2, HmacOf(k2, v1), 1)
  }

  /** K and V after a candidate has been rejected in step h. */
  function Rejected(w: Working): Working {
    var t := HmacOf(w.key, w.v);
    var key := HmacOf(w.key, t + [0]);
    Working(key, HmacOf(key, t), w.counter + 1)
  }

  function State(x: seq<byte>, h: seq<byte>, j: nat): Working {
    if j == 0 then Seeded(x, h) else Rejected(State(x, h, j - 1))
  }

  /** The candidate number j, as bytes. */
  function CandidateBytes(x: seq<byte>, h: seq<byte>, j: nat): seq<byte> {
    var w := State(x, h, j);
    HmacOf(w.key, w.v)
  }

  /** The generator is seeded as the standard demands. */
  lemma SeededAlike(x: seq<byte>, h: seq<byte>)
    requires x != []
    ensures Instantiate(x, h, []) == Seeded(x, h)
  {
    hide HmacOf;
    var v0 := Repeated(1);
    assert x + h + [] == x + h;
    Sha256.Regroup(v0 + [0], x, h);
    var half := HalfUpdate(Unseeded(), 0, x + h);
    Sha256.Regroup(half.v + [1], x, h);
  }

  /** A request for one candidate outputs V, and updates K and V as after a rejection. */
  lemma GeneratesCandidate(w: Working)
    requires w.Valid()
    ensures Generated(w, DIGEST, []) == HmacOf(w.key, w.v) && AfterGenerate(w, DIGEST, []) == Rejected(w)
  {
    hide HmacOf;
    assert BlocksFor(DIGEST) == 1;
    assert Chain(w, 1) == HmacOf(w.key, Chain(w, 0));
    assert Outputs(w, 1) == Outputs(w, 0) + ChainBlock(w, 1);
    assert Outputs(w, 1)[..DIGEST] == ChainBlock(w, 1);
    var t := HmacOf(w.key, w.v);
    assert t + [0] + [] == t + [0];
  }

  lemma {:induction false} StateValid(x: seq<byte>, h: seq<byte>, j: nat)
    ensures State(x, h, j).Valid() && State(x, h, j).counter == j + 1
  {
    hide HmacOf;
    if j > 0 {
      StateValid(x, h, j - 1);
    }
  }

  /** The candidates that the signing routine generates. */
  method Candidates(drbg: DrbgState, x: seq<byte>, h: seq<byte>) returns (chunks: seq<seq<byte>>)
    requires drbg.Shaped() && |x| == DIGEST && |h| == DIGEST
    modifies drbg`counter, drbg.v, drbg.hmac`data, drbg.hmac.key, drbg.hmac.sha, drbg.hmac.sha.ihash,
             drbg.hmac.sha.ah, drbg.hmac.sha.w, drbg.hmac.sha.buffer
    ensures |chunks| == Sign.CANDIDATES
    ensures forall j :: 0 <= j < Sign.CANDIDATES ==> chunks[j] == CandidateBytes(x, h, j)
  {
    hide HmacOf, Blocks, Digest, BlockKey, AfterGenerate, Instantiate, Seeded, Rejected, Updates, Initial;
    SeededAlike(x, h);
    var errors := drbg.Init(x, h, []);
    assert errors == {};
    chunks := [];
    while |chunks| < Sign.CANDIDATES
      invariant |chunks| <= Sign.CANDIDATES && drbg.Is(State(x, h, |chunks|))
      invariant forall j :: 0 <= j < |chunks| ==> chunks[j] == CandidateBytes(x, h, j)
      decreases Sign.CANDIDATES - |chunks|
    {
      ghost var w := State(x, h, |chunks|);
      StateValid(x, h, |chunks|);
      GeneratesCandidate(w);
      var chunk := OneCandidate(drbg, w);
      chunks := chunks + [chunk];
    }
  }

  method OneCandidate(drbg: DrbgState, ghost w: Working) returns (chunk: seq<byte>)
    requires drbg.Is(w) && 0 < w.counter <= RESEED_INTERVAL
    modifies drbg`counter, drbg.v, drbg.hmac`data, drbg.hmac.key, drbg.hmac.sha, drbg.hmac.sha.ihash,
             drbg.hmac.sha.ah, drbg.hmac.sha.w, drbg.hmac.sha.buffer
    ensures chunk == Generated(w, DIGEST, []) && drbg.Is(AfterGenerate(w, DIGEST, []))
  {
    hide HmacOf, Blocks, Digest, BlockKey, AfterGenerate, Generated;
    var out := new byte[DIGEST];
    var errors := drbg.Generate(out, [[], [], [], []], false, w);
    NothingProvided();
    assert errors == {};
    chunk := out[..];
  }

  lemma NothingProvided()
    ensures Concat([[], [], [], []]) == []
  {
    ConcatThree([], [], []);
  }

  // ---- the choice of the secret ----

  /** k is the first candidate in range; in RFC 6979 candidates are read in big-endian order. */
  ghost predicate IsSecret(x: seq<byte>, h: seq<byte>, little: bool, n: nat, k: nat) {
    exists j: nat :: IsSecretAt(x, h, little, n, k, j)
  }

  ghost predicate IsSecretAt(x: seq<byte>, h: seq<byte>, little: bool, n: nat, k: nat, j: nat) {
    && 1 <= k < n && k == Number(CandidateBytes(x, h, j), little)
    && forall i :: 0 <= i < j ==> !InRange(x, h, little, n, i)
  }

  predicate InRange(x: seq<byte>, h: seq<byte>, little: bool, n: nat, j: nat) {
    1 <= Number(CandidateBytes(x, h, j), little) < n
  }

  /** The standard's secret for the private key x and the message msg. */
  ghost predicate IsStandardSecret(x: nat, msg: nat, n: nat, k: nat)
    requires n > 0
  {
    IsSecret(BigEndian(x, DIGEST), BigEndian(msg % n, DIGEST), false, n, k)
  }

  /** There is no other. */
  lemma SecretUnique(x: seq<byte>, h: seq<byte>, little: bool, n: nat, k: nat, k': nat)
    requires IsSecret(x, h, little, n, k) && IsSecret(x, h, little, n, k')
    ensures k == k'
  {
    hide Number, CandidateBytes;
    var j: nat :| IsSecretAt(x, h, little, n, k, j);
    var j': nat :| IsSecretAt(x, h, little, n, k', j');
    assert InRange(x, h, little, n, j) && InRange(x, h, little, n, j');
  }

  /** The routine reads candidates in the byte order that its caller chose for the other data.  The secret of the
      little-endian order is the standard's exactly if the candidates that the two orders choose are each other's
      reverse. */
  lemma ByteOrderMatters(x: seq<byte>, h: seq<byte>, n: nat, k: nat, j: nat, k': nat, j': nat)
    requires IsSecretAt(x, h, true, n, k, j) && IsSecretAt(x, h, false, n, k', j')
    ensures k == k' <==> CandidateBytes(x, h, j) == Reverse(CandidateBytes(x, h, j'))
  {
    hide FromBigEndian, CandidateBytes, InRange;
    var s, t := CandidateBytes(x, h, j), CandidateBytes(x, h, j');
    CandidateLength(x, h, j);
    CandidateLength(x, h, j');
    ReverseTwice(s);
    ReverseTwice(t);
    if k == k' {
      FromBigEndianInjective(Reverse(s), t);
    }
  }

  lemma CandidateLength(x: seq<byte>, h: seq<byte>, j: nat)
    ensures |CandidateBytes(x, h, j)| == DIGEST
  {
    hide State;
  }

  /** The whole path: the private key x and the quasi-reduced message seed the generator,
      and the secret is the first of four candidates in range; there is a failure exactly if none is.  For
      big-endian data and a message that is not zero modulo n it is the standard's. */
  method DeterministicSecret(c: CoZ.Context, drbg: DrbgState, fn: Field, x: nat, msg: nat, little: bool)
    returns (errors: set<Error>)
    requires 0 < fn.m <= fn.radix == Pow(256, DIGEST) && drbg.Shaped()
    modifies c, drbg`counter, drbg.v, drbg.hmac`data, drbg.hmac.key, drbg.hmac.sha, drbg.hmac.sha.ihash,
             drbg.hmac.sha.ah, drbg.hmac.sha.w, drbg.hmac.sha.buffer
    ensures var key, h := BigEndian(x, DIGEST), BigEndian(fn.Qr(msg), DIGEST);
            && (errors == {} ==> IsSecret(key, h, little, fn.m, c.k))
            && (errors != {} ==>
                  && errors == {DrbgFailure}
                  && forall j :: 0 <= j < Sign.CANDIDATES ==> !InRange(key, h, little, fn.m, j))
    ensures errors == {} && !little && msg % fn.m != 0 ==> IsStandardSecret(x, msg, fn.m, c.k)
  {
    hide CandidateBytes, BigEndian, BlockKey, Blocks, Digest, Number, Field.Qr, IsSecret;
    NonzeroMessage(fn, msg);
    var key, h := BigEndian(x, DIGEST), BigEndian(fn.ModReduce(msg), DIGEST);
    var chunks := Candidates(drbg, key, h);
    var buf := [Number(chunks[0], little), Number(chunks[1], little), Number(chunks[2], little),
                Number(chunks[3], little)];
    forall j | 0 <= j < Sign.CANDIDATES
      ensures buf[j] == Number(CandidateBytes(key, h, j), little) < fn.radix
    {
      CandidateLength(key, h, j);
      CandidateFits(chunks[j], little);
    }
    errors := Sign.KFromBuf(c, fn, buf, false);
    if errors == {} {
      ghost var j :| 0 <= j < 4 && 1 <= c.k == buf[j] < fn.m && forall i :: 0 <= i < j ==> !(1 <= buf[i] < fn.m);
      ChosenMeans(key, h, little, fn.m, buf, j);
    }
  }

  // ---- the same in bytes, with HMAC of RFC 2104 ----

  /** The values that section 3.2 computes: the first K and V, those before each candidate, and the candidates. */
  datatype Trace = Trace(k0: seq<byte>, v0: seq<byte>, ks: seq<seq<byte>>, vs: seq<seq<byte>>, ts: seq<seq<byte>>) {
    /** Steps b to g: K is 32 zero bytes and V 32 bytes that are one; four MACs make the K and V of the loop. */
    ghost predicate Seeds(x: seq<byte>, h: seq<byte>, k: seq<byte>, v: seq<byte>) {
      && |k0| == 32 && (forall i :: 0 <= i < 32 ==> k0[i] == 0x00)
      && |v0| == 32 && (forall i :: 0 <= i < 32 ==> v0[i] == 0x01)
      && var k1 := StandardHmac(k0, v0 + [0x00] + x + h);
         var v1 := StandardHmac(k1, v0);
         k == StandardHmac(k1, v1 + [0x01] + x + h) && v == StandardHmac(k, v1)
    }

    /** Step h: each candidate, and the K and V after it. */
    ghost predicate Loops() {
      && |ks| == |vs| == |ts|
      && (forall j :: 0 <= j < |ts| ==> ts[j] == StandardHmac(ks[j], vs[j]))
      && (forall j :: 1 <= j < |ts| ==> ks[j] == StandardHmac(ks[j - 1], ts[j - 1] + [0x00]))
      && (forall j :: 1 <= j < |ts| ==> vs[j] == StandardHmac(ks[j], ts[j - 1]))
    }

    ghost predicate For(x: seq<byte>, h: seq<byte>) {
      |x| == |h| == 32 && |ks| == |vs| == |ts| > 0 && Seeds(x, h, ks[0], vs[0]) && Loops()
    }

    /** Candidate j is the first one in [1, n - 1]. */
    ghost predicate First(little: bool, n: nat, j: nat) {
      && j < |ts| && 1 <= Number(ts[j], little) < n
      && forall i :: 0 <= i < j ==> !(1 <= Number(ts[i], little) < n)
    }
  }

  lemma SeedMeans(t: Trace, x: seq<byte>, h: seq<byte>, k: seq<byte>, v: seq<byte>)
    requires t.Seeds(x, h, k, v) && |x| == |h| == 32
    ensures Seeded(x, h) == Working(k, v, 1) && |k| == |v| == 32
  {
    hide HmacOf, StandardHmac;
    var k0, v0 := t.k0, t.v0;
    assert k0 == Repeated(0) && v0 == Repeated(1);
    HmacIsStandard(k0, v0 + [0] + x + h);
    var k1 := HmacOf(k0, v0 + [0] + x + h);
    HmacIsStandard(k1, v0);
    var v1 := HmacOf(k1, v0);
    HmacIsStandard(k1, v1 + [1] + x + h);
    HmacIsStandard(k, v1);
  }

  lemma LoopMeans(t: Trace, j: nat, w: Working)
    requires t.Loops() && 0 < j < |t.ts| && w == Working(t.ks[j - 1], t.vs[j - 1], j) && w.Valid()
    ensures Rejected(w) == Working(t.ks[j], t.vs[j], j + 1) && |t.ks[j]| == |t.vs[j]| == 32
  {
    hide HmacOf, StandardHmac;
    var mac := HmacOf(w.key, w.v);
    HmacIsStandard(w.key, w.v);
    HmacIsStandard(w.key, mac + [0]);
    HmacIsStandard(HmacOf(w.key, mac + [0]), mac);
  }

  lemma LoopCandidate(t: Trace, j: nat)
    requires t.Loops() && j < |t.ts| && |t.ks[j]| == |t.vs[j]| == 32
    ensures t.ts[j] == HmacOf(t.ks[j], t.vs[j])
  {
    hide HmacOf, StandardHmac;
    HmacIsStandard(t.ks[j], t.vs[j]);
  }

  /** The candidates, and K and V before each, are those of the chain of MACs. */
  lemma {:induction false} CandidatesMean(t: Trace, x: seq<byte>, h: seq<byte>, j: nat)
    requires t.For(x, h) && j < |t.ts|
    ensures State(x, h, j) == Working(t.ks[j], t.vs[j], j + 1) && |t.ks[j]| == |t.vs[j]| == 32
    ensures CandidateBytes(x, h, j) == t.ts[j]
  {
    hide HmacOf, StandardHmac, Trace.Seeds, Seeded, Trace.Loops, Rejected;
    if j == 0 {
      SeedMeans(t, x, h, t.ks[0], t.vs[0]);
    } else {
      CandidatesMean(t, x, h, j - 1);
      LoopMeans(t, j, State(x, h, j - 1));
    }
    LoopCandidate(t, j);
  }

  /** Whatever the byte order, the secret is the first candidate of the chain in range. */
  lemma SecretMeans(t: Trace, x: seq<byte>, h: seq<byte>, little: bool, n: nat, k: nat, j: nat)
    requires t.For(x, h) && t.First(little, n, j)
    ensures IsSecret(x, h, little, n, k) <==> k == Number(t.ts[j], little)
    ensures forall i :: 0 <= i <= j ==> (InRange(x, h, little, n, i) <==> 1 <= Number(t.ts[i], little) < n)
  {
    hide Trace.Loops, Trace.Seeds, Number, CandidateBytes;
    forall i | 0 <= i <= j
      ensures CandidateBytes(x, h, i) == t.ts[i]
    {
      CandidatesMean(t, x, h, i);
    }
    assert IsSecretAt(x, h, little, n, Number(t.ts[j], little), j);
    if IsSecret(x, h, little, n, k) {
      SecretUnique(x, h, little, n, k, Number(t.ts[j], little));
    }
  }

  /** The secret of the standard: the chain for the key x and the message reduced modulo n as 32 bytes each, with the
      most significant one first, and the candidates read in the same way. */
  lemma StandardSecretMeans(t: Trace, x: nat, msg: nat, xs: seq<byte>, hs: seq<byte>, n: nat, k: nat, j: nat)
    requires n > 0 && Number(xs, false) == x && Number(hs, false) == msg % n
    requires t.For(xs, hs) && t.First(false, n, j)
    ensures IsStandardSecret(x, msg, n, k) <==> k == Number(t.ts[j], false)
  {
    hide Trace.Loops, Trace.Seeds, Trace.First, IsSecret, FromBigEndian, BigEndian;
    BytesKnown(xs, x, false);
    BytesKnown(hs, msg % n, false);
    SecretMeans(t, xs, hs, false, n, k, j);
  }

  /** The first of the candidates in range is the secret. */
  lemma ChosenMeans(x: seq<byte>, h: seq<byte>, little: bool, n: nat, buf: seq<nat>, j: nat)
    requires j < |buf| && 1 <= buf[j] < n && forall i :: 0 <= i < j ==> !(1 <= buf[i] < n)
    requires forall i :: 0 <= i < |buf| ==> buf[i] == Number(CandidateBytes(x, h, i), little)
    ensures IsSecret(x, h, little, n, buf[j])
  {
    hide CandidateBytes, Number;
    assert IsSecretAt(x, h, little, n, buf[j], j);
  }

  lemma CandidateFits(s: seq<byte>, little: bool)
    requires |s| == DIGEST
    ensures Number(s, little) < Pow(256, DIGEST)
  {
    FromBigEndianBound(Ordered(s, little));
  }

  lemma NonzeroMessage(fn: Field, msg: nat)
    requires fn.m > 0
    ensures msg % fn.m != 0 ==> fn.Qr(msg) == msg % fn.m
  {
  }

  /** The standard seeds with the message reduced modulo n.  The two agree exactly if that is not zero. */
  lemma SeedsAgree(fn: Field, msg: nat)
    requires 0 < fn.m < Pow(256, DIGEST)
    ensures BigEndian(fn.Qr(msg), DIGEST) == BigEndian(msg % fn.m, DIGEST) <==> msg % fn.m != 0
  {
    FromBigEndianOf(fn.Qr(msg), DIGEST);
    FromBigEndianOf(msg % fn.m, DIGEST);
  }
}
