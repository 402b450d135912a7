/** sb_hmac_drbg.c: the deterministic random bit generator. */
module Drbg {
  import opened Results
  import opened ModArith
  import opened Bytes
  import opened Sha256Spec
  import opened Sha256
  import opened Hmac

  const RESEED_INTERVAL: nat := 1024
  const MAX_BYTES_PER_REQUEST: nat := 1024
  const MIN_ENTROPY: nat := 32
  const MAX_ENTROPY: nat := 1024
  const MIN_NONCE: nat := 16
  const MAX_ADDITIONAL: nat := 1024
  const MAX_PERSONALIZATION: nat := 1024

  // ---- section 10.1.2 of NIST SP 800-90A Rev. 1 ----

  /** The working state; the counter is zero before instantiation. */
  datatype Working = Working(key: seq<byte>, v: seq<byte>, counter: nat) {
    ghost predicate Valid() { |key| == DIGEST && |v| == DIGEST }
  }

  /** One half of HMAC_DRBG_Update. */
  function HalfUpdate(w: Working, r: byte, provided: seq<byte>): Working {
    var key := HmacOf(w.key, w.v + [r] + provided);
    Working(key, HmacOf(key, w.v), w.counter)
  }

  /** HMAC_DRBG_Update: the second half is for provided data only. */
  function Update(w: Working, provided: seq<byte>): Working {
    var half := HalfUpdate(w, 0, provided);
    if provided == [] then half else HalfUpdate(half, 1, provided)
  }

  function Repeated(b: byte): (s: seq<byte>)
    ensures |s| == DIGEST
  {
    seq(DIGEST, i => b)
  }

  function Unseeded(): Working { Working(Repeated(0), Repeated(1), 0) }

  function Instantiate(entropy: seq<byte>, nonce: seq<byte>, personalization: seq<byte>): Working {
    Update(Unseeded(), entropy + nonce + personalization).(counter := 1)
  }

  function Reseeded(w: Working, entropy: seq<byte>, additional: seq<byte>): Working {
    Update(w, entropy + additional).(counter := 1)
  }

  /** V after n steps of the output loop. */
  function Chain(w: Working, n: nat): seq<byte> {
    if n == 0 then w.v else HmacOf(w.key, Chain(w, n - 1))
  }

  /** The values of V in the first n steps. */
  function Outputs(w: Working, n: nat): (s: seq<byte>)
    ensures |s| == DIGEST * n
  {
    if n == 0 then [] else Outputs(w, n - 1) + ChainBlock(w, n)
  }

  function ChainBlock(w: Working, n: nat): (s: seq<byte>)
    requires n > 0
    ensures |s| == DIGEST
  {
    HmacOf(w.key, Chain(w, n - 1))
  }

  function Primed(w: Working, additional: seq<byte>): Working {
    if additional == [] then w else Update(w, additional)
  }

  /** The bytes that HMAC_DRBG_Generate returns. */
  function Generated(w: Working, len: nat, additional: seq<byte>): (out: seq<byte>)
    ensures |out| == len
  {
    Outputs(Primed(w, additional), BlocksFor(len))[..len]
  }

  /** The working state after HMAC_DRBG_Generate. */
  function AfterGenerate(w: Working, len: nat, additional: seq<byte>): Working {
    var primed := Primed(w, additional);
    Update(primed.(v := Chain(primed, BlocksFor(len))), additional).(counter := w.counter + 1)
  }

  /** The chunks of provided data, one after the other. */
  function Concat(vectors: seq<seq<byte>>): seq<byte> {
    if vectors == [] then [] else Concat(vectors[..|vectors| - 1]) + vectors[|vectors| - 1]
  }

  // ---- which requests are refused ----

  function InstantiateErrors(entropy: seq<byte>, nonce: seq<byte>, personalization: seq<byte>): set<Error> {
    ErrorIf(InsufficientEntropy, |entropy| < MIN_ENTROPY || |nonce| < MIN_NONCE)
    + ErrorIf(InputTooLarge,
              |entropy| > MAX_ENTROPY || |nonce| > MAX_ENTROPY || |personalization| > MAX_PERSONALIZATION)
  }

  function ReseedErrors(counter: nat, entropy: seq<byte>, additional: seq<byte>): set<Error> {
    ErrorIf(DrbgUninitialized, counter == 0)
    + ErrorIf(InsufficientEntropy, |entropy| < MIN_ENTROPY)
    + ErrorIf(InputTooLarge, |entropy| > MAX_ENTROPY || |additional| > MAX_ADDITIONAL)
  }

  function GenerateErrors(counter: nat, len: nat, additional: nat, required: bool): set<Error> {
    ErrorIf(DrbgUninitialized, counter == 0)
    + ErrorIf(RequestTooLarge, len > MAX_BYTES_PER_REQUEST)
    + ErrorIf(AdditionalInputRequired, required && additional == 0)
    + ErrorIf(InputTooLarge, additional > MAX_ADDITIONAL)
    + ErrorIf(ReseedRequired, counter > RESEED_INTERVAL)
  }

  /** Only the length is compared with the limit, as a sum over the chunks. */
  function TotalLength(vectors: seq<seq<byte>>): (n: nat)
    ensures n == |Concat(vectors)|
  {
    if vectors == [] then 0 else TotalLength(vectors[..|vectors| - 1]) + |vectors[|vectors| - 1]|
  }

  class DrbgState {
    const hmac: HmacState
    const v: array<byte>
    var counter: nat

    ghost predicate Shaped()
    {
      hmac.Shaped() && v.Length == DIGEST && v != hmac.key && v != hmac.sha.buffer
    }

    /** The object stands for a working state: the key is half a block. */
    ghost predicate Is(w: Working)
      reads this, v, hmac.key
    {
      && Shaped() && w.Valid() && hmac.key[..] == BlockKey(w.key) && v[..] == w.v && counter == w.counter
    }

    constructor ()
      ensures Shaped() && fresh(this) && fresh(hmac) && fresh(v) && fresh(hmac.Repr()) && counter == 0
    {
      hmac := new HmacState();
      v := new byte[DIGEST];
      counter := 0;
    }

    method SetV(bytes: seq<byte>)
      requires Shaped() && |bytes| == DIGEST
      modifies v
      ensures v[..] == bytes
    {
      forall i | 0 <= i < DIGEST {
        v[i] := bytes[i];
      }
    }

    /** sb_hmac_drbg_update_step. */
    method UpdateStep(r: byte, vectors: seq<seq<byte>>, ghost w: Working)
      requires Is(w)
      modifies v, hmac`data, hmac.key, hmac.sha, hmac.sha.ihash, hmac.sha.ah, hmac.sha.w, hmac.sha.buffer
      ensures Is(HalfUpdate(w, r, Concat(vectors)))
    {
      hide Blocks, Digest, Mac;
      hmac.Reinit();
      hmac.Update(v[..]);
      hmac.Update([r]);
      assert hmac.data == w.v + [r];
      Provide(vectors);
      HalfKey(w.key);
      hmac.FinishToKey();
      hmac.Update(v[..]);
      assert [] + v[..] == w.v;
      var mac := hmac.Finish();
      SetV(mac);
    }

    /** Feed all chunks that are not empty. */
    method Provide(vectors: seq<seq<byte>>)
      requires Shaped() && hmac.Started()
      modifies hmac`data, hmac.sha, hmac.sha.ihash, hmac.sha.ah, hmac.sha.w, hmac.sha.buffer
      ensures hmac.Started() && hmac.data == old(hmac.data) + Concat(vectors)
    {
      hide Blocks, Digest, Mac;
      var i := 0;
      while i < |vectors|
        invariant 0 <= i <= |vectors|
        invariant hmac.Started() && hmac.data == old(hmac.data) + Concat(vectors[..i])
      {
        if |vectors[i]| > 0 {
          hmac.Update(vectors[i]);
        }
        ConcatStep(vectors, i);
        i := i + 1;
      }
      assert vectors[..i] == vectors;
    }

    /** sb_hmac_drbg_update_vec. */
    method UpdateVec(vectors: seq<seq<byte>>, any: bool, ghost w: Working)
      requires Is(w) && (any <==> Concat(vectors) != [])
      modifies v, hmac`data, hmac.key, hmac.sha, hmac.sha.ihash, hmac.sha.ah, hmac.sha.w, hmac.sha.buffer
      ensures Is(Update(w, Concat(vectors)))
    {
      hide HalfUpdate, Blocks;
      UpdateStep(0, vectors, w);
      if any {
        UpdateStep(1, vectors, HalfUpdate(w, 0, Concat(vectors)));
      }
    }

    /** sb_hmac_drbg_init.  Whatever was there before is discarded; on an error the counter stays zero. */
    method Init(entropy: seq<byte>, nonce: seq<byte>, personalization: seq<byte>) returns (errors: set<Error>)
      requires Shaped()
      modifies this`counter, v, hmac`data, hmac.key, hmac.sha, hmac.sha.ihash, hmac.sha.ah, hmac.sha.w, hmac.sha.buffer
      ensures Shaped() && errors == InstantiateErrors(entropy, nonce, personalization)
      ensures Is(if errors == {} then Instantiate(entropy, nonce, personalization) else Unseeded())
      ensures errors == {} ==>
                exists w0, w' :: Initial(w0) && Updates(w0, entropy + nonce + personalization, w')
                                 && Is(w'.(counter := 1))
    {
      hide Blocks, Digest, Mac, HalfUpdate, Update, Updates, Initial;
      counter := 0;
      SetV(Repeated(0));
      hmac.Init(v[..]);
      SetV(Repeated(1));
      errors := ErrorIf(InsufficientEntropy, |entropy| < MIN_ENTROPY || |nonce| < MIN_NONCE)
                + ErrorIf(InputTooLarge, |entropy| > MAX_ENTROPY || |nonce| > MAX_ENTROPY
                                         || |personalization| > MAX_PERSONALIZATION);
      if errors != {} {
        return;
      }
      assert |entropy| >= MIN_ENTROPY by {
        assert InsufficientEntropy !in errors;
      }
      ConcatThree(entropy, nonce, personalization);
      UpdateVec([entropy, nonce, personalization, []], true, Unseeded());
      counter := 1;
      InitialMeans(Unseeded());
      UpdateMeans(Unseeded(), entropy + nonce + personalization);
    }

    /** sb_hmac_drbg_reseed.  A refused reseed changes nothing. */
    method Reseed(entropy: seq<byte>, additional: seq<byte>, ghost w: Working) returns (errors: set<Error>)
      requires Is(w)
      modifies this`counter, v, hmac`data, hmac.key, hmac.sha, hmac.sha.ihash, hmac.sha.ah, hmac.sha.w, hmac.sha.buffer
      ensures errors == ReseedErrors(w.counter, entropy, additional)
      ensures Is(if errors == {} then Reseeded(w, entropy, additional) else w)
      ensures errors == {} ==> exists w' :: Updates(w, entropy + additional, w') && Is(w'.(counter := 1))
    {
      hide Blocks, Digest, Mac, HalfUpdate, Update, Updates;
      errors := ErrorIf(DrbgUninitialized, counter == 0)
                + ErrorIf(InsufficientEntropy, |entropy| < MIN_ENTROPY)
                + ErrorIf(InputTooLarge, |entropy| > MAX_ENTROPY || |additional| > MAX_ADDITIONAL);
      if errors != {} {
        return;
      }
      assert |entropy| >= MIN_ENTROPY by {
        assert InsufficientEntropy !in errors;
      }
      ConcatThree(entropy, additional, []);
      assert entropy + additional + [] == entropy + additional;
      UpdateVec([entropy, additional, [], []], true, w);
      counter := 1;
      UpdateMeans(w, entropy + additional);
    }

    /** The output loop: V is replaced by its MAC as often as needed. */
    method Output(out: array<byte>, ghost w: Working)
      requires Is(w) && out != v && out != hmac.key && out != hmac.sha.buffer
      modifies out, v, hmac`data, hmac.key, hmac.sha, hmac.sha.ihash, hmac.sha.ah, hmac.sha.w, hmac.sha.buffer
      ensures Is(w.(v := Chain(w, BlocksFor(out.Length)))) && out[..] == Outputs(w, BlocksFor(out.Length))[..out.Length]
    {
      hide Blocks, Digest, Mac, Outputs, Chain, BlockKey;
      ChainLength(w, 0);
      ghost var n: nat := 0;
      var produced: nat := 0;
      while produced < out.Length
        invariant produced == DIGEST * n || produced == out.Length
        invariant produced <= out.Length && DIGEST * n >= produced && (n > 0 ==> DIGEST * (n - 1) < out.Length)
        invariant Is(w.(v := Chain(w, n)))
        invariant out[..produced] == Outputs(w, n)[..produced]
      {
        var gen := if out.Length - produced > DIGEST then DIGEST else out.Length - produced;
        NextV(w, n);
        OutputsStep(w, n, gen);
        CopyOut(out, produced, gen);
        n := n + 1;
        produced := produced + gen;
      }
      EnoughBlocks(n, out.Length);
      assert out[..produced] == out[..];
    }

    method NextV(ghost w: Working, ghost n: nat)
      requires Is(w.(v := Chain(w, n)))
      modifies v, hmac`data, hmac.key, hmac.sha, hmac.sha.ihash, hmac.sha.ah, hmac.sha.w, hmac.sha.buffer
      ensures Is(w.(v := Chain(w, n + 1)))
    {
      hide Blocks, Digest, Mac, BlockKey;
      hmac.Reinit();
      hmac.Update(v[..]);
      assert [] + v[..] == v[..];
      var mac := hmac.Finish();
      SetV(mac);
    }

    method CopyOut(out: array<byte>, start: nat, count: nat)
      requires Shaped() && out != v && count <= DIGEST && start + count <= out.Length
      modifies out
      ensures out[..start + count] == old(out[..start]) + v[..count]
    {
      forall i | 0 <= i < count {
        out[start + i] := v[i];
      }
    }

    /** sb_hmac_drbg_generate_additional_vec_opt.  A refused request changes nothing. */
    method Generate(out: array<byte>, vectors: seq<seq<byte>>, required: bool, ghost w: Working)
      returns (errors: set<Error>)
      requires Is(w) && out != v && out != hmac.key && out != hmac.sha.buffer
      modifies out, this`counter, v,
               hmac`data, hmac.key, hmac.sha, hmac.sha.ihash, hmac.sha.ah, hmac.sha.w, hmac.sha.buffer
      ensures errors == GenerateErrors(w.counter, out.Length, |Concat(vectors)|, required)
      ensures errors == {} ==> out[..] == Generated(w, out.Length, Concat(vectors))
      ensures errors != {} ==> out[..] == old(out[..])
      ensures Is(if errors == {} then AfterGenerate(w, out.Length, Concat(vectors)) else w)
    {
      hide Blocks, Digest, Mac, HalfUpdate, Update, Chain, Outputs, BlockKey;
      var total := TotalLength(vectors);
      errors := GenerateErrors(counter, out.Length, total, required);
      if errors != {} {
        return;
      }
      ghost var primed := Primed(w, Concat(vectors));
      if total > 0 {
        UpdateVec(vectors, true, w);
      }
      Output(out, primed);
      UpdateVec(vectors, total > 0, primed.(v := Chain(primed, BlocksFor(out.Length))));
      counter := counter + 1;
    }

    /** sb_hmac_drbg_reseed_required, where size_t has the values below sizes.  The check passes exactly if any
        that many well-formed requests, made next, all succeed, or the sum of counter and number overflows. */
    method ReseedRequired(count: nat, sizes: nat) returns (errors: set<Error>)
      requires counter <= 1025 < sizes && count < sizes
      ensures errors <= {DrbgUninitialized, Error.ReseedRequired}
      ensures DrbgUninitialized in errors <==> counter == 0
      ensures Error.ReseedRequired in errors <==> 1025 < counter + count < sizes
      ensures counter > 0 ==> forall ops :: |ops| == count && AllWellFormed(ops) ==>
                (errors == {} <==> AllSucceed(counter, ops) || counter + count >= sizes)
    {
      hide AllSucceed, AllWellFormed;
      errors := BudgetErrors(counter, count, sizes);
      BudgetFlags(counter, count, sizes);
      forall ops | counter > 0 && |ops| == count && AllWellFormed(ops)
        ensures errors == {} <==> AllSucceed(counter, ops) || counter + count >= sizes
      {
        BudgetExact(counter, ops, sizes);
      }
    }

    /** One operation of a sequence. */
    method Perform(op: Op, ghost w: Working) returns (reply: Reply)
      requires Is(w)
      modifies this`counter, v, hmac`data, hmac.key, hmac.sha, hmac.sha.ihash, hmac.sha.ah, hmac.sha.w, hmac.sha.buffer
      ensures Is(Next(w, op)) && reply == ReplyTo(w, op)
    {
      hide Blocks, Digest, Mac, HalfUpdate, Update, Chain, Outputs, BlockKey, Concat;
      match op
      case Init(entropy, nonce, personalization) =>
        var errors := Init(entropy, nonce, personalization);
        reply := Reply(errors, []);
      case Reseed(entropy, additional) =>
        var errors := Reseed(entropy, additional, w);
        reply := Reply(errors, []);
      case Generate(len, vectors, required) =>
        var out := new byte[len];
        var errors := Generate(out, vectors, required, w);
        reply := Reply(errors, if errors == {} then out[..] else []);
    }

    /** Any sequence of operations: every reply is the one that the standard's functions give. */
    method Run(ops: seq<Op>, ghost w: Working) returns (replies: seq<Reply>)
      requires Is(w)
      modifies this`counter, v, hmac`data, hmac.key, hmac.sha, hmac.sha.ihash, hmac.sha.ah, hmac.sha.w, hmac.sha.buffer
      ensures Is(After(w, ops)) && replies == Replies(w, ops)
    {
      hide Next, ReplyTo, BlockKey;
      replies := [];
      var i := 0;
      while i < |ops|
        invariant 0 <= i <= |ops| && Is(After(w, ops[..i])) && replies == Replies(w, ops[..i])
      {
        assert ops[..i + 1][..i] == ops[..i];
        var reply := Perform(ops[i], After(w, ops[..i]));
        replies := replies + [reply];
        i := i + 1;
      }
      assert ops[..i] == ops;
    }
  }

  // ---- sequences of operations ----

  datatype Op =
    | Init(entropy: seq<byte>, nonce: seq<byte>, personalization: seq<byte>)
    | Reseed(entropy: seq<byte>, additional: seq<byte>)
    | Generate(len: nat, vectors: seq<seq<byte>>, required: bool)

  datatype Reply = Reply(errors: set<Error>, out: seq<byte>)

  function OpErrors(counter: nat, op: Op): set<Error> {
    match op
    case Init(entropy, nonce, personalization) => InstantiateErrors(entropy, nonce, personalization)
    case Reseed(entropy, additional) => ReseedErrors(counter, entropy, additional)
    case Generate(len, vectors, required) => GenerateErrors(counter, len, |Concat(vectors)|, required)
  }

  function Next(w: Working, op: Op): Working {
    if OpErrors(w.counter, op) != {} then (if op.Init? then Unseeded() else w)
    else match op
         case Init(entropy, nonce, personalization) => Instantiate(entropy, nonce, personalization)
         case Reseed(entropy, additional) => Reseeded(w, entropy, additional)
         case Generate(len, vectors, required) => AfterGenerate(w, len, Concat(vectors))
  }

  function ReplyTo(w: Working, op: Op): Reply {
    var errors := OpErrors(w.counter, op);
    Reply(errors, if errors == {} && op.Generate? then Generated(w, op.len, Concat(op.vectors)) else [])
  }

  function After(w: Working, ops: seq<Op>): Working {
    if ops == [] then w else Next(After(w, ops[..|ops| - 1]), ops[|ops| - 1])
  }

  function Replies(w: Working, ops: seq<Op>): seq<Reply> {
    if ops == [] then []
    else var before := ops[..|ops| - 1];
         Replies(w, before) + [ReplyTo(After(w, before), ops[|ops| - 1])]
  }

  // ---- the same in bytes, with HMAC of RFC 2104 ----

  /** HMAC_DRBG_Update as four MACs; without provided data as the first two. */
  ghost predicate Updates(w: Working, provided: seq<byte>, w': Working) {
    var k1 := StandardHmac(w.key, w.v + [0x00] + provided);
    var v1 := StandardHmac(k1, w.v);
    var k2 := StandardHmac(k1, v1 + [0x01] + provided);
    var v2 := StandardHmac(k2, v1);
    w' == if provided == [] then Working(k1, v1, w.counter) else Working(k2, v2, w.counter)
  }

  /** The state before instantiation: a key of zero bytes, and a V of bytes that are one. */
  ghost predicate Initial(w: Working) {
    && |w.key| == 32 && (forall i :: 0 <= i < 32 ==> w.key[i] == 0x00)
    && |w.v| == 32 && (forall i :: 0 <= i < 32 ==> w.v[i] == 0x01)
    && w.counter == 0
  }

  lemma HalfMeans(w: Working, r: byte, provided: seq<byte>)
    requires w.Valid() && |provided| <= 3072
    ensures var key := StandardHmac(w.key, w.v + [r] + provided);
            HalfUpdate(w, r, provided) == Working(key, StandardHmac(key, w.v), w.counter) && |key| == 32
  {
    hide HmacOf, StandardHmac;
    HmacIsStandard(w.key, w.v + [r] + provided);
    HmacIsStandard(HmacOf(w.key, w.v + [r] + provided), w.v);
  }

  lemma UpdateMeans(w: Working, provided: seq<byte>)
    requires w.Valid() && |provided| <= 3072
    ensures Updates(w, provided, Update(w, provided)) && Update(w, provided).Valid()
  {
    hide HmacOf, StandardHmac, HalfUpdate;
    HalfMeans(w, 0, provided);
    HalfValid(w, 0, provided);
    if provided != [] {
      HalfMeans(HalfUpdate(w, 0, provided), 1, provided);
      HalfValid(HalfUpdate(w, 0, provided), 1, provided);
    }
  }

  lemma HalfValid(w: Working, r: byte, provided: seq<byte>)
    ensures HalfUpdate(w, r, provided).Valid()
  {
    hide HmacOf;
  }

  lemma InitialMeans(w: Working)
    ensures Initial(w) <==> w == Unseeded()
  {
    if Initial(w) {
      assert w.key == Repeated(0) && w.v == Repeated(1);
    }
  }

  /** Instantiation: the initial state is updated with the entropy, the nonce and the personalization string. */
  lemma InitMeans(w: Working, entropy: seq<byte>, nonce: seq<byte>, personalization: seq<byte>, w0: Working,
                  w': Working)
    requires 32 <= |entropy| <= 1024 && 16 <= |nonce| <= 1024 && |personalization| <= 1024
    requires Initial(w0) && Updates(w0, entropy + nonce + personalization, w')
    ensures ReplyTo(w, Init(entropy, nonce, personalization)) == Reply({}, [])
    ensures Next(w, Init(entropy, nonce, personalization)) == w'.(counter := 1)
  {
    hide StandardHmac, Update;
    InitialMeans(w0);
    UpdateMeans(w0, entropy + nonce + personalization);
  }

  /** The refusals of an instantiation, and the state after one. */
  lemma InitRefusals(w: Working, entropy: seq<byte>, nonce: seq<byte>, personalization: seq<byte>)
    ensures var reply, w' := ReplyTo(w, Init(entropy, nonce, personalization)),
                             Next(w, Init(entropy, nonce, personalization));
            && reply.errors <= {InsufficientEntropy, InputTooLarge} && reply.out == []
            && (InsufficientEntropy in reply.errors <==> |entropy| < 32 || |nonce| < 16)
            && (InputTooLarge in reply.errors <==> |entropy| > 1024 || |nonce| > 1024 || |personalization| > 1024)
            && (reply.errors != {} ==> Initial(w'))
  {
    hide Update;
    InitialMeans(Unseeded());
  }

  /** Reseeding: the state is updated with the entropy and the additional input. */
  lemma ReseedMeans(w: Working, entropy: seq<byte>, additional: seq<byte>, w': Working)
    requires w.Valid() && w.counter > 0 && 32 <= |entropy| <= 1024 && |additional| <= 1024
    requires Updates(w, entropy + additional, w')
    ensures ReplyTo(w, Reseed(entropy, additional)) == Reply({}, [])
    ensures Next(w, Reseed(entropy, additional)) == w'.(counter := 1)
  {
    hide StandardHmac, Update;
    UpdateMeans(w, entropy + additional);
  }

  /** The refusals of a reseed, which change nothing. */
  lemma ReseedRefusals(w: Working, entropy: seq<byte>, additional: seq<byte>)
    ensures var reply := ReplyTo(w, Reseed(entropy, additional));
            && reply.errors <= {DrbgUninitialized, InsufficientEntropy, InputTooLarge} && reply.out == []
            && (DrbgUninitialized in reply.errors <==> w.counter == 0)
            && (InsufficientEntropy in reply.errors <==> |entropy| < 32)
            && (InputTooLarge in reply.errors <==> |entropy| > 1024 || |additional| > 1024)
            && (reply.errors != {} ==> Next(w, Reseed(entropy, additional)) == w)
  {
    hide Update;
  }

  /** The values that V takes under the key: the first n of its successive MACs. */
  ghost predicate MacChain(w: Working, chain: seq<seq<byte>>) {
    |chain| > 0 && chain[0] == w.v && forall i :: 0 <= i < |chain| - 1 ==> chain[i + 1] == StandardHmac(w.key, chain[i])
  }

  lemma {:induction false} ChainMeans(w: Working, chain: seq<seq<byte>>, i: nat)
    requires w.Valid() && MacChain(w, chain) && i < |chain|
    ensures chain[i] == Chain(w, i) && |chain[i]| == DIGEST
  {
    hide HmacOf, StandardHmac;
    if i > 0 {
      ChainMeans(w, chain, i - 1);
      HmacIsStandard(w.key, chain[i - 1]);
    }
  }

  lemma {:induction false} OutputBlock(w: Working, n: nat, i: nat)
    requires w.Valid() && i < n
    ensures |Chain(w, i + 1)| == DIGEST && Outputs(w, n)[DIGEST * i..DIGEST * (i + 1)] == Chain(w, i + 1)
  {
    hide HmacOf;
    if i < n - 1 {
      OutputBlock(w, n - 1, i);
    }
  }

  /** Block i of the output is the value, or the first bytes of it at the end. */
  ghost predicate BlockIs(out: seq<byte>, i: nat, value: seq<byte>) {
    var count := if |out| - 32 * i < 32 then |out| - 32 * i else 32;
    |value| == 32 && count > 0 && out[32 * i..32 * i + count] == value[..count]
  }

  /** The output is as many values of the chain, after the first one, as it needs. */
  ghost predicate OutputIs(out: seq<byte>, chain: seq<seq<byte>>) {
    && |out| <= 32 * (|chain| - 1) < |out| + 32
    && forall i :: 1 <= i < |chain| ==> BlockIs(out, i - 1, chain[i])
  }

  lemma FirstBytes(s: seq<byte>, len: nat, start: nat, count: nat)
    requires start + count <= len <= |s| && count <= 32 && start + 32 <= |s|
    ensures s[..len][start..start + count] == s[start..start + 32][..count]
  {
  }

  lemma OutputMeans(w: Working, chain: seq<seq<byte>>, len: nat)
    requires w.Valid() && MacChain(w, chain) && len <= 32 * (|chain| - 1) < len + 32
    ensures |chain| - 1 == BlocksFor(len) && chain[|chain| - 1] == Chain(w, BlocksFor(len))
    ensures OutputIs(Outputs(w, BlocksFor(len))[..len], chain)
  {
    hide MacChain, Outputs, Chain, BlocksFor;
    var n := |chain| - 1;
    EnoughBlocks(n, len);
    ChainMeans(w, chain, n);
    var out := Outputs(w, n)[..len];
    forall i | 1 <= i < |chain|
      ensures BlockIs(out, i - 1, chain[i])
    {
      ChainMeans(w, chain, i);
      OutputBlock(w, n, i - 1);
      var count := if len - 32 * (i - 1) < 32 then len - 32 * (i - 1) else 32;
      FirstBytes(Outputs(w, n), len, 32 * (i - 1), count);
    }
  }

  /** Generation: with additional input the state is updated first; the output is successive MACs of V, as many as it
      needs; then the state is updated, with the additional input if there is any. */
  lemma GenerateMeans(w: Working, len: nat, vectors: seq<seq<byte>>, required: bool, primed: Working,
                      chain: seq<seq<byte>>, w': Working)
    requires w.Valid() && 0 < w.counter <= 1024 && len <= 1024 && |Concat(vectors)| <= 1024
    requires required ==> Concat(vectors) != []
    requires if Concat(vectors) == [] then primed == w else Updates(w, Concat(vectors), primed)
    requires MacChain(primed, chain) && len <= 32 * (|chain| - 1) < len + 32
    requires Updates(primed.(v := chain[|chain| - 1]), Concat(vectors), w')
    ensures var reply := ReplyTo(w, Generate(len, vectors, required));
            reply.errors == {} && |reply.out| == len && OutputIs(reply.out, chain)
    ensures Next(w, Generate(len, vectors, required)) == w'.(counter := w.counter + 1)
  {
    hide Concat, Updates, Update, MacChain, Outputs, Chain, BlocksFor, OutputIs;
    var additional := Concat(vectors);
    UpdateMeans(w, additional);
    SameUpdate(w, additional, primed);
    OutputMeans(primed, chain, len);
    var before := primed.(v := chain[|chain| - 1]);
    ChainMeans(primed, chain, |chain| - 1);
    UpdateMeans(before, additional);
    SameUpdate(before, additional, w');
  }

  lemma SameUpdate(w: Working, provided: seq<byte>, w': Working)
    requires Updates(w, provided, Update(w, provided))
    ensures Updates(w, provided, w') ==> w' == Update(w, provided)
  {
    hide StandardHmac, Update;
  }

  /** The refusals of a request, which change nothing. */
  lemma GenerateRefusals(w: Working, len: nat, vectors: seq<seq<byte>>, required: bool)
    ensures var reply, additional := ReplyTo(w, Generate(len, vectors, required)), Concat(vectors);
            && reply.errors <= {DrbgUninitialized, RequestTooLarge, AdditionalInputRequired, InputTooLarge,
                                Error.ReseedRequired}
            && (DrbgUninitialized in reply.errors <==> w.counter == 0)
            && (RequestTooLarge in reply.errors <==> len > 1024)
            && (AdditionalInputRequired in reply.errors <==> required && additional == [])
            && (InputTooLarge in reply.errors <==> |additional| > 1024)
            && (Error.ReseedRequired in reply.errors <==> w.counter > 1024)
            && (reply.errors != {} ==> reply.out == [] && Next(w, Generate(len, vectors, required)) == w)
  {
    hide Update, Concat, Outputs;
  }

  /** Chunks are strung together. */
  lemma ConcatMeans(vectors: seq<seq<byte>>, last: seq<byte>)
    ensures Concat([]) == [] && Concat(vectors + [last]) == Concat(vectors) + last
  {
    assert (vectors + [last])[..|vectors|] == vectors;
  }

  /** A sequence is performed one operation after the other. */
  lemma RunMeans(w: Working, ops: seq<Op>, op: Op)
    ensures After(w, []) == w && Replies(w, []) == []
    ensures After(w, ops + [op]) == Next(After(w, ops), op)
    ensures Replies(w, ops + [op]) == Replies(w, ops) + [ReplyTo(After(w, ops), op)]
  {
    hide Next, ReplyTo;
    assert (ops + [op])[..|ops|] == ops;
  }

  // ---- the reseed budget ----

  function BudgetErrors(counter: nat, count: nat, sizes: nat): set<Error>
    requires sizes > 0
  {
    ErrorIf(DrbgUninitialized, counter == 0)
    + ErrorIf(Error.ReseedRequired, (counter + count) % sizes > RESEED_INTERVAL + 1)
  }

  /** A request that no limit other than the reseed interval refuses. */
  predicate WellFormed(op: Op) {
    && op.Generate? && op.len <= MAX_BYTES_PER_REQUEST && |Concat(op.vectors)| <= MAX_ADDITIONAL
    && (op.required ==> Concat(op.vectors) != [])
  }

  predicate AllWellFormed(ops: seq<Op>) { forall i :: 0 <= i < |ops| ==> WellFormed(ops[i]) }

  /** The requests all succeed, one after the other. */
  predicate AllSucceed(counter: nat, ops: seq<Op>)
    decreases |ops|
  {
    ops == [] || (OpErrors(counter, ops[0]) == {} && AllSucceed(counter + 1, ops[1..]))
  }

  lemma WellFormedSucceeds(counter: nat, op: Op)
    requires WellFormed(op)
    ensures OpErrors(counter, op) == {} <==> 0 < counter <= RESEED_INTERVAL
  {
    assert counter == 0 ==> DrbgUninitialized in OpErrors(counter, op);
    assert counter > RESEED_INTERVAL ==> Error.ReseedRequired in OpErrors(counter, op);
  }

  lemma {:induction false} SuccessfulRun(counter: nat, ops: seq<Op>)
    requires counter > 0 && AllWellFormed(ops)
    ensures AllSucceed(counter, ops) <==> ops == [] || counter + |ops| <= 1025
    decreases |ops|
  {
    hide OpErrors, WellFormed;
    if ops != [] {
      WellFormedSucceeds(counter, ops[0]);
      SuccessfulRun(counter + 1, ops[1..]);
    }
  }

  /** That they all succeed means that all their replies are without errors. */
  lemma {:induction false} SucceedMeans(w: Working, ops: seq<Op>)
    requires w.counter > 0 && AllWellFormed(ops)
    ensures |Replies(w, ops)| == |ops|
    ensures AllSucceed(w.counter, ops) <==> forall i :: 0 <= i < |ops| ==> Replies(w, ops)[i].errors == {}
    ensures AllSucceed(w.counter, ops) ==> After(w, ops).counter == w.counter + |ops|
    decreases |ops|
  {
    hide WellFormed, AllSucceed, Next, ReplyTo, Replies, After;
    SuccessfulRun(w.counter, ops);
    if ops == [] {
      RunMeans(w, [], Reseed([], []));
    } else {
      var n := |ops| - 1;
      var before := ops[..n];
      SucceedMeans(w, before);
      SuccessfulRun(w.counter, before);
      LastReply(w, ops);
      var replies := Replies(w, ops);
      assert forall i :: 0 <= i < n ==> replies[i] == Replies(w, before)[i];
      if AllSucceed(w.counter, ops) {
        assert AllSucceed(w.counter, before);
      } else if AllSucceed(w.counter, before) {
        assert replies[n].errors != {};
      } else {
        var i :| 0 <= i < n && Replies(w, before)[i].errors != {};
        assert replies[i].errors != {};
      }
    }
  }

  lemma LastReply(w: Working, ops: seq<Op>)
    requires ops != [] && AllWellFormed(ops) && |Replies(w, ops[..|ops| - 1])| == |ops| - 1
    ensures var n := |ops| - 1;
            && |Replies(w, ops)| == |ops| && Replies(w, ops)[..n] == Replies(w, ops[..n])
            && (Replies(w, ops)[n].errors == {} <==> 0 < After(w, ops[..n]).counter <= RESEED_INTERVAL)
            && (Replies(w, ops)[n].errors == {} ==> After(w, ops).counter == After(w, ops[..n]).counter + 1)
  {
    hide WellFormed, Generated, OpErrors, Update;
    var n := |ops| - 1;
    WellFormedSucceeds(After(w, ops[..n]).counter, ops[n]);
    assert ops[n].Generate? by {
      IsRequest(ops[n]);
    }
  }

  lemma IsRequest(op: Op)
    requires WellFormed(op)
    ensures op.Generate?
  {
  }

  /** The check reports the sum only if it exceeds the interval without leaving the size type. */
  lemma BudgetFlags(counter: nat, count: nat, sizes: nat)
    requires counter <= RESEED_INTERVAL + 1 < sizes && count < sizes
    ensures var errors := BudgetErrors(counter, count, sizes);
            && errors <= {DrbgUninitialized, Error.ReseedRequired}
            && (DrbgUninitialized in errors <==> counter == 0)
            && (Error.ReseedRequired in errors <==> RESEED_INTERVAL + 1 < counter + count < sizes)
  {
    WrappedSum(counter, count, sizes);
  }

  /** A passing check of the budget holds exactly if the next requests all succeed, or the sum of the counter
      and their number does not fit the size type. */
  lemma BudgetExact(counter: nat, ops: seq<Op>, sizes: nat)
    requires 0 < counter <= RESEED_INTERVAL + 1 < sizes && |ops| < sizes && AllWellFormed(ops)
    ensures BudgetErrors(counter, |ops|, sizes) == {} <==> AllSucceed(counter, ops) || counter + |ops| >= sizes
  {
    hide AllWellFormed, AllSucceed, BudgetErrors;
    SuccessfulRun(counter, ops);
    BudgetFlags(counter, |ops|, sizes);
    var errors := BudgetErrors(counter, |ops|, sizes);
    assert errors != {} ==> DrbgUninitialized in errors || Error.ReseedRequired in errors;
    assert ops == [] ==> AllSucceed(counter, ops);
  }

  lemma WrappedSum(counter: nat, count: nat, sizes: nat)
    requires counter <= RESEED_INTERVAL + 1 < sizes && count < sizes
    ensures (counter + count) % sizes == if counter + count < sizes then counter + count else counter + count - sizes
  {
    var sum := counter + count;
    if sum < sizes {
      SmallMod(sum, sizes);
    } else {
      DivModUnique(sum, 1, sum - sizes, sizes);
    }
  }

  /** An input on which it overflows: with a counter of one and the largest number the check passes, although
      that many requests, of one byte each, do not all succeed. */
  lemma BudgetOverflow(sizes: nat) returns (ops: seq<Op>)
    requires RESEED_INTERVAL + 1 < sizes
    ensures |ops| == sizes - 1 && AllWellFormed(ops)
    ensures BudgetErrors(1, |ops|, sizes) == {} && !AllSucceed(1, ops)
  {
    hide AllSucceed;
    ops := seq(sizes - 1, i => Generate(1, [], false));
    WrappedSum(1, sizes - 1, sizes);
    SuccessfulRun(1, ops);
  }

  /** The counter never exceeds the interval by more than one. */
  lemma {:induction false} CounterBounded(w: Working, ops: seq<Op>)
    requires w.counter <= RESEED_INTERVAL + 1
    ensures After(w, ops).counter <= RESEED_INTERVAL + 1
    decreases |ops|
  {
    hide Update, Chain, HmacOf, Concat;
    if ops != [] {
      var before := After(w, ops[..|ops| - 1]);
      CounterBounded(w, ops[..|ops| - 1]);
      assert before.counter > RESEED_INTERVAL && ops[|ops| - 1].Generate? ==>
             Error.ReseedRequired in OpErrors(before.counter, ops[|ops| - 1]);
    }
  }

  lemma ConcatStep(vectors: seq<seq<byte>>, i: nat)
    requires i < |vectors|
    ensures Concat(vectors[..i + 1]) == Concat(vectors[..i]) + vectors[i]
  {
    assert vectors[..i + 1][..i] == vectors[..i];
  }

  /** A key of half a block leaves the other half unused. */
  lemma HalfKey(key: seq<byte>)
    requires |key| == DIGEST
    ensures BlockKey(key)[DIGEST..] == Zeros(DIGEST)
  {
  }

  lemma ConcatThree(a: seq<byte>, b: seq<byte>, c: seq<byte>)
    ensures Concat([a, b, c, []]) == a + b + c
  {
    var vectors := [a, b, c, []];
    ConcatStep(vectors, 0);
    ConcatStep(vectors, 1);
    ConcatStep(vectors, 2);
    ConcatStep(vectors, 3);
    assert vectors[..4] == vectors && vectors[..0] == [];
    assert Concat(vectors) == [] + a + b + c + [];
  }

  lemma ChainLength(w: Working, n: nat)
    requires w.Valid()
    ensures |Chain(w, n)| == DIGEST && Chain(w, 0) == w.v
    ensures w.(v := Chain(w, 0)) == w && Outputs(w, 0) == []
  {
    hide HmacOf;
  }

  lemma OutputsStep(w: Working, n: nat, count: nat)
    requires w.Valid() && count <= DIGEST
    ensures |Chain(w, n + 1)| == DIGEST
    ensures Outputs(w, n + 1)[..DIGEST * n + count] == Outputs(w, n) + Chain(w, n + 1)[..count]
  {
    hide HmacOf;
  }
}
