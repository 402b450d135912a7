/** sb_sw_lib.c: whole sequences of the resumable calls on one context, and what each of them answers. */
module SessionRun {
  import opened Results
  import opened ModArith
  import opened QuasiField
  import opened Curve
  import opened CoZ
  import opened PointMult
  import opened MultAdd
  import opened Ecdsa
  import opened PointCodec
  import opened Api
  import opened Session
  import Sign
  import Verify

  /** The calls.  There is no nonce and no z if their generation has failed; base is the map of the multiples of the
      point that is multiplied. */
  datatype Request =
    | NewPublicKey(curve: nat, private: nat, z: Option<nat>, ghost base: int -> Point)
    | NewProduct(op: Operation, curve: nat, private: nat, x: nat, y: nat, z: Option<nat>, ghost base: int -> Point)
    | NewSignature(curve: nat, nonce: Option<nat>, z: Option<nat>, private: nat, msg: nat, ghost base: int -> Point)
    | NewVerification(curve: nat, r: nat, s: nat, x: nat, y: nat, msg: nat, z: Option<nat>)
    | More(op: Operation)
    | Collect(op: Operation)
  {
    predicate New() { !More? && !Collect? }

    function Op(): Operation {
      match this
      case NewPublicKey(_, _, _, _) => ComputePublicKey
      case NewSignature(_, _, _, _, _, _) => SignDigest
      case NewVerification(_, _, _, _, _, _, _) => VerifySignature
      case _ => op
    }
  }

  datatype Reply = Reply(errors: set<Error>, done: bool, output: (int, int))

  /** The constants of every curve are in order. */
  ghost predicate ValidCurves(curves: seq<SwCurve>) {
    |curves| > 0 && forall i :: 0 <= i < |curves| ==> curves[i].Sound() && Constants(curves[i])
  }

  // ---- what a start asks for ----

  /** What the start functions ask of their callers: the multiples of the point, and generated scalars in range. */
  ghost predicate Admissible(curves: seq<SwCurve>, request: Request)
    requires ValidCurves(curves)
  {
    && (request.NewProduct? ==> request.op == SharedSecret || request.op == PointMultiply)
    && (request.New() && request.curve < |curves| ==> AdmissibleOn(curves[request.curve], request))
  }

  ghost predicate AdmissibleOn(sw: SwCurve, request: Request)
    requires request.New() && sw.Sound()
  {
    && (request.z.Some? ==> 1 <= request.z.value < sw.cv.p)
    && match request
       case NewPublicKey(_, _, _, base) => Base(sw, base) && base(1) == sw.g
       case NewProduct(_, _, _, x, y, _, base) =>
         ValidPoint(sw.cv, x, y) ==> Multiples(sw.cv, base) && base(1) == Affine(x, y)
       case NewSignature(_, nonce, _, _, _, base) =>
         Base(sw, base) && base(1) == sw.g && (nonce.Some? ==> 1 <= nonce.value < sw.cv.n)
       case _ => true
  }

  ghost function StartErrors(curves: seq<SwCurve>, request: Request): set<Error>
    requires request.New() && ValidCurves(curves)
  {
    if request.curve >= |curves| then {CurveInvalid} else StartErrorsOn(curves[request.curve], request)
  }

  ghost function StartErrorsOn(sw: SwCurve, request: Request): set<Error>
    requires request.New() && sw.Sound()
  {
    match request
    case NewPublicKey(_, private, z, _) =>
      ErrorIf(DrbgFailure, z.None?) + ErrorIf(PrivateKeyInvalid, !(1 <= private < sw.cv.n))
    case NewProduct(_, _, private, x, y, z, _) =>
      ErrorIf(DrbgFailure, z.None?) + ErrorIf(PrivateKeyInvalid, !(1 <= private < sw.cv.n))
      + ErrorIf(PublicKeyInvalid, !ValidPoint(sw.cv, x, y))
    case NewSignature(_, nonce, z, private, _, _) =>
      if nonce.None? || z.None? then {DrbgFailure} else ErrorIf(PrivateKeyInvalid, !(1 <= private < sw.cv.n))
    case NewVerification(_, _, _, x, y, _, z) =>
      ErrorIf(DrbgFailure, z.None?) + ErrorIf(PublicKeyInvalid, !ValidPoint(sw.cv, x, y))
  }

  /** What the operation that is started is to compute. */
  ghost function AimFor(request: Request): Aim
    requires request.New()
  {
    match request
    case NewPublicKey(_, private, _, base) => MultiplyAim(base, private)
    case NewProduct(_, _, private, _, _, _, base) => MultiplyAim(base, private)
    case NewSignature(_, nonce, _, _, _, base) => MultiplyAim(base, if nonce.Some? then nonce.value else 0)
    case NewVerification(_, r, s, x, y, msg, _) => VerifyAim(Affine(x, y), msg, r, s)
  }

  // ---- the answers, from the inputs alone ----

  /** Signing with these inputs ends in a failure. */
  ghost predicate Fails(curves: seq<SwCurve>, start: Request)
    requires ValidCurves(curves)
  {
    && start.NewSignature? && start.curve < |curves|
    && var sw := curves[start.curve]; SignatureFails(AimFor(start), sw, start.private, sw.fn.Qr(start.msg))
  }

  /** The signature that is verified with these inputs is not accepted. */
  ghost predicate Rejects(curves: seq<SwCurve>, start: Request) {
    start.NewVerification? && start.curve < |curves| && !IsAccepted(AimFor(start), curves[start.curve])
  }

  /** The result that belongs to the inputs: the multiple, the signature, or nothing. */
  ghost function OutputOf(curves: seq<SwCurve>, start: Request): (int, int)
    requires ValidCurves(curves)
  {
    if !start.New() || start.curve >= |curves| then (0, 0)
    else
      var sw := curves[start.curve];
      match start
      case NewPublicKey(_, private, _, base) => EncodedMultiple(ComputePublicKey, sw, base(private))
      case NewProduct(op, _, private, _, _, _, base) => EncodedMultiple(op, sw, base(private))
      case NewSignature(_, nonce, _, private, msg, base) =>
        if nonce.Some? then SignatureOf(sw, base(nonce.value), nonce.value, private, msg) else (0, 0)
      case _ => (0, 0)
  }

  /** The form in which an operation outputs a multiple: a public key is not fully reduced. */
  ghost function Encoded(op: Operation, sw: SwCurve, q: Point): (int, int)
    requires q.Affine?
  {
    (if op == ComputePublicKey && q.x == 0 then sw.cv.p else q.x, if op == SharedSecret then 0 else q.y)
  }

  ghost function EncodedMultiple(op: Operation, sw: SwCurve, q: Point): (int, int) {
    if q.Affine? then Encoded(op, sw, q) else (0, 0)
  }

  ghost function SignatureOf(sw: SwCurve, q: Point, nonce: nat, private: nat, msg: nat): (int, int)
    requires sw.Sound()
  {
    if q.Infinity? then (0, 0)
    else var r := Sign.SignedR(sw, q.x); (r, SignedS(sw.fn, private, nonce, sw.fn.Qr(msg), r))
  }

  /** The call in the protocol; start is the request that started the operation in progress. */
  ghost function CallFor(curves: seq<SwCurve>, request: Request, start: Request): Call
    requires ValidCurves(curves)
  {
    match request
    case More(op) => Call.Continue(op, op == SignDigest && Fails(curves, start))
    case Collect(op) => Call.Finish(op)
    case _ =>
      Call.Start(request.Op(), if request.curve < |curves| then Calls(request.Op(), curves[request.curve].bits) else 0,
                 StartErrors(curves, request) == {})
  }

  ghost function ReplyTo(curves: seq<SwCurve>, phase: Phase, request: Request, start: Request): Reply
    requires ValidCurves(curves)
  {
    match request
    case More(op) =>
      if phase.Idle? || phase.op != op then Reply({IncorrectOperation}, false, (0, 0))
      else if phase == Busy(SignDigest, 1) && Fails(curves, start) then Reply({DrbgFailure}, false, (0, 0))
      else Reply({}, phase.left <= 1, (0, 0))
    case Collect(op) =>
      if phase.Idle? || phase.op != op then Reply({IncorrectOperation}, false, (0, 0))
      else if phase.left > 0 then Reply({NotFinished}, false, (0, 0))
      else if op == VerifySignature && Rejects(curves, start) then Reply({SignatureInvalid}, false, (0, 0))
      else Reply({}, false, OutputOf(curves, start))
    case _ => Reply(StartErrors(curves, request), false, (0, 0))
  }

  // ---- one call ----

  /** The operation in progress is the one that start asked for. */
  ghost predicate Describes(s: Session, start: Request)
    requires ValidCurves(s.curves)
    reads s, s.c`signPrivate, s.c`signMessage
  {
    && start.New() && s.operation == Some(start.Op()) && s.curveId == start.curve < |s.curves|
    && AimOf(s.job) == AimFor(start)
    && (start.NewProduct? ==> IsMultiplication(start.op))
    && (start.NewSignature? ==>
          && start.nonce.Some? && s.c.signPrivate == start.private
          && s.c.signMessage == s.curves[start.curve].fn.Qr(start.msg))
  }

  method ServeStart(s: Session, request: Request) returns (reply: Reply)
    requires ValidCurves(s.curves) && Admissible(s.curves, request) && request.New()
    modifies s, s.c
    ensures s.Valid() && reply == Reply(StartErrors(s.curves, request), false, (0, 0))
    ensures if reply.errors == {}
            then s.Phase() == Busy(request.Op(), Calls(request.Op(), s.curves[request.curve].bits))
            else s.Phase() == Idle
    ensures reply.errors == {} ==> request.curve < |s.curves| && Describes(s, request)
  {
    hide Base, Multiples, Constants, SwCurve.Sound, ValidPoint;
    var errors;
    match request {
      case NewPublicKey(curve, private, z, base) => errors := s.StartPublicKey(curve, private, z, base);
      case NewProduct(op, curve, private, x, y, z, base) =>
        errors := s.StartWithPoint(op, curve, private, x, y, z, base);
      case NewSignature(curve, nonce, z, private, msg, base) =>
        errors := s.StartSigning(curve, nonce, z, private, msg, base);
      case NewVerification(curve, r, sig, x, y, msg, z) =>
        errors := s.StartVerification(curve, r, sig, x, y, msg, z);
    }
    reply := Reply(errors, false, (0, 0));
  }

  method ServeMore(s: Session, op: Operation, ghost start: Request) returns (reply: Reply)
    requires s.Valid() && ValidCurves(s.curves) && (s.operation.Some? ==> Describes(s, start))
    modifies s, s.c
    ensures s.Valid() && s.Phase() == Api.Next(old(s.Phase()), CallFor(s.curves, More(op), start))
    ensures reply == ReplyTo(s.curves, old(s.Phase()), More(op), start)
    ensures s.operation.Some? ==> Describes(s, start)
  {
    hide Session.Running, Left, SignatureFails, SwCurve.Sound, Constants;
    if s.operation.Some? {
      FailingIff(s, start);
    }
    var errors, done := s.Continue(op);
    reply := Reply(errors, errors == {} && done, (0, 0));
  }

  lemma FailingIff(s: Session, start: Request)
    requires ValidCurves(s.curves) && Describes(s, start)
    ensures s.operation == Some(SignDigest) ==> (s.Failing() <==> Fails(s.curves, start))
  {
    hide SignatureFails, SwCurve.Sound, Constants, AimOf, AimFor, Curve.Sound, Field.Valid, Field.Qr;
  }

  method CollectSignature(s: Session, ghost start: Request) returns (reply: Reply)
    requires s.Valid() && ValidCurves(s.curves) && (s.operation.Some? ==> Describes(s, start))
    modifies s, s.c
    ensures s.Valid() && s.Phase() == Idle
    ensures reply == ReplyTo(s.curves, old(s.Phase()), Collect(SignDigest), start)
  {
    hide SwCurve.Sound, Constants, Session.Running, Left, Sign.SignedR, SignedS, Rejects, Fails;
    var errors, r, t := s.FinishSigning();
    reply := Reply(errors, false, if errors == {} then (r, t) else (0, 0));
  }

  method CollectVerification(s: Session, ghost start: Request) returns (reply: Reply)
    requires s.Valid() && ValidCurves(s.curves) && (s.operation.Some? ==> Describes(s, start))
    modifies s, s.c
    ensures s.Valid() && s.Phase() == Idle
    ensures reply == ReplyTo(s.curves, old(s.Phase()), Collect(VerifySignature), start)
  {
    hide SwCurve.Sound, Constants, Session.Running, Left, IsAccepted, Fails, EncodedMultiple, SignatureOf;
    var errors := s.FinishVerification();
    reply := Reply(errors, false, (0, 0));
  }

  method CollectMultiple(s: Session, op: Operation, ghost start: Request) returns (reply: Reply)
    requires s.Valid() && ValidCurves(s.curves) && (s.operation.Some? ==> Describes(s, start)) && IsMultiplication(op)
    modifies s, s.c
    ensures s.Valid() && s.Phase() == Idle
    ensures reply == ReplyTo(s.curves, old(s.Phase()), Collect(op), start)
  {
    hide SwCurve.Sound, Constants, Session.Running, Left, Rejects, Fails, SignatureOf;
    var errors, output := s.FinishMultiplication(op);
    reply := Reply(errors, false, if errors == {} then output else (0, 0));
  }

  method ServeCollect(s: Session, op: Operation, ghost start: Request) returns (reply: Reply)
    requires s.Valid() && ValidCurves(s.curves) && (s.operation.Some? ==> Describes(s, start))
    modifies s, s.c
    ensures s.Valid() && s.Phase() == Idle
    ensures reply == ReplyTo(s.curves, old(s.Phase()), Collect(op), start)
  {
    hide Describes, ValidCurves, ReplyTo, Left, Session.Running;
    match op
    case SignDigest => reply := CollectSignature(s, start);
    case VerifySignature => reply := CollectVerification(s, start);
    case _ => reply := CollectMultiple(s, op, start);
  }

  /** One call, whatever it is. */
  method Serve(s: Session, request: Request, ghost start: Request) returns (reply: Reply)
    requires s.Valid() && ValidCurves(s.curves) && Admissible(s.curves, request)
    requires s.operation.Some? ==> Describes(s, start)
    modifies s, s.c
    ensures s.Valid() && s.Phase() == Api.Next(old(s.Phase()), CallFor(s.curves, request, start))
    ensures reply == ReplyTo(s.curves, old(s.Phase()), request, start)
    ensures s.operation.Some? ==> Describes(s, if request.New() then request else start)
  {
    hide Describes, ValidCurves, Admissible, StartErrors, Fails, Rejects, OutputOf, Left, Session.Running;
    match request
    case More(op) => reply := ServeMore(s, op, start);
    case Collect(op) => reply := ServeCollect(s, op, start);
    case _ => reply := ServeStart(s, request);
  }

  // ---- the storage that saved state and temporaries share ----

  /** What is left in the temporaries once the state has been saved over them. */
  datatype Junk = Junk(t5: nat, t6: nat, t7: nat, t8: nat)

  /** Saving the state at the end of a call overwrites the temporaries; the next call starts by copying the state
      back and takes the temporaries as it finds them. */
  method SaveState(s: Session, junk: Junk, ghost start: Request)
    requires s.Valid() && ValidCurves(s.curves) && (s.operation.Some? ==> Describes(s, start))
    modifies s.c`t5, s.c`t6, s.c`t7, s.c`t8
    ensures s.Valid() && s.Phase() == old(s.Phase()) && (s.operation.Some? ==> Describes(s, start))
  {
    hide Session.Running, Left, SwCurve.Sound, Constants;
    if s.operation.Some? {
      s.c.t5, s.c.t6, s.c.t7, s.c.t8 := junk.t5, junk.t6, junk.t7, junk.t8;
    }
  }

  // ---- sequences of calls ----

  /** The request that started the operation in progress, if there is one. */
  ghost function StartOf(requests: seq<Request>): Request {
    if requests == [] then More(SignDigest)
    else if requests[|requests| - 1].New() then requests[|requests| - 1]
    else StartOf(requests[..|requests| - 1])
  }

  ghost function CallsOf(curves: seq<SwCurve>, requests: seq<Request>): (calls: seq<Call>)
    requires ValidCurves(curves)
    ensures |calls| == |requests|
  {
    if requests == [] then []
    else var before := requests[..|requests| - 1];
         CallsOf(curves, before) + [CallFor(curves, requests[|requests| - 1], StartOf(before))]
  }

  /** The answer to a request after the given ones. */
  ghost function ReplyAfter(curves: seq<SwCurve>, before: seq<Request>, request: Request): Reply
    requires ValidCurves(curves)
  {
    ReplyTo(curves, After(CallsOf(curves, before)), request, StartOf(before))
  }

  ghost function RepliesTo(curves: seq<SwCurve>, requests: seq<Request>): (replies: seq<Reply>)
    requires ValidCurves(curves)
    ensures |replies| == |requests|
  {
    if requests == [] then []
    else var before := requests[..|requests| - 1];
         RepliesTo(curves, before) + [ReplyAfter(curves, before, requests[|requests| - 1])]
  }

  lemma {:induction false} RepliesAt(curves: seq<SwCurve>, requests: seq<Request>, i: nat)
    requires ValidCurves(curves) && i < |requests|
    ensures RepliesTo(curves, requests)[i] == ReplyAfter(curves, requests[..i], requests[i])
    decreases |requests|
  {
    hide ValidCurves, ReplyAfter;
    var before := requests[..|requests| - 1];
    if i < |before| {
      RepliesAt(curves, before, i);
      assert before[..i] == requests[..i];
    }
  }

  /** Any sequence of calls on a context without operation: each is answered from the inputs alone, and the phase
      is the one of the protocol, whatever saving the state leaves in the temporaries between the calls. */
  method Run(s: Session, requests: seq<Request>, junk: seq<Junk>) returns (replies: seq<Reply>)
    requires s.Valid() && s.operation == None && ValidCurves(s.curves) && |junk| == |requests|
    requires forall i :: 0 <= i < |requests| ==> Admissible(s.curves, requests[i])
    modifies s, s.c
    ensures s.Valid() && s.Phase() == After(CallsOf(s.curves, requests))
    ensures replies == RepliesTo(s.curves, requests)
  {
    hide Describes, ValidCurves, Admissible, CallFor, ReplyTo, Left, Session.Running, Api.Next;
    replies := [];
    for i := 0 to |requests|
      invariant s.Valid() && s.Phase() == After(CallsOf(s.curves, requests[..i]))
      invariant s.operation.Some? ==> Describes(s, StartOf(requests[..i]))
      invariant replies == RepliesTo(s.curves, requests[..i])
    {
      Unfolded(s.curves, requests[..i], requests[i]);
      assert requests[..i + 1] == requests[..i] + [requests[i]];
      var reply := Serve(s, requests[i], StartOf(requests[..i]));
      SaveState(s, junk[i], StartOf(requests[..i + 1]));
      replies := replies + [reply];
    }
    assert requests[..|requests|] == requests;
  }

  /** One more request. */
  lemma Unfolded(curves: seq<SwCurve>, before: seq<Request>, request: Request)
    requires ValidCurves(curves)
    ensures var requests, calls := before + [request], CallsOf(curves, before);
            && After(CallsOf(curves, requests)) == Api.Next(After(calls), CallFor(curves, request, StartOf(before)))
            && RepliesTo(curves, requests)
               == RepliesTo(curves, before) + [ReplyTo(curves, After(calls), request, StartOf(before))]
            && StartOf(requests) == if request.New() then request else StartOf(before)
  {
    hide ValidCurves, ReplyTo, CallFor;
    var requests := before + [request];
    assert requests[..|requests| - 1] == before;
    AfterLast(CallsOf(curves, before), CallFor(curves, request, StartOf(before)));
  }

  lemma AfterLast(calls: seq<Call>, call: Call)
    ensures After(calls + [call]) == Api.Next(After(calls), call)
  {
    assert (calls + [call])[..|calls|] == calls;
  }

  /** Over any sequence of calls, collecting the result of an operation succeeds exactly after a start of it with
      valid inputs and enough continuations, none of which fails, with no other call in between.  The result is
      the one of the inputs of that start; a verification that does not accept says so instead. */
  lemma CollectsIff(curves: seq<SwCurve>, before: seq<Request>, op: Operation)
    requires ValidCurves(curves)
    ensures var reply, calls := ReplyAfter(curves, before, Collect(op)), CallsOf(curves, before);
            && (reply.errors <= {SignatureInvalid} <==> exists start :: CompletedBy(calls, op, start))
            && forall start: nat :: CompletedBy(calls, op, start) ==>
                 && reply.errors == ErrorIf(SignatureInvalid, op == VerifySignature && Rejects(curves, before[start]))
                 && (reply.errors == {} ==> reply.output == OutputOf(curves, before[start]))
  {
    hide Rejects, OutputOf, ValidCurves, CallFor, CompletedBy;
    var calls := CallsOf(curves, before);
    FinishableIff(calls, op);
    forall start: nat | CompletedBy(calls, op, start)
      ensures start < |before| && StartOf(before) == before[start] && After(calls) == Busy(op, 0)
    {
      StartIs(curves, before, op, start);
    }
  }

  lemma {:induction false} StartIs(curves: seq<SwCurve>, requests: seq<Request>, op: Operation, start: nat)
    requires ValidCurves(curves) && CompletedBy(CallsOf(curves, requests), op, start)
    ensures start < |requests| && StartOf(requests) == requests[start]
  {
    var calls := CallsOf(curves, requests);
    forall i | start < i < |calls|
      ensures calls[i].Continue?
    {
      assert Continues(calls, op, start, i);
    }
    LastStart(curves, requests, start);
  }

  lemma {:induction false} LastStart(curves: seq<SwCurve>, requests: seq<Request>, start: nat)
    requires ValidCurves(curves) && start < |requests|
    requires var calls := CallsOf(curves, requests);
             calls[start].Start? && forall i :: start < i < |calls| ==> calls[i].Continue?
    ensures StartOf(requests) == requests[start]
    decreases |requests|
  {
    hide ValidCurves;
    var n := |requests| - 1;
    var calls, before := CallsOf(curves, requests), requests[..n];
    if start < n {
      assert calls[n].Continue?;
      assert forall i :: 0 <= i < n ==> calls[i] == CallsOf(curves, before)[i];
      LastStart(curves, before, start);
    }
  }

  lemma {:induction false} CallsAt(curves: seq<SwCurve>, requests: seq<Request>, i: nat)
    requires ValidCurves(curves) && i < |requests|
    ensures CallsOf(curves, requests)[i] == CallFor(curves, requests[i], StartOf(requests[..i]))
    decreases |requests|
  {
    hide ValidCurves, CallFor;
    var before := requests[..|requests| - 1];
    if i < |before| {
      CallsAt(curves, before, i);
      assert before[..i] == requests[..i];
    }
  }

  /** How many continuations it takes at least: 17, 18 and 19 for curves of 256 bits. */
  lemma EnoughCalls(curves: seq<SwCurve>, before: seq<Request>, op: Operation, start: nat)
    requires ValidCurves(curves) && CompletedBy(CallsOf(curves, before), op, start)
    ensures before[start].New() && before[start].Op() == op && before[start].curve < |curves|
    ensures var continued, bits := |before| - start - 1, curves[before[start].curve].bits;
            && continued >= Calls(op, bits)
            && (bits == 256 ==> continued >= if op == SignDigest then 18 else if op == VerifySignature then 19 else 17)
  {
    hide StartErrorsOn, Calls, Fails;
    CallsAt(curves, before, start);
    CallsMean(op, curves[before[start].curve].bits);
    assert StartErrors(curves, before[start]) == {};
    assert CurveInvalid in {CurveInvalid};
  }

  // ---- the same in terms of the requests ----

  ghost predicate ValidStart(curves: seq<SwCurve>, request: Request)
    requires ValidCurves(curves)
  {
    request.New() && request.curve < |curves| && StartErrors(curves, request) == {}
  }

  /** The continuations that the operation started takes. */
  ghost function Needed(curves: seq<SwCurve>, request: Request): (calls: nat)
    requires ValidCurves(curves) && request.New() && request.curve < |curves|
  {
    Calls(request.Op(), curves[request.curve].bits)
  }

  /** The requests end with a start of op with valid inputs and continuations of op, among them the last one that
      completes it only if that is not a failure. */
  ghost predicate Underway(curves: seq<SwCurve>, before: seq<Request>, op: Operation, start: nat)
    requires ValidCurves(curves)
  {
    && start < |before| && ValidStart(curves, before[start]) && before[start].Op() == op
    && (forall i :: start < i < |before| ==> before[i] == More(op))
    && (Fails(curves, before[start]) ==> |before| - start - 1 < Needed(curves, before[start]))
  }

  lemma {:induction false} LatestStart(requests: seq<Request>, start: nat)
    requires start < |requests| && requests[start].New() && forall i :: start < i < |requests| ==> !requests[i].New()
    ensures StartOf(requests) == requests[start]
    decreases |requests|
  {
    if start < |requests| - 1 {
      LatestStart(requests[..|requests| - 1], start);
    }
  }

  lemma StartCall(curves: seq<SwCurve>, request: Request, start: Request)
    requires ValidCurves(curves)
    ensures var call := CallFor(curves, request, start);
            && (call.Start? <==> request.New())
            && (call.Start? ==> call.op == request.Op() && (call.ok <==> ValidStart(curves, request)))
            && (ValidStart(curves, request) ==> call.calls == Needed(curves, request))
  {
    hide ValidCurves, StartErrorsOn, Fails, Calls;
    if request.New() && request.curve >= |curves| {
      assert CurveInvalid in StartErrors(curves, request);
    }
  }

  lemma ContinueCall(curves: seq<SwCurve>, request: Request, start: Request)
    requires ValidCurves(curves)
    ensures var call := CallFor(curves, request, start);
            && (call.Continue? <==> request.More?)
            && (call.Continue? ==> call.op == request.op
                                   && (call.failed <==> request.op == SignDigest && Fails(curves, start)))
  {
    hide ValidCurves, StartErrors, Fails;
  }

  lemma OnlySignaturesFail(curves: seq<SwCurve>, start: Request)
    requires ValidCurves(curves)
    ensures Fails(curves, start) ==> start.NewSignature? && start.Op() == SignDigest
  {
  }

  /** A call continues the operation as the protocol has it. */
  lemma ContinuesIff(curves: seq<SwCurve>, before: seq<Request>, op: Operation, start: nat, i: nat)
    requires ValidCurves(curves) && start < i < |before| && ValidStart(curves, before[start])
    requires before[start].Op() == op && forall j :: start < j < i ==> !before[j].New()
    ensures CallsOf(curves, before)[start].Start?
    ensures Continues(CallsOf(curves, before), op, start, i) <==>
            before[i] == More(op) && (i == start + Needed(curves, before[start]) ==> !Fails(curves, before[start]))
  {
    hide ValidCurves, CallFor, Fails, Needed, StartErrors;
    CallsAt(curves, before, start);
    CallsAt(curves, before, i);
    StartCall(curves, before[start], StartOf(before[..start]));
    ContinueCall(curves, before[i], StartOf(before[..i]));
    LatestStart(before[..i], start);
    OnlySignaturesFail(curves, before[start]);
  }

  /** The protocol has the operation in progress exactly if the requests do. */
  lemma UnderwayIff(curves: seq<SwCurve>, before: seq<Request>, op: Operation, start: nat)
    requires ValidCurves(curves)
    ensures Underway(curves, before, op, start) <==> Since(CallsOf(curves, before), op, start)
    ensures Underway(curves, before, op, start) ==>
              StartOf(before) == before[start] && CallsOf(curves, before)[start].calls == Needed(curves, before[start])
  {
    hide ValidCurves, CallFor, Fails, Needed, ValidStart, Continues;
    var calls := CallsOf(curves, before);
    if start < |before| {
      CallsAt(curves, before, start);
      StartCall(curves, before[start], StartOf(before[..start]));
      if Underway(curves, before, op, start) {
        UnderwaySince(curves, before, op, start);
      }
      if Since(calls, op, start) {
        SinceMore(curves, before, op, start);
      }
    }
  }

  lemma UnderwaySince(curves: seq<SwCurve>, before: seq<Request>, op: Operation, start: nat)
    requires ValidCurves(curves) && Underway(curves, before, op, start)
    ensures StartOf(before) == before[start]
    ensures var calls := CallsOf(curves, before);
            calls[start].Start? && forall i :: start < i < |before| ==> Continues(calls, op, start, i)
  {
    hide ValidCurves, CallFor, Fails, Needed, Continues, StartErrors;
    CallsAt(curves, before, start);
    StartCall(curves, before[start], StartOf(before[..start]));
    forall i | start < i < |before|
      ensures Continues(CallsOf(curves, before), op, start, i)
    {
      ContinuesIff(curves, before, op, start, i);
    }
    LatestStart(before, start);
  }

  lemma SinceMore(curves: seq<SwCurve>, before: seq<Request>, op: Operation, start: nat)
    requires ValidCurves(curves) && Since(CallsOf(curves, before), op, start)
    requires ValidStart(curves, before[start]) && before[start].Op() == op
    ensures Underway(curves, before, op, start)
  {
    hide ValidCurves, CallFor, Fails, Needed, StartErrors;
    var calls := CallsOf(curves, before);
    forall i | start < i < |before|
      ensures before[i].More?
    {
      assert Continues(calls, op, start, i);
      CallsAt(curves, before, i);
      ContinueCall(curves, before[i], StartOf(before[..i]));
    }
    forall i | start < i < |before|
      ensures before[i] == More(op) && (i == start + Needed(curves, before[start]) ==> !Fails(curves, before[start]))
    {
      assert Continues(calls, op, start, i);
      ContinuesIff(curves, before, op, start, i);
    }
    NeededPositive(curves, before[start]);
    var last := start + Needed(curves, before[start]);
    if last < |before| {
      assert before[last] == More(op);
    }
  }

  lemma NeededPositive(curves: seq<SwCurve>, request: Request)
    requires ValidCurves(curves) && request.New() && request.curve < |curves|
    ensures Needed(curves, request) > 0
  {
    CallsMean(request.Op(), curves[request.curve].bits);
  }

  /** A start, whatever was before it, is answered with its errors alone. */
  lemma StartAnswer(curves: seq<SwCurve>, before: seq<Request>, request: Request)
    requires ValidCurves(curves) && request.New()
    ensures var reply := ReplyAfter(curves, before, request);
            && !reply.done && reply.output == (0, 0)
            && (request.curve >= |curves| ==> reply.errors == {CurveInvalid})
    ensures request.curve < |curves| ==>
              var sw, errors := curves[request.curve], ReplyAfter(curves, before, request).errors;
              var generated := request.z.Some? && (request.NewSignature? ==> request.nonce.Some?);
              && errors <= {DrbgFailure, PrivateKeyInvalid, PublicKeyInvalid}
              && (DrbgFailure in errors <==> !generated)
              && (PrivateKeyInvalid in errors <==>
                    !request.NewVerification? && !(1 <= request.private < sw.cv.n)
                    && (request.NewSignature? ==> generated))
              && (PublicKeyInvalid in errors <==>
                    && (request.NewProduct? || request.NewVerification?)
                    && !(request.x < sw.cv.p && 0 < request.y < sw.cv.p
                         && Cong(request.y * request.y,
                                 request.x * request.x * request.x + sw.cv.a * request.x + sw.cv.b, sw.cv.p)))
  {
  }

  /** What the protocol has in progress. */
  lemma PhaseUnderway(curves: seq<SwCurve>, before: seq<Request>, op: Operation, start: nat)
    requires ValidCurves(curves) && Underway(curves, before, op, start)
    ensures StartOf(before) == before[start] && (Fails(curves, before[start]) ==> op == SignDigest)
    ensures After(CallsOf(curves, before)) == Busy(op, LeftAfter(Needed(curves, before[start]), |before| - start - 1))
    ensures Needed(curves, before[start]) > 0
  {
    hide ValidCurves, Needed, CallFor, Fails, StartErrors;
    UnderwayIff(curves, before, op, start);
    OnlySignaturesFail(curves, before[start]);
    NeededPositive(curves, before[start]);
    SinceBusy(CallsOf(curves, before), op, start);
  }

  lemma PhaseOtherwise(curves: seq<SwCurve>, before: seq<Request>, op: Operation)
    requires ValidCurves(curves) && forall start: nat :: !Underway(curves, before, op, start)
    ensures var phase := After(CallsOf(curves, before)); phase.Idle? || phase.op != op
  {
    hide ValidCurves, Underway, Since, CallsOf;
    var calls := CallsOf(curves, before);
    if After(calls).Busy? && After(calls).op == op {
      BusySince(calls, op);
      var start: nat :| Since(calls, op, start);
      UnderwayIff(curves, before, op, start);
    }
  }

  /** Without an operation of its kind underway, a continuation or a finish is an error. */
  lemma NothingUnderway(curves: seq<SwCurve>, before: seq<Request>, op: Operation)
    requires ValidCurves(curves) && forall start: nat :: !Underway(curves, before, op, start)
    ensures ReplyAfter(curves, before, More(op)) == Reply({IncorrectOperation}, false, (0, 0))
    ensures ReplyAfter(curves, before, Collect(op)) == Reply({IncorrectOperation}, false, (0, 0))
  {
    hide ValidCurves, Underway, Fails, Rejects, OutputOf, CallsOf;
    PhaseOtherwise(curves, before, op);
  }

  /** A continuation fails exactly if it is the one that completes a signature that is a failure, and otherwise is done
      exactly from the one on that completes the operation. */
  lemma ContinueAnswer(curves: seq<SwCurve>, before: seq<Request>, op: Operation, start: nat)
    requires ValidCurves(curves) && Underway(curves, before, op, start)
    ensures var continued, needed := |before| - start, Needed(curves, before[start]);
            ReplyAfter(curves, before, More(op)) ==
            if continued == needed && Fails(curves, before[start]) then Reply({DrbgFailure}, false, (0, 0))
            else Reply({}, continued >= needed, (0, 0))
  {
    hide ValidCurves, Underway, Needed, Fails, CallsOf;
    PhaseUnderway(curves, before, op, start);
  }

  /** A finish before the operation is complete is an error; otherwise it gives what belongs to the inputs. */
  lemma CollectAnswer(curves: seq<SwCurve>, before: seq<Request>, op: Operation, start: nat)
    requires ValidCurves(curves) && Underway(curves, before, op, start)
    ensures var continued, needed := |before| - start - 1, Needed(curves, before[start]);
            ReplyAfter(curves, before, Collect(op)) ==
            if continued < needed then Reply({NotFinished}, false, (0, 0))
            else if op == VerifySignature && Rejects(curves, before[start])
            then Reply({SignatureInvalid}, false, (0, 0))
            else Reply({}, false, OutputOf(curves, before[start]))
  {
    hide ValidCurves, Underway, Needed, Rejects, OutputOf, CallsOf;
    PhaseUnderway(curves, before, op, start);
  }

  // ---- the results in numbers ----

  /** After enough continuations, a multiplication answers with the multiple: a shared secret with its x coordinate, a
      product with both, and a public key with p in place of x = 0. */
  lemma MultipleCollected(curves: seq<SwCurve>, before: seq<Request>, op: Operation, start: nat)
    requires ValidCurves(curves) && Underway(curves, before, op, start) && IsMultiplication(op)
    requires |before| - start - 1 >= Needed(curves, before[start]) && Admissible(curves, before[start])
    ensures before[start].NewPublicKey? || before[start].NewProduct?
    ensures var reply, q := ReplyAfter(curves, before, Collect(op)), before[start].base(before[start].private);
            && reply.errors == {} && q.Affine?
            && (op == SharedSecret ==> reply.output == (q.x, 0))
            && (op == PointMultiply ==> reply.output == (q.x, q.y))
            && (op == ComputePublicKey ==>
                  reply.output == (if q.x == 0 then curves[before[start].curve].cv.p else q.x, q.y))
  {
    hide ValidCurves, Needed, Rejects, Multiples, ValidPoint, Fails;
    CollectAnswer(curves, before, op, start);
    MultipleAffine(curves, before[start]);
  }

  /** The multiple that a valid start asks for is not at infinity. */
  lemma MultipleAffine(curves: seq<SwCurve>, request: Request)
    requires ValidCurves(curves) && Admissible(curves, request) && ValidStart(curves, request)
    requires request.NewPublicKey? || request.NewProduct?
    ensures request.base(request.private).Affine?
  {
    hide Multiples, ValidPoint, SwCurve.Sound, Constants;
    var sw := curves[request.curve];
    StartAnswer(curves, [], request);
    assert PrivateKeyInvalid !in StartErrors(curves, request) && PublicKeyInvalid !in StartErrors(curves, request);
    SmallMod(request.private, sw.cv.n);
    IsAffine(sw.cv, request.base, request.private);
  }

  /** What a valid start of signing gives. */
  lemma NoncePoint(curves: seq<SwCurve>, request: Request)
    requires ValidCurves(curves) && Admissible(curves, request) && ValidStart(curves, request) && request.NewSignature?
    ensures request.nonce.Some? && 1 <= request.nonce.value < curves[request.curve].cv.n
    ensures var q := request.base(request.nonce.value); q.Affine? && 0 <= q.x < curves[request.curve].cv.p
  {
    hide Multiples, SwCurve.Sound, Constants;
    var sw := curves[request.curve];
    StartAnswer(curves, [], request);
    assert DrbgFailure !in StartErrors(curves, request);
    SmallMod(request.nonce.value, sw.cv.n);
    IsAffine(sw.cv, request.base, request.nonce.value);
  }

  /** Signing is a failure exactly if x is not zero but zero modulo n, or msg + r d is zero modulo n, where r is x
      modulo n, or p - n for x = 0. */
  lemma FailureMeans(curves: seq<SwCurve>, request: Request, n: nat, p: nat, x: int)
    requires ValidCurves(curves) && Admissible(curves, request) && ValidStart(curves, request) && request.NewSignature?
    requires request.nonce.Some? && request.base(request.nonce.value).Affine?
    requires n == curves[request.curve].cv.n && p == curves[request.curve].cv.p
    requires x == request.base(request.nonce.value).x
    ensures n > 0
    ensures var r := if x == 0 then p - n else x % n;
            Fails(curves, request) <==> (x != 0 && x % n == 0) || (request.msg + r * request.private) % n == 0
  {
    hide Multiples, StartErrors, Sign.SignedR, SignedS, Admissible;
    var sw := curves[request.curve];
    NoncePoint(curves, request);
    Sign.SigningMeans(sw, request.private, request.nonce.value, x, request.msg);
  }

  /** After enough continuations, signing answers with the r and s in [1, n - 1] with s k = msg + r d modulo n, where r
      is x modulo n, or p - n for x = 0. */
  lemma SignatureCollected(curves: seq<SwCurve>, before: seq<Request>, start: nat, n: nat, p: nat, x: int)
    requires ValidCurves(curves) && Underway(curves, before, SignDigest, start)
    requires |before| - start - 1 >= Needed(curves, before[start]) && Admissible(curves, before[start])
    requires var request := before[start];
             && request.NewSignature? && request.nonce.Some? && request.base(request.nonce.value).Affine?
             && n == curves[request.curve].cv.n && p == curves[request.curve].cv.p
             && x == request.base(request.nonce.value).x
    ensures n > 0
    ensures var request, reply := before[start], ReplyAfter(curves, before, Collect(SignDigest));
            var (r, s) := reply.output;
            && reply.errors == {} && r == (if x == 0 then p - n else x % n) && 1 <= r < n && 1 <= s < n
            && Cong(s * request.nonce.value, request.msg + r * request.private, n)
  {
    hide Needed, Rejects, Multiples, StartErrors, Admissible, Sign.SignedR, SignedS, CallsOf;
    var request := before[start];
    CollectAnswer(curves, before, SignDigest, start);
    NoncePoint(curves, request);
    Sign.SigningMeans(curves[request.curve], request.private, request.nonce.value, x, request.msg);
  }

  /** What a verification decides about a public key that is pt(d). */
  lemma AcceptedMeans(curves: seq<SwCurve>, start: Request, pt: int -> Point, d: int, h: int)
    requires ValidCurves(curves) && start.NewVerification? && start.curve < |curves|
    requires Multiples(curves[start.curve].cv, pt) && Masked(curves[start.curve], pt, h)
    requires pt(d) == Affine(start.x, start.y) && TableSafe(curves[start.curve], pt(d))
    ensures var sw := curves[start.curve];
            !Rejects(curves, start) <==>
            && Verifies(sw.cv, pt, d, start.msg, start.r, start.s) && start.msg % sw.cv.n != 0
            && Verify.NonExceptional(sw, d, h, start.msg, start.r, start.s)
  {
    hide Multiples, Masked, TableSafe, Constants, Verify.Job.Accepted, Verify.NonExceptional, Verifies;
    Verify.AcceptedIff(curves[start.curve], pt, d, h, Verify.Job(pt(d), 0, start.msg, start.r, start.s));
  }
}
