/** sb_sw_lib.c: the resumable interface.  Calls may come in any order; errors and results clear the context. */
module Api {
  import opened Results
  import opened ModArith
  import opened Primes
  import opened QuasiField
  import opened Curve
  import opened CoZ
  import opened Scalars
  import opened PointMult
  import opened PointMultRun
  import opened MultAdd
  import opened Ecdsa
  import Verify
  import Sign

  datatype Operation = ComputePublicKey | SharedSecret | PointMultiply | SignDigest | VerifySignature

  // ---- the protocol ----

  /** No operation, or one with a number of calls to go. */
  datatype Phase = Idle | Busy(op: Operation, left: nat)

  /** A call, with what its success depends on besides the phase: whether the inputs of a start are valid, and
      whether the signature that a continuation completes is a failure. */
  datatype Call =
    | Start(op: Operation, calls: nat, ok: bool)
    | Continue(op: Operation, failed: bool)
    | Finish(op: Operation)

  /** The phase after a call. */
  function Next(phase: Phase, call: Call): Phase {
    match call
    case Start(op, calls, ok) => if ok then Busy(op, calls) else Idle
    case Continue(op, failed) =>
      if phase.Idle? || phase.op != op then Idle
      else if phase.left == 1 && failed then Idle
      else Busy(op, if phase.left == 0 then 0 else phase.left - 1)
    case Finish(op) => Idle
  }

  function After(calls: seq<Call>): Phase {
    if calls == [] then Idle else Next(After(calls[..|calls| - 1]), calls[|calls| - 1])
  }

  /** The calls end with a successful start of op and continuations of op, one of which completes it. */
  predicate CompletedBy(calls: seq<Call>, op: Operation, start: nat) {
    && start < |calls| && calls[start].Start? && calls[start].op == op && calls[start].ok
    && |calls| - start - 1 >= calls[start].calls
    && forall i :: start < i < |calls| ==> Continues(calls, op, start, i)
  }

  /** Call i continues op, without failing if it is the one that completes it. */
  predicate Continues(calls: seq<Call>, op: Operation, start: nat, i: nat)
    requires start < i < |calls| && calls[start].Start?
  {
    calls[i].Continue? && calls[i].op == op && (i == start + calls[start].calls ==> !calls[i].failed)
  }

  /** The calls so far start op and continue it, completed or not. */
  predicate Since(calls: seq<Call>, op: Operation, start: nat) {
    && start < |calls| && calls[start].Start? && calls[start].op == op && calls[start].ok
    && forall i :: start < i < |calls| ==> Continues(calls, op, start, i)
  }

  /** What is left after a start and continuations. */
  function LeftAfter(calls: nat, continued: nat): nat { if continued >= calls then 0 else calls - continued }

  lemma {:induction false} SinceBusy(calls: seq<Call>, op: Operation, start: nat)
    requires Since(calls, op, start)
    ensures After(calls) == Busy(op, LeftAfter(calls[start].calls, |calls| - start - 1))
    decreases |calls|
  {
    var before := calls[..|calls| - 1];
    if start < |calls| - 1 {
      assert Continues(calls, op, start, |calls| - 1);
      assert forall i :: start < i < |before| ==> Continues(before, op, start, i) by {
        forall i | start < i < |before|
          ensures Continues(before, op, start, i)
        {
          assert Continues(calls, op, start, i);
        }
      }
      SinceBusy(before, op, start);
    }
  }

  lemma {:induction false} BusySince(calls: seq<Call>, op: Operation)
    requires After(calls).Busy? && After(calls).op == op
    ensures exists start :: Since(calls, op, start)
    decreases |calls|
  {
    var before, last := calls[..|calls| - 1], calls[|calls| - 1];
    if last.Start? {
      assert Since(calls, op, |calls| - 1);
    } else {
      BusySince(before, op);
      var start: nat :| Since(before, op, start);
      SinceBusy(before, op, start);
      forall i | start < i < |calls|
        ensures Continues(calls, op, start, i)
      {
        if i < |before| {
          assert Continues(before, op, start, i);
        }
      }
      assert Since(calls, op, start);
    }
  }

  /** Over any sequence of calls, an operation can be finished exactly after a start of it and enough
      continuations of it, with no other call in between. */
  lemma FinishableIff(calls: seq<Call>, op: Operation)
    ensures After(calls) == Busy(op, 0) <==> exists start :: CompletedBy(calls, op, start)
  {
    if After(calls) == Busy(op, 0) {
      BusySince(calls, op);
      var start: nat :| Since(calls, op, start);
      SinceBusy(calls, op, start);
      assert CompletedBy(calls, op, start);
    }
    if exists start :: CompletedBy(calls, op, start) {
      var start: nat :| CompletedBy(calls, op, start);
      assert Since(calls, op, start);
      SinceBusy(calls, op, start);
    }
  }

  // ---- the operations in progress ----

  /** What an operation in progress computes. */
  datatype Job =
    | NoJob
    | Multiplication(mult: MultJob)
    | Signature(sign: MultJob)
    | Verification(verify: Verify.Job, acc: Acc)

  /** What a job computes, regardless of how far it is. */
  datatype Aim = NoAim | MultiplyAim(base: int -> Point, k0: nat) | VerifyAim(q: Point, msg: nat, r: nat, s: nat)

  ghost function AimOf(job: Job): Aim {
    match job
    case NoJob => NoAim
    case Multiplication(m) => MultiplyAim(m.base, m.k0)
    case Signature(m) => MultiplyAim(m.base, m.k0)
    case Verification(v, acc) => VerifyAim(v.q, v.msg, v.r, v.s)
  }

  /** k0 times the point base(1), by way of k times the point pt(1). */
  datatype MultJob = MultJob(base: int -> Point, k0: nat, pt: int -> Point, k: nat, z: int)

  ghost predicate Multiplying(c: Context, sw: SwCurve, job: MultJob)
    reads c`x1, c`y1, c`x2, c`y2, c`k, c`pointX, c`pointY, c`stage, c`i, c`invK, c`kOne, c`swap
  {
    && Base(sw, job.pt) && InProgress(c, sw, job.pt, job.k, job.z)
    && Multiples(sw.cv, job.base) && job.base(1).Affine? && 1 <= job.k0 < sw.cv.n
    && Denotes(sw, job.base, job.k0, job.pt, job.k, c.invK)
  }

  ghost predicate Signing(c: Context, sw: SwCurve, job: MultJob)
    reads c`x1, c`y1, c`x2, c`y2, c`k, c`pointX, c`pointY, c`stage, c`i, c`invK, c`kOne, c`swap,
          c`signPrivate, c`signMessage
  {
    && Base(sw, job.pt) && Base(sw, job.base)
    && Sign.Signing(c, sw, job.base, job.k0, job.pt, job.k, job.z)
    && (c.stage == Sign.STAGE_SIGN_DONE ==> c.x2 != sw.fn.m && c.y2 != sw.fn.m)
  }

  ghost predicate Verifying(c: Context, sw: SwCurve, job: Verify.Job, acc: Acc)
    reads c`x1, c`y1, c`z, c`k, c`pointX, c`pointY, c`messageThenKg, c`qr, c`qsThenPgX, c`pgY, c`res, c`stage, c`i
  {
    sw.Sound() && job.Sound(sw) && Verify.InStage(c, sw, job, acc)
  }

  /** Every field is zero. */
  ghost predicate Zeroed(c: Context)
    reads c
  {
    ZeroRegisters(c) && ZeroState(c) && ZeroInputs(c)
  }

  ghost predicate ZeroRegisters(c: Context)
    reads c`x1, c`y1, c`x2, c`y2, c`t5, c`t6, c`t7, c`t8
  {
    c.x1 == 0 && c.y1 == 0 && c.x2 == 0 && c.y2 == 0 && c.t5 == 0 && c.t6 == 0 && c.t7 == 0 && c.t8 == 0
  }

  ghost predicate ZeroState(c: Context)
    reads c`k, c`z, c`stage, c`i, c`invK, c`kOne, c`swap, c`res
  {
    c.k == 0 && c.z == 0 && c.stage == 0 && c.i == 0 && c.invK == 0 && c.kOne == 0 && c.swap == 0 && c.res == 0
  }

  ghost predicate ZeroInputs(c: Context)
    reads c`pointX, c`pointY, c`signMessage, c`signPrivate, c`qr, c`messageThenKg, c`qsThenPgX, c`pgY
  {
    && c.pointX == 0 && c.pointY == 0 && c.signMessage == 0 && c.signPrivate == 0
    && c.qr == 0 && c.messageThenKg == 0 && c.qsThenPgX == 0 && c.pgY == 0
  }

  /** SB_NULLIFY. */
  method Nullify(c: Context)
    modifies c
    ensures Zeroed(c)
    ensures c.x1 == c.y1 == c.x2 == c.y2 == c.t5 == c.t6 == c.t7 == c.t8 == 0
    ensures c.k == c.z == c.stage == c.i == c.invK == c.kOne == c.swap == c.res == 0
    ensures c.pointX == c.pointY == c.signMessage == c.signPrivate == 0
    ensures c.qr == c.messageThenKg == c.qsThenPgX == c.pgY == 0
  {
    NullifyRegisters(c);
    NullifyState(c);
    NullifyInputs(c);
  }

  method NullifyRegisters(c: Context)
    modifies c`x1, c`y1, c`x2, c`y2, c`t5, c`t6, c`t7, c`t8
    ensures ZeroRegisters(c)
  {
    c.x1, c.y1, c.x2, c.y2 := 0, 0, 0, 0;
    c.t5, c.t6, c.t7, c.t8 := 0, 0, 0, 0;
  }

  method NullifyState(c: Context)
    modifies c`k, c`z, c`stage, c`i, c`invK, c`kOne, c`swap, c`res
    ensures ZeroState(c)
  {
    c.k, c.z, c.stage, c.i := 0, 0, 0, 0;
    c.invK, c.kOne, c.swap, c.res := 0, 0, 0, 0;
  }

  method NullifyInputs(c: Context)
    modifies c`pointX, c`pointY, c`signMessage, c`signPrivate, c`qr, c`messageThenKg, c`qsThenPgX, c`pgY
    ensures ZeroInputs(c)
  {
    c.pointX, c.pointY, c.signMessage, c.signPrivate := 0, 0, 0, 0;
    c.qr, c.messageThenKg, c.qsThenPgX, c.pgY := 0, 0, 0, 0;
  }

  /** One call of sb_sw_point_mult_continue. */
  method MultiplyOn(c: Context, sw: SwCurve, ghost job: MultJob) returns (done: bool, ghost job': MultJob)
    requires Multiplying(c, sw, job)
    modifies c
    ensures Multiplying(c, sw, job') && job' == job.(z := job'.z)
    ensures done <==> MultCallsLeft(c.stage, c.i) == 0
    ensures var left := old(MultCallsLeft(c.stage, c.i));
            MultCallsLeft(c.stage, c.i) == if left == 0 then 0 else left - 1
    ensures old(MultCallsLeft(c.stage, c.i)) == 0 ==> unchanged(c)
  {
    hide Multiples, Base;
    ghost var z;
    done, z := PointMultContinue(c, sw, job.pt, job.k, job.z);
    job' := job.(z := z);
  }

  /** One call of sb_sw_sign_continue. */
  method SignOn(c: Context, sw: SwCurve, ghost job: MultJob) returns (done: bool, failed: bool, ghost job': MultJob)
    requires Signing(c, sw, job)
    modifies c
    ensures !failed ==> Signing(c, sw, job') && job' == job.(z := job'.z)
    ensures !failed ==> (done <==> Sign.SignCallsLeft(c.stage, c.i) == 0)
    ensures var left := old(Sign.SignCallsLeft(c.stage, c.i));
            && Sign.SignCallsLeft(c.stage, c.i) == (if left == 0 then 0 else left - 1)
            && (failed <==> left == 1 && Sign.SigningFails(sw, job.base, job.k0, c.signPrivate, c.signMessage))
    ensures old(Sign.SignCallsLeft(c.stage, c.i)) == 0 ==> unchanged(c)
    ensures c.signPrivate == old(c.signPrivate) && c.signMessage == old(c.signMessage)
  {
    hide Multiples, Sign.Signing, Sign.SigningFails, SwCurve.Sound, Field.Valid, Slices;
    ghost var z;
    done, failed, z := Sign.SignContinue(c, sw, job.base, job.k0, job.pt, job.k, job.z);
    job' := job.(z := z);
  }

  /** One call of sb_sw_verify_continue. */
  method VerifyOn(c: Context, sw: SwCurve, ghost job: Verify.Job, ghost acc: Acc)
    returns (done: bool, ghost acc': Acc)
    requires Verifying(c, sw, job, acc)
    modifies c
    ensures Verifying(c, sw, job, acc')
    ensures done <==> Verify.CallsLeft(c.stage, c.i, sw.bits) == 0
    ensures var left := old(Verify.CallsLeft(c.stage, c.i, sw.bits));
            Verify.CallsLeft(c.stage, c.i, sw.bits) == if left == 0 then 0 else left - 1
    ensures old(Verify.CallsLeft(c.stage, c.i, sw.bits)) == 0 ==> unchanged(c)
  {
    hide Multiples;
    done, acc' := Verify.VerifyContinue(c, sw, job, acc);
  }
}
