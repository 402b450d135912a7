/** sb_sw_lib.c: a context that any sequence of the resumable calls is made on. */
module Session {
  import opened Results
  import opened ModArith
  import opened Primes
  import opened QuasiField
  import opened Curve
  import opened CoZ
  import opened Scalars
  import opened PointMult
  import opened PointMultRun
  import opened MultAdd
  import opened Ecdsa
  import opened PointCodec
  import opened Api
  import Verify
  import Sign

  predicate IsMultiplication(op: Operation) {
    op == ComputePublicKey || op == SharedSecret || op == PointMultiply
  }

  /** Calls that are left, from the stage and the index that the context keeps. */
  function Left(op: Operation, stage: nat, i: nat, bits: nat): nat {
    if op == SignDigest then Sign.SignCallsLeft(stage, i)
    else if op == VerifySignature then Verify.CallsLeft(stage, i, bits)
    else MultCallsLeft(stage, i)
  }

  /** The calls of a whole operation: 17, 18 and 19 for 256 bits. */
  function Calls(op: Operation, bits: nat): nat
    requires bits > 0
  {
    if op == SignDigest then 2 + Slices(bits - 1)
    else if op == VerifySignature then 3 + Slices(bits)
    else 1 + Slices(bits - 1)
  }

  /** One call for each 16 bits, or what there is of them: of all bits but one, or of all bits for a verification.  A
      multiplication takes one call more than that, a signature two and a verification three. */
  lemma CallsMean(op: Operation, bits: nat)
    requires bits > 0
    ensures var more, all := if op == SignDigest then 2 else if op == VerifySignature then 3 else 1,
                             if op == VerifySignature then bits else bits - 1;
            all <= 16 * (Calls(op, bits) - more) < all + 16
    ensures bits == 256 ==> Calls(op, bits) == if op == SignDigest then 18 else if op == VerifySignature then 19 else 17
  {
  }

  class Session {
    const c: Context
    const curves: seq<SwCurve>
    var operation: Option<Operation>
    var curveId: nat
    ghost var job: Job

    ghost predicate Running(op: Operation)
      reads this, c`x1, c`y1, c`x2, c`y2, c`z, c`k, c`pointX, c`pointY, c`stage, c`i, c`invK, c`kOne, c`swap, c`res,
            c`signPrivate, c`signMessage, c`messageThenKg, c`qr, c`qsThenPgX, c`pgY
    {
      && curveId < |curves|
      && match job
         case Multiplication(m) => IsMultiplication(op) && Multiplying(c, curves[curveId], m)
         case Signature(m) => op == SignDigest && Signing(c, curves[curveId], m)
         case Verification(v, acc) => op == VerifySignature && Verifying(c, curves[curveId], v, acc)
         case NoJob => false
    }

    /** A context without operation is zero. */
    ghost predicate Valid()
      reads this, c
    {
      && |curves| > 0
      && match operation
         case None => Zeroed(c) && curveId == 0
         case Some(op) => Running(op)
    }

    ghost function Phase(): Phase
      reads this, c`stage, c`i
    {
      match operation
      case None => Idle
      case Some(op) => Busy(op, if curveId < |curves| then Left(op, c.stage, c.i, curves[curveId].bits) else 0)
    }

    constructor (curves: seq<SwCurve>)
      requires |curves| > 0
      ensures Valid() && Phase() == Idle && this.curves == curves && fresh(c)
    {
      c := new Context();
      this.curves := curves;
      operation := None;
      curveId := 0;
      new;
      Nullify(c);
    }

    method Clear()
      requires |curves| > 0
      modifies this, c
      ensures Valid() && Phase() == Idle && Zeroed(c)
    {
      hide Zeroed;
      Nullify(c);
      operation := None;
      curveId := 0;
      job := NoJob;
    }

    // ---- continuations ----

    method ContinueMultiplication() returns (done: bool)
      requires Valid() && operation.Some? && IsMultiplication(operation.value)
      modifies c, this`job
      ensures Valid() && AimOf(job) == old(AimOf(job)) && (done <==> Phase() == Busy(operation.value, 0))
      ensures Phase() == Api.Next(old(Phase()), Call.Continue(operation.value, false))
      ensures old(Phase()).left == 0 ==> unchanged(c)
    {
      hide Multiplying;
      ghost var m;
      done, m := MultiplyOn(c, curves[curveId], job.mult);
      job := Multiplication(m);
    }

    method ContinueSigning() returns (done: bool, failed: bool)
      requires Valid() && operation == Some(SignDigest)
      modifies c, this`job
      ensures !failed ==> Valid() && AimOf(job) == old(AimOf(job)) && (done <==> Phase() == Busy(SignDigest, 0))
      ensures c.signPrivate == old(c.signPrivate) && c.signMessage == old(c.signMessage)
      ensures !failed ==> Phase() == Api.Next(old(Phase()), Call.Continue(SignDigest, false))
      ensures failed <==> old(Phase()) == Busy(SignDigest, 1) && old(Failing())
      ensures old(Phase()).left == 0 ==> unchanged(c)
    {
      hide Signing, Sign.SigningFails;
      ghost var m;
      done, failed, m := SignOn(c, curves[curveId], job.sign);
      job := Signature(m);
    }

    method ContinueVerification() returns (done: bool)
      requires Valid() && operation == Some(VerifySignature)
      modifies c, this`job
      ensures Valid() && AimOf(job) == old(AimOf(job)) && (done <==> Phase() == Busy(VerifySignature, 0))
      ensures Phase() == Api.Next(old(Phase()), Call.Continue(VerifySignature, false))
      ensures old(Phase()).left == 0 ==> unchanged(c)
    {
      hide Verifying;
      ghost var acc;
      done, acc := VerifyOn(c, curves[curveId], job.verify, job.acc);
      job := Verification(job.verify, acc);
    }

    /** The signature in progress is one that signing reports as a failure. */
    ghost predicate Failing()
      reads this, c`signPrivate, c`signMessage
    {
      curveId < |curves| && SignatureFails(AimOf(job), curves[curveId], c.signPrivate, c.signMessage)
    }

    /** The five continue functions.  A call that does not belong to the operation in progress, and a failure,
        clear the context; calls after the last one change nothing. */
    method Continue(op: Operation) returns (errors: set<Error>, done: bool)
      requires Valid()
      modifies this, c
      ensures Valid() && Phase() == Api.Next(old(Phase()), Call.Continue(op, errors == {DrbgFailure}))
      ensures errors == if old(operation) != Some(op) then {IncorrectOperation}
                        else ErrorIf(DrbgFailure, old(Phase()) == Busy(SignDigest, 1) && old(Failing()))
      ensures errors != {} ==> Zeroed(c) && operation == None
      ensures errors == {} ==> (done <==> Phase() == Busy(op, 0)) && AimOf(job) == old(AimOf(job))
      ensures errors == {} && op == SignDigest ==>
                c.signPrivate == old(c.signPrivate) && c.signMessage == old(c.signMessage)
      ensures errors == {} ==> curveId == old(curveId)
      ensures old(Phase()) == Busy(op, 0) ==> unchanged(c)
    {
      hide Zeroed, Running;
      errors := ErrorIf(IncorrectOperation, operation != Some(op));
      done := false;
      if errors != {} {
        Clear();
        return;
      }
      if op == SignDigest {
        var failed;
        done, failed := ContinueSigning();
        if failed {
          errors := {DrbgFailure};
          Clear();
        }
      } else if op == VerifySignature {
        done := ContinueVerification();
      } else {
        done := ContinueMultiplication();
      }
    }

    /** Continue until done. */
    method Complete(op: Operation) returns (errors: set<Error>, calls: nat)
      requires Valid() && operation == Some(op)
      modifies this, c
      ensures Valid() && errors == ErrorIf(DrbgFailure, op == SignDigest && old(Phase()).left > 0 && old(Failing()))
      ensures errors == {} ==> Phase() == Busy(op, 0) && AimOf(job) == old(AimOf(job)) && curveId == old(curveId)
      ensures errors == {} && op == SignDigest ==>
                c.signPrivate == old(c.signPrivate) && c.signMessage == old(c.signMessage)
      ensures errors != {} ==> Zeroed(c) && operation == None
      ensures calls == if old(Phase()).left == 0 then 1 else old(Phase()).left
    {
      hide Zeroed, Running, Left, SignatureFails;
      calls := 0;
      errors := {};
      var done := false;
      ghost var left0 := Phase().left;
      while !done
        invariant Valid()
        invariant errors == {} || (op == SignDigest && left0 > 0 && errors == {DrbgFailure} && old(Failing()))
        invariant errors == {} ==> operation == Some(op) && AimOf(job) == old(AimOf(job)) && curveId == old(curveId)
        invariant errors == {} && op == SignDigest ==>
                    c.signPrivate == old(c.signPrivate) && c.signMessage == old(c.signMessage)
        invariant errors != {} ==> done && Zeroed(c) && operation == None
        invariant errors == {} ==> Phase() == Busy(op, LeftAfter(left0, calls))
        invariant errors == {} && op == SignDigest && calls >= left0 > 0 ==> !old(Failing())
        invariant done ==> calls == (if left0 == 0 then 1 else left0) && (errors == {} ==> Phase() == Busy(op, 0))
        invariant !done ==> calls == 0 || calls < left0
        decreases !done, if calls <= left0 then left0 - calls else 0
      {
        errors, done := Continue(op);
        calls := calls + 1;
        if errors != {} {
          done := true;
        }
      }
    }

    // ---- starts ----

    /** The end of the start functions for multiplications: k0 times the point in the point registers. */
    method BeginMultiplication(op: Operation, curve: nat, ghost base: int -> Point, ghost zv: int)
      requires IsMultiplication(op) && curve < |curves| && curves[curve].Sound() && Multiples(curves[curve].cv, base)
      requires base(1).Affine? && c.pointX == curves[curve].fp.Mont(base(1).x)
      requires c.pointY == curves[curve].fp.Mont(base(1).y)
      requires 1 <= c.k < curves[curve].cv.n && c.swap == 0
      requires c.z == curves[curve].fp.Mont(zv) && zv % curves[curve].cv.p != 0
      modifies this, c
      ensures Valid() && AimOf(job) == MultiplyAim(base, old(c.k)) && curveId == curve
      ensures Phase() == Busy(op, Calls(op, curves[curve].bits))
    {
      hide Multiples, Position, Loaded;
      ghost var k0 := c.k;
      ghost var pt, k, z := PointMultStart(c, curves[curve], base, k0, zv);
      operation := Some(op);
      curveId := curve;
      job := Multiplication(MultJob(base, k0, pt, k, z));
    }

    /** Place a random Z, as generated, in its register. */
    method PlaceZ(curve: nat, z: nat) returns (ghost zv: int)
      requires curve < |curves| && curves[curve].Sound() && 1 <= z < curves[curve].cv.p
      modifies c`z
      ensures c.z == curves[curve].fp.Mont(zv) && zv % curves[curve].cv.p != 0
    {
      zv := MontOnto(curves[curve].fp, z);
      MontZero(curves[curve].fp, zv);
      c.z := z;
    }

    /** sb_sw_compute_public_key_start.  There is no z if the generation of Z has failed. */
    method StartPublicKey(curve: nat, private: nat, z: Option<nat>, ghost base: int -> Point)
      returns (errors: set<Error>)
      requires |curves| > 0
      requires curve < |curves| ==> Base(curves[curve], base) && base(1) == curves[curve].g
      requires curve < |curves| && z.Some? ==> 1 <= z.value < curves[curve].cv.p
      modifies this, c
      ensures Valid()
      ensures errors == if curve >= |curves| then {CurveInvalid}
                        else ErrorIf(DrbgFailure, z.None?)
                             + ErrorIf(PrivateKeyInvalid, !(1 <= private < curves[curve].cv.n))
      ensures if errors == {} then Phase() == Busy(ComputePublicKey, Calls(ComputePublicKey, curves[curve].bits))
                                   && AimOf(job) == MultiplyAim(base, private) && curveId == curve
              else Phase() == Idle && Zeroed(c)
    {
      hide ZeroRegisters, ZeroInputs, Running, Multiples, Left;
      Clear();
      if curve >= |curves| {
        return {CurveInvalid};
      }
      var valid, reduced := Verify.ScalarValidate(curves[curve].fn, private);
      errors := ErrorIf(DrbgFailure, z.None?) + ErrorIf(PrivateKeyInvalid, valid == 0);
      if errors != {} {
        return;
      }
      assert z.Some? && valid == 1 by {
        assert DrbgFailure !in errors && PrivateKeyInvalid !in errors;
      }
      PlaceGenerator(curve, private);
      ghost var zv := PlaceZ(curve, z.value);
      BeginMultiplication(ComputePublicKey, curve, base, zv);
    }

    /** sb_sw_shared_secret_start and sb_sw_point_multiply_start. */
    method StartWithPoint(op: Operation, curve: nat, private: nat, x: nat, y: nat, z: Option<nat>,
                          ghost base: int -> Point)
      returns (errors: set<Error>)
      requires |curves| > 0 && (op == SharedSecret || op == PointMultiply)
      requires curve < |curves| ==> curves[curve].Sound()
      requires curve < |curves| && ValidPoint(curves[curve].cv, x, y) ==>
                 Multiples(curves[curve].cv, base) && base(1) == Affine(x, y)
      requires curve < |curves| && z.Some? ==> 1 <= z.value < curves[curve].cv.p
      modifies this, c
      ensures Valid()
      ensures errors == if curve >= |curves| then {CurveInvalid}
                        else ErrorIf(DrbgFailure, z.None?)
                             + ErrorIf(PrivateKeyInvalid, !(1 <= private < curves[curve].cv.n))
                             + ErrorIf(PublicKeyInvalid, !ValidPoint(curves[curve].cv, x, y))
      ensures if errors == {} then Phase() == Busy(op, Calls(op, curves[curve].bits))
                                   && AimOf(job) == MultiplyAim(base, private) && curveId == curve
              else Phase() == Idle && Zeroed(c)
    {
      hide ZeroRegisters, ZeroInputs, Running, Multiples, ValidPoint, Left;
      Clear();
      if curve >= |curves| {
        return {CurveInvalid};
      }
      var validScalar, validPoint := LoadOperands(curve, private, x, y);
      errors := ErrorIf(DrbgFailure, z.None?) + ErrorIf(PrivateKeyInvalid, !validScalar)
                + ErrorIf(PublicKeyInvalid, !validPoint);
      if errors != {} {
        Clear();
        return;
      }
      assert z.Some? && validScalar && validPoint by {
        assert DrbgFailure !in errors && PrivateKeyInvalid !in errors && PublicKeyInvalid !in errors;
      }
      ConvertOperands(curve, private, x, y);
      ghost var zv := PlaceZ(curve, z.value);
      BeginMultiplication(op, curve, base, zv);
    }

    /** Load and validate a scalar and a point. */
    method LoadOperands(curve: nat, private: nat, x: nat, y: nat) returns (validScalar: bool, validPoint: bool)
      requires curve < |curves| && curves[curve].Sound()
      modifies c`k, c`pointX, c`pointY, c`x1, c`y1, c`y2, c`t5, c`t6
      ensures validScalar == (1 <= private < curves[curve].cv.n) && c.k == curves[curve].fn.Qr(private)
      ensures validPoint <==> ValidPoint(curves[curve].cv, x, y)
      ensures c.pointX == curves[curve].fp.Qr(x) && c.pointY == curves[curve].fp.Qr(y)
    {
      hide ValidPoint;
      var valid;
      valid, c.k := Verify.ScalarValidate(curves[curve].fn, private);
      validScalar := valid == 1;
      c.pointX, c.pointY := x, y;
      validPoint := PointValidate(c, curves[curve]);
    }

    /** The point is multiplied by the radix. */
    method ConvertOperands(curve: nat, ghost private: nat, ghost x: nat, ghost y: nat)
      requires curve < |curves| && curves[curve].Sound() && 1 <= private < curves[curve].cv.n
      requires c.k == curves[curve].fn.Qr(private)
      requires c.pointX == curves[curve].fp.Qr(x) && c.pointY == curves[curve].fp.Qr(y)
      modifies c`pointX, c`pointY, c`x1, c`y1
      ensures c.k == private
      ensures c.pointX == curves[curve].fp.Mont(x) && c.pointY == curves[curve].fp.Mont(y)
    {
      QrFixed(curves[curve].fn, private);
      ConvertPoint(c, curves[curve].fp, Affine(x, y));
    }

    /** sb_sw_sign_message_digest_start, after the nonce and Z have been generated. */
    method StartSigning(curve: nat, nonce: Option<nat>, z: Option<nat>, private: nat, msg: nat,
                        ghost base: int -> Point)
      returns (errors: set<Error>)
      requires |curves| > 0
      requires curve < |curves| ==> Base(curves[curve], base) && base(1) == curves[curve].g
      requires curve < |curves| && nonce.Some? ==> 1 <= nonce.value < curves[curve].cv.n
      requires curve < |curves| && z.Some? ==> 1 <= z.value < curves[curve].cv.p
      modifies this, c
      ensures Valid()
      ensures errors == if curve >= |curves| then {CurveInvalid}
                        else if nonce.None? || z.None? then {DrbgFailure}
                        else ErrorIf(PrivateKeyInvalid, !(1 <= private < curves[curve].cv.n))
      ensures if errors == {} then Phase() == Busy(SignDigest, Calls(SignDigest, curves[curve].bits))
                                   && AimOf(job) == MultiplyAim(base, nonce.value) && curveId == curve
                                   && c.signPrivate == private && c.signMessage == curves[curve].fn.Qr(msg)
              else Phase() == Idle && Zeroed(c)
    {
      hide ZeroRegisters, ZeroInputs, Running, Base, SwCurve.Sound, Left, Calls, Field.Mont, Field.Qr, Multiples;
      Clear();
      if curve >= |curves| {
        return {CurveInvalid};
      }
      BaseFields(curves[curve], base);
      if nonce.None? || z.None? {
        return {DrbgFailure};
      }
      var valid, reduced := Verify.ScalarValidate(curves[curve].fn, private);
      errors := ErrorIf(PrivateKeyInvalid, valid == 0);
      if errors != {} {
        return;
      }
      QrFixed(curves[curve].fn, private);
      c.signPrivate, c.signMessage := reduced, curves[curve].fn.ModReduce(msg);
      PlaceGenerator(curve, nonce.value);
      ghost var zv := PlaceZ(curve, z.value);
      BeginSigning(curve, base, zv);
    }

    method PlaceGenerator(curve: nat, k: nat)
      requires curve < |curves| && curves[curve].fp.m > 0 && curves[curve].g.Affine?
      modifies c`k, c`pointX, c`pointY
      ensures c.k == k && c.pointX == curves[curve].fp.Mont(curves[curve].g.x)
      ensures c.pointY == curves[curve].fp.Mont(curves[curve].g.y)
    {
      c.k := k;
      c.pointX := curves[curve].fp.Mont(curves[curve].g.x);
      c.pointY := curves[curve].fp.Mont(curves[curve].g.y);
    }

    method BeginSigning(curve: nat, ghost base: int -> Point, ghost zv: int)
      requires curve < |curves| && Base(curves[curve], base) && c.pointX == curves[curve].fp.Mont(base(1).x)
      requires c.pointY == curves[curve].fp.Mont(base(1).y)
      requires 1 <= c.k < curves[curve].cv.n && c.swap == 0
      requires c.z == curves[curve].fp.Mont(zv) && zv % curves[curve].cv.p != 0
      modifies this, c`x1, c`y1, c`x2, c`y2, c`t5, c`t6, c`t7, c`t8, c`k, c`swap, c`i, c`stage, c`pointX, c`pointY,
               c`invK, c`kOne
      ensures Valid() && AimOf(job) == MultiplyAim(base, old(c.k)) && curveId == curve
      ensures Phase() == Busy(SignDigest, Calls(SignDigest, curves[curve].bits))
    {
      hide Multiples, Position, Loaded;
      ghost var k0 := c.k;
      ghost var pt, k, z := PointMultStart(c, curves[curve], base, k0, zv);
      operation := Some(SignDigest);
      curveId := curve;
      job := Signature(MultJob(base, k0, pt, k, z));
    }

    /** sb_sw_verify_signature_start. */
    method StartVerification(curve: nat, r: nat, s: nat, x: nat, y: nat, msg: nat, z: Option<nat>)
      returns (errors: set<Error>)
      requires |curves| > 0
      requires curve < |curves| ==> curves[curve].Sound() && Constants(curves[curve])
      requires curve < |curves| && z.Some? ==> 1 <= z.value < curves[curve].cv.p
      modifies this, c
      ensures Valid()
      ensures errors == if curve >= |curves| then {CurveInvalid}
                        else ErrorIf(DrbgFailure, z.None?)
                             + ErrorIf(PublicKeyInvalid, !ValidPoint(curves[curve].cv, x, y))
      ensures if errors == {} then Phase() == Busy(VerifySignature, Calls(VerifySignature, curves[curve].bits))
                                   && curveId == curve && AimOf(job) == VerifyAim(Affine(x, y), msg, r, s)
              else Phase() == Idle && Zeroed(c)
    {
      hide Zeroed, Running, ValidPoint, Left, Constants;
      Clear();
      if curve >= |curves| {
        return {CurveInvalid};
      }
      c.pointX, c.pointY := x, y;
      var valid := PointValidate(c, curves[curve]);
      errors := ErrorIf(DrbgFailure, z.None?) + ErrorIf(PublicKeyInvalid, !valid);
      if errors != {} {
        Clear();
        return;
      }
      assert z.Some? && valid by {
        assert DrbgFailure !in errors && PublicKeyInvalid !in errors;
      }
      ghost var zv := PlaceZ(curve, z.value);
      c.qr, c.qsThenPgX, c.messageThenKg := r, s, msg;
      ValidResidues(curves[curve].cv, x, y);
      BeginVerification(curve, Affine(x, y), zv);
    }

    method BeginVerification(curve: nat, ghost q: Point, ghost zv: int)
      requires curve < |curves| && curves[curve].Sound() && Constants(curves[curve]) && Residues(curves[curve].cv.p, q)
      requires Verify.HasInputs(c, curves[curve].fp, q, zv) && zv % curves[curve].cv.p != 0
      modifies this, c`stage, c`res
      ensures Valid() && curveId == curve && AimOf(job) == VerifyAim(q, c.messageThenKg, c.qr, c.qsThenPgX)
      ensures Phase() == Busy(VerifySignature, Calls(VerifySignature, curves[curve].bits))
    {
      hide Constants, Residues, SwCurve.Sound;
      c.stage, c.res := STAGE_VERIFY_INV_S, 1;
      operation := Some(VerifySignature);
      curveId := curve;
      job := Verification(Verify.Job(q, zv, c.messageThenKg, c.qr, c.qsThenPgX), Acc(0, 0, 0));
    }

    // ---- results ----

    /** The ends of the three finish functions for multiplications: the multiple, in the form that the function
        outputs it in. */
    method FinishMultiplication(op: Operation) returns (errors: set<Error>, output: (nat, nat))
      requires Valid() && IsMultiplication(op)
      modifies this, c
      ensures Valid() && Phase() == Api.Next(old(Phase()), Call.Finish(op)) && Zeroed(c)
      ensures errors == if old(operation) != Some(op) then {IncorrectOperation}
                        else if old(Phase()) != Busy(op, 0) then {NotFinished} else {}
      ensures errors == {} ==>
                && old(job).Multiplication? && old(curveId) < |curves|
                && var q := old(job).mult.base(old(job).mult.k0);
                   && q.Affine?
                   && output.0 == (if op == ComputePublicKey && q.x == 0 then curves[old(curveId)].cv.p else q.x)
                   && output.1 == (if op == SharedSecret then 0 else q.y)
    {
      hide Zeroed, Denotes, Multiples;
      output := (0, 0);
      errors := ErrorIf(IncorrectOperation, operation != Some(op));
      if errors == {} {
        errors := ErrorIf(NotFinished, c.stage != STAGE_DONE);
        if errors == {} {
          output := Coordinates(op);
        }
      }
      Clear();
    }

    /** The coordinates in (x1, y1); the shared secret is an x coordinate only. */
    method Coordinates(op: Operation) returns (output: (nat, nat))
      requires IsMultiplication(op) && operation == Some(op) && Running(op) && c.stage == STAGE_DONE
      modifies c`x1
      ensures var q := job.mult.base(job.mult.k0);
              && q.Affine?
              && output.0 == (if op == ComputePublicKey && q.x == 0 then curves[curveId].cv.p else q.x)
              && output.1 == (if op == SharedSecret then 0 else q.y)
    {
      ghost var m, sw := job.mult, curves[curveId];
      NegatedOutput(sw, m.pt(m.k), c.invK);
      SmallMod(m.k0, sw.cv.n);
      IsAffine(sw.cv, m.base, m.k0);
      MultipleCoordinates(sw, m.base, m.k0);
      if op == ComputePublicKey {
        output := (c.x1, c.y1);
      } else {
        c.x1 := ReduceFull(curves[curveId].fp, c.x1);
        output := (c.x1, if op == SharedSecret then 0 else c.y1);
      }
    }

    /** sb_sw_sign_message_digest_finish. */
    method FinishSigning() returns (errors: set<Error>, r: nat, s: nat)
      requires Valid()
      modifies this, c
      ensures Valid() && Phase() == Api.Next(old(Phase()), Call.Finish(SignDigest)) && Zeroed(c)
      ensures errors == if old(operation) != Some(SignDigest) then {IncorrectOperation}
                        else if old(Phase()) != Busy(SignDigest, 0) then {NotFinished} else {}
      ensures errors == {} ==>
                && old(job).Signature? && old(curveId) < |curves|
                && IsSignature(curves[old(curveId)], old(job).sign, old(c.signPrivate), old(c.signMessage), r, s)
    {
      hide Zeroed;
      r, s := 0, 0;
      errors := ErrorIf(IncorrectOperation, operation != Some(SignDigest));
      if errors == {} {
        errors := ErrorIf(NotFinished, c.stage != Sign.STAGE_SIGN_DONE);
        if errors == {} {
          r, s := c.x2, c.y2;
        }
      }
      Clear();
    }

    /** sb_sw_verify_signature_finish. */
    method FinishVerification() returns (errors: set<Error>)
      requires Valid()
      modifies this, c
      ensures Valid() && Phase() == Api.Next(old(Phase()), Call.Finish(VerifySignature)) && Zeroed(c)
      ensures errors == if old(operation) != Some(VerifySignature) then {IncorrectOperation}
                        else if old(Phase()) != Busy(VerifySignature, 0) then {NotFinished}
                        else if old(Accepting()) then {} else {SignatureInvalid}
    {
      hide Zeroed;
      errors := ErrorIf(IncorrectOperation, operation != Some(VerifySignature));
      if errors == {} {
        errors := ErrorIf(NotFinished, c.stage != STAGE_VERIFY_DONE);
        if errors == {} {
          errors := ErrorIf(SignatureInvalid, c.res == 0);
        }
      }
      Clear();
    }

    /** The verification in progress is one of a signature that is to be accepted. */
    ghost predicate Accepting()
      reads this
    {
      curveId < |curves| && IsAccepted(AimOf(job), curves[curveId])
    }
  }

  /** The verification that the aim describes accepts. */
  ghost predicate IsAccepted(aim: Aim, sw: SwCurve) {
    && aim.VerifyAim? && sw.cv.p >= 2 && sw.fn.m >= 2
    && Verify.Job(aim.q, 0, aim.msg, aim.r, aim.s).Accepted(sw)
  }

  lemma ValidResidues(cv: Curve, x: nat, y: nat)
    requires cv.p > 0 && ValidPoint(cv, x, y)
    ensures Residues(cv.p, Affine(x, y))
  {
  }

  lemma BaseFields(sw: SwCurve, base: int -> Point)
    requires Base(sw, base)
    ensures sw.Sound() && sw.fn.m == sw.cv.n >= 2 && sw.fp.m == sw.cv.p > 0 && base(1).Affine?
  {
  }

  /** Signing with the nonce of the aim reports a failure. */
  ghost predicate SignatureFails(aim: Aim, sw: SwCurve, private: nat, msg: nat) {
    aim.MultiplyAim? && Sign.SigningFails(sw, aim.base, aim.k0, private, msg)
  }

  /** (r, s) is what signing gives with nonce k0, and neither component is zero. */
  ghost predicate IsSignature(sw: SwCurve, m: MultJob, private: nat, msg: nat, r: nat, s: nat) {
    && sw.fp.m > 0 && sw.fn.m >= 2 && m.base(m.k0).Affine?
    && r == Sign.SignedR(sw, m.base(m.k0).x) && s == SignedS(sw.fn, private, m.k0, msg, r)
    && r != sw.fn.m && s != sw.fn.m
  }
}
