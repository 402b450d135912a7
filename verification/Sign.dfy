/** sb_sw_lib.c: resumable signing, composite signing, and the selection of scalars from candidates. */
module Sign {
  import opened Results
  import opened ModArith
  import opened Primes
  import opened QuasiField
  import opened Curve
  import opened CoZ
  import opened Scalars
  import opened PointMult
  import opened PointMultRun
  import opened MultAdd
  import opened Ecdsa
  import opened Verify

  /** The stage after point multiplication inverts the nonce. */
  const STAGE_SIGN_INV: nat := STAGE_DONE
  const STAGE_SIGN_DONE: nat := 3

  // ---- the final stage of signing ----

  /** The r component for an x coordinate that has been quasi-reduced modulo p. */
  ghost function SignedR(sw: SwCurve, x: int): nat
    requires sw.fp.m > 0 && sw.fn.m > 0
  {
    sw.fn.Qr(sw.fp.Qr(x))
  }

  /** The nonce is in k, its multiple of the generator in (x1, y1).  (r, s) is placed in (x2, y2). */
  method SignInv(c: Context, fn: Field) returns (err: bool)
    requires fn.Valid()
    modifies c`x2, c`y2, c`t5, c`t6, c`t7, c`stage
    ensures c.x2 == fn.Qr(c.x1) && c.y2 == SignedS(fn, c.signPrivate, c.k, c.signMessage, c.x2)
    ensures err <==> c.x2 == fn.m || c.y2 == fn.m
    ensures c.stage == STAGE_SIGN_DONE
  {
    c.x2 := c.x1;
    c.x2 := fn.ModReduce(c.x2);
    err := c.x2 == fn.m;
    MontConverted(fn, c.k);
    MontInverted(fn, c.k);
    c.t7 := fn.MontConvert(c.k);
    c.t7 := fn.MontInv(c.t7);
    MontConverted(fn, c.signPrivate);
    c.t6 := fn.MontConvert(c.signPrivate);
    MontMixed(fn, c.x2, c.signPrivate);
    c.t5 := fn.MontMul(c.x2, c.t6);
    CongAdd(c.t5, c.x2 * c.signPrivate, c.signMessage, c.signMessage, fn.m);
    c.t5 := fn.ModAdd(c.t5, c.signMessage);
    MixedReduced(fn, c.x2 * c.signPrivate + c.signMessage, Inv(c.k, fn.m));
    assert c.x2 * c.signPrivate + c.signMessage == c.signMessage + c.x2 * c.signPrivate;
    c.y2 := fn.MontMul(c.t5, c.t7);
    err := err || c.y2 == fn.m;
    c.stage := STAGE_SIGN_DONE;
  }

  // ---- a signature in progress ----

  /** How many calls of sb_sw_sign_continue are left. */
  function SignCallsLeft(stage: nat, i: nat): nat {
    if stage == STAGE_SIGN_DONE then 0
    else if stage == STAGE_SIGN_INV then 1
    else 1 + MultCallsLeft(stage, i)
  }

  /** The signature (r, s) of the private scalar and message in the registers, with nonce k0. */
  ghost predicate Signed(c: Context, sw: SwCurve, base: int -> Point, k0: nat)
    requires sw.fp.m > 0 && sw.fn.m >= 2
    reads c`x2, c`y2, c`signPrivate, c`signMessage
  {
    && base(k0).Affine? && c.x2 == SignedR(sw, base(k0).x)
    && c.y2 == SignedS(sw.fn, c.signPrivate, k0, c.signMessage, c.x2)
  }

  ghost predicate Signing(c: Context, sw: SwCurve, base: int -> Point, k0: nat, pt: int -> Point, k: nat, z: int)
    requires sw.fp.m > 0 && sw.fn.m >= 2 && sw.cv.p > 0 && sw.bits > 0 && pt(1).Affine?
    reads c`x1, c`y1, c`x2, c`y2, c`k, c`pointX, c`pointY, c`stage, c`i, c`invK, c`kOne, c`swap,
          c`signPrivate, c`signMessage
  {
    if c.stage == STAGE_SIGN_DONE then Signed(c, sw, base, k0)
    else InProgress(c, sw, pt, k, z) && Denotes(sw, base, k0, pt, k, c.invK)
  }

  /** Signing with nonce k reports a failure: a component is zero modulo n as represented. */
  ghost predicate SigningFails(sw: SwCurve, base: int -> Point, k: nat, private: nat, msg: nat) {
    && sw.fp.m > 0 && sw.fn.m >= 2 && base(k).Affine?
    && var r := SignedR(sw, base(k).x);
       r == sw.fn.m || SignedS(sw.fn, private, k, msg, r) == sw.fn.m
  }

  /** The stage that completes the signature. */
  method FinishSigning(c: Context, sw: SwCurve, ghost base: int -> Point, ghost k0: nat, ghost pt: int -> Point,
                       ghost k: nat)
    returns (err: bool)
    requires sw.Sound() && base(1).Affine? && base(1).x % sw.cv.p != 0
    requires Finished(c, sw, pt, k) && Denotes(sw, base, k0, pt, k, c.invK)
    modifies c`x2, c`y2, c`t5, c`t6, c`t7, c`stage
    ensures Signed(c, sw, base, k0) && (err <==> c.x2 == sw.fn.m || c.y2 == sw.fn.m)
    ensures err <==> SigningFails(sw, base, k0, c.signPrivate, c.signMessage)
    ensures c.stage == STAGE_SIGN_DONE
  {
    NegatedOutput(sw, pt(k), c.invK);
    err := SignInv(c, sw.fn);
  }

  /** The last call is the one of the stage that completes the signature. */
  lemma LastCall(stage: nat, i: nat)
    requires stage <= STAGE_SIGN_DONE
    ensures SignCallsLeft(stage, i) == 1 <==> stage == STAGE_SIGN_INV
  {
  }

  /** sb_sw_sign_continue.  A failure is reported together with done. */
  method SignContinue(c: Context, sw: SwCurve, ghost base: int -> Point, ghost k0: nat, ghost pt: int -> Point,
                      ghost k: nat, ghost z: int)
    returns (done: bool, err: bool, ghost z': int)
    requires Base(sw, pt) && base(1).Affine? && base(1).x % sw.cv.p != 0
    requires Signing(c, sw, base, k0, pt, k, z)
    modifies c`x1, c`y1, c`x2, c`y2, c`t5, c`t6, c`t7, c`t8, c`k, c`swap, c`i, c`stage
    ensures Signing(c, sw, base, k0, pt, k, z') && (done <==> c.stage == STAGE_SIGN_DONE)
    ensures done ==> old(c.stage) == STAGE_SIGN_INV || old(c.stage) == STAGE_SIGN_DONE
    ensures err <==> old(c.stage) == STAGE_SIGN_INV && (c.x2 == sw.fn.m || c.y2 == sw.fn.m)
    ensures err <==> old(SignCallsLeft(c.stage, c.i)) == 1 && SigningFails(sw, base, k0, c.signPrivate, c.signMessage)
    ensures SignCallsLeft(c.stage, c.i) ==
            if old(c.stage) == STAGE_SIGN_DONE then 0 else old(SignCallsLeft(c.stage, c.i)) - 1
    ensures old(c.stage) == STAGE_SIGN_DONE ==> unchanged(c)
  {
    hide Multiples, Denotes, SigningFails, Signed, SwCurve.Sound, Loaded, Position, Finished;
    LastCall(c.stage, c.i);
    z' := z;
    err := false;
    if c.stage == STAGE_SIGN_DONE {
      done := true;
    } else if c.stage == STAGE_SIGN_INV {
      err := FinishSigning(c, sw, base, k0, pt, k);
      done := true;
    } else {
      var multiplied;
      multiplied, z' := PointMultContinue(c, sw, pt, k, z);
      done := false;
    }
  }

  /** Start, and continue until done.  The nonce k0 is in k, the point registers hold the generator. */
  method SignDigest(c: Context, sw: SwCurve, ghost base: int -> Point, ghost zv: int) returns (err: bool, calls: nat)
    requires Base(sw, base) && c.pointX == sw.fp.Mont(base(1).x) && c.pointY == sw.fp.Mont(base(1).y)
    requires 1 <= c.k < sw.cv.n && c.z == sw.fp.Mont(zv) && zv % sw.cv.p != 0 && c.swap == 0
    modifies c`x1, c`y1, c`x2, c`y2, c`t5, c`t6, c`t7, c`t8, c`k, c`swap, c`i, c`stage, c`pointX, c`pointY,
             c`invK, c`kOne
    ensures Signed(c, sw, base, old(c.k)) && (err <==> c.x2 == sw.fn.m || c.y2 == sw.fn.m)
    ensures calls == 2 + Slices(sw.bits - 1)
  {
    ghost var k0 := c.k;
    ghost var pt, k, z := PointMultStart(c, sw, base, k0, zv);
    var done := false;
    err := false;
    calls := 0;
    while !done
      invariant Signing(c, sw, base, k0, pt, k, z) && (done <==> c.stage == STAGE_SIGN_DONE)
      invariant err <==> done && (c.x2 == sw.fn.m || c.y2 == sw.fn.m)
      invariant calls + SignCallsLeft(c.stage, c.i) == 2 + Slices(sw.bits - 1)
      decreases SignCallsLeft(c.stage, c.i)
    {
      done, err, z := SignContinue(c, sw, base, k0, pt, k, z);
      calls := calls + 1;
    }
  }

  // ---- what a signature is worth ----

  /** The r component is reported as a failure exactly for a nonzero x coordinate that is zero modulo n. */
  lemma FailsOnR(sw: SwCurve, x: int)
    requires sw.Sound() && 0 <= x < sw.cv.p
    ensures SignedR(sw, x) == sw.cv.n <==> x != 0 && x % sw.cv.n == 0
    ensures x % sw.cv.n != 0 ==> SignedR(sw, x) == x % sw.cv.n
    ensures x == 0 ==> SignedR(sw, x) == sw.cv.p - sw.cv.n
  {
    var n, p := sw.cv.n, sw.cv.p;
    SmallMod(x, p);
    SmallMod(0, n);
    DivModUnique(p, 1, p - n, n);
  }

  /** A signature of the reduced message is one of the message. */
  lemma ReducedMessage(fn: Field, d: int, k: int, msg: int, r: int)
    requires fn.m >= 2
    ensures Cong(SignedS(fn, d, k, fn.Qr(msg), r), (msg + r * d) * Inv(k, fn.m), fn.m)
  {
    CongAdd(fn.Qr(msg), msg, r * d, r * d, fn.m);
    CongMul(fn.Qr(msg) + r * d, msg + r * d, Inv(k, fn.m), Inv(k, fn.m), fn.m);
  }

  /** Signing in numbers: r is x modulo n, or p - n for x = 0, and s k = msg + r d modulo n.  It is reported as a
      failure exactly if x is not zero but zero modulo n, or msg + r d is zero modulo n. */
  lemma SigningMeans(sw: SwCurve, d: int, k: nat, x: int, msg: int)
    requires sw.Sound() && 1 <= k < sw.cv.n && 0 <= x < sw.cv.p
    ensures var n := sw.cv.n;
            var r := SignedR(sw, x);
            var s := SignedS(sw.fn, d, k, sw.fn.Qr(msg), r);
            var r' := if x == 0 then sw.cv.p - n else x % n;
            && (r == n || s == n <==> (x != 0 && x % n == 0) || (msg + r' * d) % n == 0)
            && (r != n && s != n ==> r == r' && 1 <= r < n && 1 <= s < n && Cong(s * k, msg + r * d, n))
  {
    hide SignedR, SignedS, Field.Qr, SwCurve.Sound;
    SoundFields(sw);
    var n, r := sw.cv.n, SignedR(sw, x);
    RComponentBound(sw, x);
    FailsOnR(sw, x);
    SmallMod(k, n);
    SignedMeans(sw.fn, d, k, sw.fn.Qr(msg), r);
    CongAdd(sw.fn.Qr(msg), msg, r * d, r * d, n);
  }

  lemma SoundFields(sw: SwCurve)
    requires sw.Sound()
    ensures sw.fn.Valid() && sw.fn.m == sw.cv.n && sw.fp.m == sw.cv.p > 0
  {
  }

  lemma RComponentBound(sw: SwCurve, x: int)
    requires sw.Sound()
    ensures 1 <= SignedR(sw, x) <= sw.cv.n
  {
  }

  /** A signature that is not reported as a failure verifies, unless the nonce gives a point with x = 0: that
      case is not detected, and what it produces is not a signature. */
  lemma SignatureOutcome(sw: SwCurve, base: int -> Point, d: int, k: nat, msg: int)
    requires sw.Sound() && Multiples(sw.cv, base) && 1 <= k < sw.cv.n
    ensures base(k).Affine?
    ensures var r := SignedR(sw, base(k).x);
            var s := SignedS(sw.fn, d, k, sw.fn.Qr(msg), r);
            r != sw.cv.n && s != sw.cv.n ==> (Verifies(sw.cv, base, d, msg, r, s) <==> base(k).x != 0)
  {
    SmallMod(k, sw.cv.n);
    IsAffine(sw.cv, base, k);
    var x := base(k).x;
    var r := SignedR(sw, x);
    var s := SignedS(sw.fn, d, k, sw.fn.Qr(msg), r);
    if r != sw.cv.n && s != sw.cv.n {
      FailsOnR(sw, x);
      SmallMod(0, sw.cv.n);
      ReducedMessage(sw.fn, d, k, msg, r);
      SignatureVerifies(sw.cv, base, d, k, msg, r, s);
    }
  }

  /** Sign a message, and verify the signature with another context.  Unless the public key is H, -H, G - H or
      -G - H, the verification accepts exactly if signing succeeded, the nonce did not give a point with x = 0, the
      message is not zero modulo n, and no addition is exceptional. */
  method SignThenVerify(c: Context, v: Context, sw: SwCurve, msg: nat, ghost base: int -> Point, ghost d: int,
                        ghost h: int, ghost zv: int, ghost zv2: int)
    returns (err: bool, accepted: bool)
    requires c != v && Base(sw, base) && Masked(sw, base, h)
    requires c.pointX == sw.fp.Mont(base(1).x) && c.pointY == sw.fp.Mont(base(1).y)
    requires 1 <= c.k < sw.cv.n && c.z == sw.fp.Mont(zv) && zv % sw.cv.p != 0 && c.swap == 0
    requires c.signPrivate == d && c.signMessage == sw.fn.Qr(msg)
    requires HasInputs(v, sw.fp, base(d), zv2) && zv2 % sw.cv.p != 0
    modifies c, v
    ensures base(old(c.k)).Affine?
    ensures err <==> c.x2 == sw.cv.n || c.y2 == sw.cv.n
    ensures accepted <==> !err && Job(base(d), zv2, msg, c.x2, c.y2).Accepted(sw)
    ensures TableSafe(sw, base(d)) ==>
              (accepted <==> !err && base(old(c.k)).x != 0 && msg % sw.cv.n != 0
                             && NonExceptional(sw, d, h, msg, c.x2, c.y2))
  {
    hide Multiples, Masked, Job.Accepted, NonExceptional, Verifies, TableSafe;
    ghost var k := c.k;
    SignatureOutcome(sw, base, d, k, msg);
    var calls;
    err, calls := SignDigest(c, sw, base, zv);
    accepted := false;
    if !err {
      v.qr, v.qsThenPgX, v.messageThenKg := c.x2, c.y2, msg;
      calls := VerifySignature(v, sw, base, d, h, zv2);
      accepted := v.res == 1;
    }
  }

  // ---- composite signing ----

  /** sb_sw_invert_field_element: the scalar in z is inverted under the blinding factor in k. */
  method InvertFieldElement(c: Context, fn: Field)
    requires fn.Valid() && c.k % fn.m != 0
    modifies c`x1, c`y1, c`t5, c`t6
    ensures c.t6 == fn.Mont(Inv(c.z, fn.m))
  {
    MontConverted(fn, c.k);
    c.x1 := fn.MontConvert(c.k);
    MontConverted(fn, c.z);
    c.y1 := fn.MontConvert(c.z);
    MontTimes(fn, c.k, c.z);
    c.t5 := fn.MontMul(c.x1, c.y1);
    MontInverted(fn, c.k * c.z);
    c.t5 := fn.MontInv(c.t5);
    MontTimes(fn, Inv(c.k * c.z, fn.m), c.k);
    c.t6 := fn.MontMul(c.t5, c.x1);
    Unblind(fn, c.k, c.z);
  }

  /** The blinding factor cancels. */
  lemma Unblind(fn: Field, b: int, d: int)
    requires fn.Valid() && b % fn.m != 0
    ensures fn.Mont(Inv(b * d, fn.m) * b) == fn.Mont(Inv(d, fn.m))
  {
    var i := Inv(b * d, fn.m);
    if d % fn.m == 0 {
      SmallMod(0, fn.m);
      CongMul(b, b, d, 0, fn.m);
      InvZero(b * d, fn.m);
      InvZero(d, fn.m);
      ZeroTimes(i, b);
    } else {
      if (b * d) % fn.m == 0 {
        PrimeDividesProduct(b, d, fn.m);
      }
      InvCorrect(b * d, fn.m);
      assert i * b * d == i * (b * d);
      InvUnique(d, i * b, fn.m);
      MontEqual(fn, i * b, Inv(d, fn.m));
    }
  }

  /** The output of sb_sw_invert_private_key. */
  method InvertPrivateKey(c: Context, fn: Field) returns (inverse: nat)
    requires fn.Valid() && c.k % fn.m != 0 && 1 <= c.z < fn.m
    modifies c`x1, c`y1, c`t5, c`t6
    ensures 1 <= inverse < fn.m && Cong(inverse * c.z, 1, fn.m)
  {
    SmallMod(c.z, fn.m);
    InvCorrect(c.z, fn.m);
    InvertFieldElement(c, fn);
    MontReduced(fn, Inv(c.z, fn.m));
    c.t5 := fn.MontReduce(c.t6);
    inverse := c.t5;
    CongMul(inverse, Inv(c.z, fn.m), c.z, c.z, fn.m);
  }

  /** sb_sw_composite_sign_wrap_message_digest, after the blinding factor in k has been selected. */
  method WrapDigest(c: Context, fn: Field, msg: nat, private: nat) returns (wrapped: Result<nat>)
    requires fn.Valid() && c.k % fn.m != 0
    modifies c`x1, c`y1, c`t5, c`t6, c`t7, c`z
    ensures wrapped == if 1 <= private < fn.m then Ok(fn.Qr(msg * Inv(private, fn.m))) else Failure({PrivateKeyInvalid})
  {
    var valid;
    valid, c.z := ScalarValidate(fn, private);
    if valid == 0 {
      return Failure({PrivateKeyInvalid});
    }
    QrFixed(fn, private);
    InvertFieldElement(c, fn);
    c.t5 := fn.ModReduce(msg);
    MixedReduced(fn, msg, Inv(private, fn.m));
    MontMixed(fn, c.t5, Inv(private, fn.m));
    c.t7 := fn.MontMul(c.t6, c.t5);
    wrapped := Ok(c.t7);
  }

  /** sb_sw_composite_sign_unwrap_signature. */
  method UnwrapSignature(c: Context, fn: Field, r: nat, s: nat, private: nat) returns (unwrapped: Result<(nat, nat)>)
    requires fn.Valid()
    modifies c`y1, c`t5, c`z, c`qr, c`qsThenPgX
    ensures unwrapped ==
            if 1 <= private < fn.m && 1 <= r < fn.m && 1 <= s < fn.m then Ok((r, fn.Qr(s * private)))
            else Failure(ErrorIf(PrivateKeyInvalid, !(1 <= private < fn.m))
                         + ErrorIf(SignatureInvalid, !(1 <= r < fn.m && 1 <= s < fn.m)))
  {
    var validKey, validR, validS;
    validKey, c.z := ScalarValidate(fn, private);
    validR, c.qr := ScalarValidate(fn, r);
    validS, c.qsThenPgX := ScalarValidate(fn, s);
    var errors := ErrorIf(PrivateKeyInvalid, validKey == 0)
                  + (ErrorIf(SignatureInvalid, validR == 0) + ErrorIf(SignatureInvalid, validS == 0));
    if errors != {} {
      return Failure(errors);
    }
    assert validKey == 1 && validR == 1 && validS == 1 by {
      assert PrivateKeyInvalid !in errors && SignatureInvalid !in errors;
    }
    QrFixed(fn, private);
    QrFixed(fn, r);
    QrFixed(fn, s);
    MontConverted(fn, c.z);
    c.y1 := fn.MontConvert(c.z);
    MontMixed(fn, s, private);
    c.t5 := fn.MontMul(c.y1, c.qsThenPgX);
    unwrapped := Ok((c.qr, c.t5));
  }

  /** Wrapping a digest with d, signing it with sk, and unwrapping with d gives the s component that signing
      the digest with the product of the keys gives; neither fails unless the other does. */
  lemma CompositeSigns(fn: Field, d: nat, sk: nat, k: nat, msg: nat, r: nat)
    requires fn.Valid() && 1 <= d < fn.m
    ensures var wrapped := fn.Qr(msg * Inv(d, fn.m));
            var s := SignedS(fn, sk, k, fn.Qr(wrapped), r);
            && fn.Qr(s * d) == SignedS(fn, fn.Qr(d * sk), k, fn.Qr(msg), r)
            && (s == fn.m <==> SignedS(fn, fn.Qr(d * sk), k, fn.Qr(msg), r) == fn.m)
  {
    var n, i := fn.m, Inv(k, fn.m);
    var wrapped := fn.Qr(msg * Inv(d, n));
    var s := SignedS(fn, sk, k, fn.Qr(wrapped), r);
    SmallMod(d, n);
    InvCorrect(d, n);
    QrFixed(fn, wrapped);
    Unwrapped(n, wrapped, msg, Inv(d, n), d, r, sk, i);
    CongMul(s, (wrapped + r * sk) * i, d, d, n);
    JointKey(fn, d, sk, msg, r, i);
    if s % n == 0 {
      SmallMod(0, n);
      CongMul(s, 0, d, d, n);
      ZeroTimes(0, d);
    }
    if (s * d) % n == 0 {
      PrimeDividesProduct(s, d, n);
    }
  }

  /** The generator, a nonce and a random Z are in place. */
  ghost predicate ReadyToSign(c: Context, sw: SwCurve, base: int -> Point, k: nat, zv: int)
    requires sw.fp.m > 0 && sw.cv.p > 0 && base(1).Affine?
    reads c`pointX, c`pointY, c`k, c`z, c`swap
  {
    && c.pointX == sw.fp.Mont(base(1).x) && c.pointY == sw.fp.Mont(base(1).y) && c.swap == 0
    && c.k == k && 1 <= k < sw.cv.n && c.z == sw.fp.Mont(zv) && zv % sw.cv.p != 0
  }

  lemma ScalarField(sw: SwCurve, base: int -> Point)
    requires Base(sw, base)
    ensures sw.fn.Valid() && sw.fn.m == sw.cv.n > 2 && sw.fp.m > 0
  {
  }

  /** A whole run of signing: the signature, or the failure. */
  method RunSigning(c: Context, sw: SwCurve, private: nat, msg: nat, ghost base: int -> Point, ghost k: nat,
                    ghost zv: int)
    returns (signature: Result<(nat, nat)>)
    requires Base(sw, base) && ReadyToSign(c, sw, base, k, zv)
    modifies c
    ensures base(k).Affine?
    ensures var r := SignedR(sw, base(k).x);
            var s := SignedS(sw.fn, private, k, sw.fn.Qr(msg), r);
            signature == if r == sw.fn.m || s == sw.fn.m then Failure({DrbgFailure}) else Ok((r, s))
    ensures signature.Ok? ==> 1 <= signature.value.0 < sw.fn.m && 1 <= signature.value.1 < sw.fn.m
  {
    hide Multiples;
    c.signPrivate, c.signMessage := private, sw.fn.ModReduce(msg);
    var err, calls := SignDigest(c, sw, base, zv);
    signature := if err then Failure({DrbgFailure}) else Ok((c.x2, c.y2));
  }

  /** Composite signing, run side by side with direct signing: the digest is wrapped with d, signed with sk on
      another context, and the signature unwrapped with d; on a third context it is signed with the product of
      the keys and the same nonce.  The results are the same, failures included. */
  method CompositeRun(w: Context, c: Context, v: Context, sw: SwCurve, d: nat, sk: nat, msg: nat,
                      ghost base: int -> Point, ghost k: nat, ghost zv: int, ghost zv2: int)
    returns (composite: Result<(nat, nat)>, direct: Result<(nat, nat)>)
    requires w != c && w != v && c != v && Base(sw, base) && w.k % sw.cv.n != 0 && 1 <= d < sw.cv.n
    requires ReadyToSign(c, sw, base, k, zv) && ReadyToSign(v, sw, base, k, zv2)
    modifies w, c, v
    ensures composite == direct
    ensures base(k).Affine?
    ensures var r := SignedR(sw, base(k).x);
            var s := SignedS(sw.fn, sw.fn.Qr(d * sk), k, sw.fn.Qr(msg), r);
            direct == if r == sw.fn.m || s == sw.fn.m then Failure({DrbgFailure}) else Ok((r, s))
  {
    hide Base, ReadyToSign, Multiples, SignedR, SignedS, Field.Valid, SwCurve.Sound;
    ScalarField(sw, base);
    var wrapped := WrapDigest(w, sw.fn, msg, d);
    composite := RunSigning(c, sw, sk, wrapped.value, base, k, zv);
    CompositeSigns(sw.fn, d, sk, k, msg, SignedR(sw, base(k).x));
    if composite.Ok? {
      composite := UnwrapSignature(w, sw.fn, composite.value.0, composite.value.1, d);
    }
    direct := RunSigning(v, sw, sw.fn.Qr(d * sk), msg, base, k, zv2);
  }

  lemma Unwrapped(n: nat, wrapped: int, msg: int, id: int, d: int, r: int, sk: int, i: int)
    requires n > 0 && Cong(wrapped, msg * id, n) && Cong(id * d, 1, n)
    ensures Cong((wrapped + r * sk) * i * d, (msg + r * (d * sk)) * i, n)
  {
    CongMul(wrapped, msg * id, d, d, n);
    assert msg * id * d == msg * (id * d);
    CongMul(msg, msg, id * d, 1, n);
    CongAdd(wrapped * d, msg, r * (d * sk), r * (d * sk), n);
    CongMul(wrapped * d + r * (d * sk), msg + r * (d * sk), i, i, n);
    MoveFactor(wrapped, r, sk, d, i);
  }

  lemma MoveFactor(wrapped: int, r: int, sk: int, d: int, i: int)
    ensures (wrapped + r * sk) * i * d == (wrapped * d + r * (d * sk)) * i
  {
    var t := wrapped + r * sk;
    assert t * i * d == (t * d) * i;
    assert t * d == wrapped * d + r * sk * d;
    assert r * sk * d == r * (d * sk);
  }

  lemma JointKey(fn: Field, d: int, sk: int, msg: int, r: int, i: int)
    requires fn.m > 0
    ensures Cong((fn.Qr(msg) + r * fn.Qr(d * sk)) * i, (msg + r * (d * sk)) * i, fn.m)
  {
    CongMul(r, r, fn.Qr(d * sk), d * sk, fn.m);
    CongAdd(fn.Qr(msg), msg, r * fn.Qr(d * sk), r * (d * sk), fn.m);
    CongMul(fn.Qr(msg) + r * fn.Qr(d * sk), msg + r * (d * sk), i, i, fn.m);
  }

  // ---- the selection of scalars from candidates ----

  const CANDIDATES: nat := 4

  /** The scalar that a candidate stands for: one is added, wrapping around, unless for RFC 6979. */
  function Candidate(v: nat, fips: bool, radix: nat): nat
    requires radix > 0
  {
    if fips then (v + 1) % radix else v
  }

  lemma CandidateMeans(v: nat, fips: bool, radix: nat, n: nat)
    requires 0 < n <= radix && v < radix
    ensures var k := Candidate(v, fips, radix);
            && (1 <= k < n <==> if fips then v + 1 < n else 1 <= v < n)
            && (1 <= k < n ==> k == if fips then v + 1 else v)
  {
    if v + 1 < radix {
      SmallMod(v + 1, radix);
    } else {
      MultipleMod(1, radix);
    }
  }

  /** The body of the loop: validate the scalar in k, and swap in the next one if it is not valid. */
  method NextCandidate(c: Context, fn: Field, next: nat)
    requires fn.m > 0
    modifies c`k, c`z
    ensures c.k == if 1 <= old(c.k) < fn.m then old(c.k) else next
  {
    if 1 <= c.k < fn.m {
      QrFixed(fn, c.k);
    }
    var valid;
    valid, c.k := ScalarValidate(fn, c.k);
    c.z := next;
    if valid == 0 {
      c.k, c.z := c.z, c.k;
    }
  }

  /** sb_sw_k_from_buf on four field elements: every candidate but the last is replaced by the next one if it is not
      valid.  With the increment of FIPS 186 the scalar is one more than the first candidate for which that is below n;
      without it, the first candidate in range.  There is a failure exactly if there is none. */
  method KFromBuf(c: Context, fn: Field, buf: seq<nat>, fips: bool) returns (errors: set<Error>)
    requires 0 < fn.m <= fn.radix && |buf| == CANDIDATES && forall i :: 0 <= i < |buf| ==> buf[i] < fn.radix
    modifies c`k, c`z
    ensures errors == {} || errors == {DrbgFailure}
    ensures fips && errors == {} ==>
              exists j :: 0 <= j < 4 && c.k == buf[j] + 1 < fn.m && forall i :: 0 <= i < j ==> buf[i] + 1 >= fn.m
    ensures fips ==> (errors != {} <==> forall i :: 0 <= i < 4 ==> buf[i] + 1 >= fn.m)
    ensures !fips && errors == {} ==>
              exists j :: 0 <= j < 4 && 1 <= c.k == buf[j] < fn.m
                          && forall i :: 0 <= i < j ==> !(1 <= buf[i] < fn.m)
    ensures !fips ==> (errors != {} <==> forall i :: 0 <= i < 4 ==> !(1 <= buf[i] < fn.m))
  {
    hide Candidate;
    c.k := Candidate(buf[0], fips, fn.radix);
    CandidateMeans(buf[0], fips, fn.radix, fn.m);
    ghost var j := 0;
    var i := 1;
    while i < CANDIDATES
      invariant 1 <= i <= CANDIDATES && 0 <= j < i
      invariant c.k == Candidate(buf[j], fips, fn.radix) && (1 <= c.k < fn.m || j == i - 1)
      invariant forall l :: 0 <= l < j ==> !(if fips then buf[l] + 1 < fn.m else 1 <= buf[l] < fn.m)
    {
      CandidateMeans(buf[j], fips, fn.radix, fn.m);
      if !(1 <= c.k < fn.m) {
        j := i;
      }
      NextCandidate(c, fn, Candidate(buf[i], fips, fn.radix));
      i := i + 1;
    }
    CandidateMeans(buf[j], fips, fn.radix, fn.m);
    if 1 <= c.k < fn.m {
      QrFixed(fn, c.k);
    }
    var valid;
    valid, c.k := ScalarValidate(fn, c.k);
    errors := ErrorIf(DrbgFailure, valid == 0);
  }
}
