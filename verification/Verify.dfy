/** sb_sw_lib.c: signature verification, resumable. */
module Verify {
  import opened ModArith
  import opened Primes
  import opened QuasiField
  import opened Curve
  import opened CoZ
  import opened Scalars
  import opened PointMult
  import opened MultAdd
  import opened Ecdsa

  // ---- the stage that inverts s ----

  /** A scalar is valid if it is reduced and not zero; either way it ends quasi-reduced.  The range comparison
      precedes the reduction and the comparison with n follows it. */
  method ScalarValidate(fn: Field, k: nat) returns (valid: nat, reduced: nat)
    requires fn.m > 0
    ensures valid == (if 1 <= k < fn.m then 1 else 0) && reduced == fn.Qr(k)
  {
    var r := Flag(k < fn.m);
    reduced := fn.ModReduce(k);
    if k < fn.m {
      SmallMod(k, fn.m);
    }
    valid := if r == 1 && reduced != fn.m then 1 else 0;
  }

  /** Inverting a quasi-reduced value inverts the value. */
  lemma InvertsReduced(f: Field, s: int)
    requires f.Valid()
    ensures f.MontInv(f.MontConvert(f.Qr(s))) == f.Mont(Inv(s, f.m))
  {
    MontConverted(f, f.Qr(s));
    MontEqual(f, f.Qr(s), s);
    MontInverted(f, s);
  }

  lemma MixedReduced(f: Field, v: int, w: int)
    requires f.Valid()
    ensures f.MontMul(f.Qr(v), f.Mont(w)) == f.Qr(v * w)
  {
    MontMixed(f, f.Qr(v), w);
    CongMul(f.Qr(v), v, w, w, f.m);
  }

  /** Validation of r, s and the message, and the two scalars. */
  method InvSStage(c: Context, fn: Field)
    requires fn.Valid() && c.res <= 1
    modifies c`res, c`qr, c`qsThenPgX, c`messageThenKg, c`t5, c`t6, c`k, c`stage
    ensures c.res <= 1
    ensures c.res == 1 <==> && old(c.res) == 1 && 1 <= old(c.qr) < fn.m && 1 <= old(c.qsThenPgX) < fn.m
                            && old(c.messageThenKg) % fn.m != 0
    ensures c.qr == fn.Qr(old(c.qr))
    ensures c.messageThenKg == fn.Qr(old(c.messageThenKg) * Inv(old(c.qsThenPgX), fn.m))
    ensures c.k == fn.Qr(old(c.qr) * Inv(old(c.qsThenPgX), fn.m))
    ensures c.stage == STAGE_VERIFY_INV_Z
  {
    ghost var msg, r, s := c.messageThenKg, c.qr, c.qsThenPgX;
    var validR, validS;
    validR, c.qr := ScalarValidate(fn, c.qr);
    validS, c.qsThenPgX := ScalarValidate(fn, c.qsThenPgX);
    c.messageThenKg := fn.ModReduce(c.messageThenKg);
    c.res := Flag(c.res == 1 && validR == 1 && validS == 1 && c.messageThenKg != fn.m);
    InvertsReduced(fn, s);
    c.t5 := fn.MontInv(fn.MontConvert(c.qsThenPgX));
    c.t6 := c.messageThenKg;
    MixedReduced(fn, msg, Inv(s, fn.m));
    c.messageThenKg := fn.MontMul(c.t6, c.t5);
    MixedReduced(fn, r, Inv(s, fn.m));
    c.k := fn.MontMul(c.qr, c.t5);
    c.stage := STAGE_VERIFY_INV_Z;
  }

  // ---- the comparison of x modulo n with r, without x ----

  /** r Z^2 is compared with X = x Z^2 without inverting Z. */
  lemma ScaledComparison(f: Field, x: int, r: int, z: int)
    requires f.Valid() && 0 <= x < f.m && z % f.m != 0
    ensures f.MontMul(f.Qr(r), f.Mont(z * z)) == f.Qr(x * (z * z)) <==> Cong(r, x, f.m)
  {
    MixedReduced(f, r, z * z);
    if z * z % f.m == 0 {
      PrimeDividesProduct(z, z, f.m);
    }
    if Cong(r, x, f.m) {
      CongMul(r, x, z * z, z * z, f.m);
    }
    if Cong(r * (z * z), x * (z * z), f.m) {
      CancelFactor(r, x, z * z, f.m);
    }
  }

  /** The two comparisons accept exactly if x modulo n is r. */
  lemma Accepts(f: Field, n: nat, x: int, r: nat, z: int)
    requires f.Valid() && n < f.m < 2 * n && 1 <= r < n && 0 <= x < f.m && z % f.m != 0
    ensures var t6, x1 := f.Mont(z * z), f.Qr(x * (z * z));
            x % n == r <==> f.MontMul(r, t6) == x1 || (r < f.m - n && f.MontMul(f.ModAdd(r, n), t6) == x1)
  {
    QrFixed(f, r);
    ScaledComparison(f, x, r, z);
    ScaledComparison(f, x, r + n, z);
    SmallMod(r, f.m);
    SmallMod(x, f.m);
    if r < f.m - n {
      SmallMod(r + n, f.m);
    }
    CandidateX(x, r, n, f.m);
  }

  /** After an exceptional addition, if any comparison holds then both coordinates are zero. */
  lemma Rejects(f: Field, x: int, y: int, z: int, r: nat)
    requires f.Valid() && z % f.m == 0 && Cusp(f.m, x, y)
    ensures f.MontMul(r, f.Mont(z * z)) == f.Qr(x) ==> f.Qr(x) == f.m && f.Qr(y) == f.m
  {
    MontMixed(f, r, z * z);
    SmallMod(0, f.m);
    CongMul(z, 0, z, z, f.m);
    CongMul(z * z, 0, r, r, f.m);
    assert r * (z * z) == z * z * r;
    if f.Qr(r * (z * z)) == f.Qr(x) {
      CongMul(x, 0, x * x, x * x, f.m);
      ZeroTimes(0, x * x);
      PrimeDividesProduct(y, y, f.m);
    }
  }

  /** The final stage. */
  method TestStage(c: Context, f: Field, n: nat, ghost x: int, ghost y: int, ghost z: int)
    requires f.Valid() && n < f.m < 2 * n && c.res <= 1
    requires c.x1 == f.Qr(x) && c.y1 == f.Qr(y) && c.z == f.Mont(z)
    modifies c`res, c`t5, c`t6, c`t7, c`stage
    ensures c.stage == STAGE_VERIFY_DONE && c.res <= 1
    ensures c.res == 1 <==>
              && old(c.res) == 1 && !(f.Qr(x) == f.m && f.Qr(y) == f.m)
              && (f.MontMul(c.qr, f.Mont(z * z)) == f.Qr(x)
                  || (c.qr < f.m - n && f.MontMul(f.ModAdd(c.qr, n), f.Mont(z * z)) == f.Qr(x)))
  {
    c.res := Flag(c.res == 1 && !(c.x1 == f.m && c.y1 == f.m));
    MontTimes(f, z, z);
    c.t6 := f.MontSquare(c.z);
    c.t7 := f.MontMul(c.qr, c.t6);
    var ver := c.t7 == c.x1;
    c.t5 := f.ModAdd(c.qr, n);
    c.t7 := f.MontMul(c.t5, c.t6);
    c.t5 := f.m - n;
    ver := ver || (c.qr < c.t5 && c.t7 == c.x1);
    c.res := Flag(c.res == 1 && ver);
    c.stage := STAGE_VERIFY_DONE;
  }

  /** What the final stage decides: it rejects whatever came out of an exceptional addition, and otherwise
      accepts exactly if x modulo n is r. */
  lemma Decision(sw: SwCurve, was: Scan, acc: Acc, r: nat)
    requires sw.Sound() && AccIs(sw.cv.p, was, acc) && 1 <= r < sw.cv.n
    ensures var f := sw.fp;
            (was.ok && was.q.Affine? && was.q.x % sw.cv.n == r) <==>
            !(f.Qr(acc.x) == f.m && f.Qr(acc.y) == f.m)
            && (f.MontMul(r, f.Mont(acc.z * acc.z)) == f.Qr(acc.x)
                || (r < f.m - sw.cv.n && f.MontMul(f.ModAdd(r, sw.cv.n), f.Mont(acc.z * acc.z)) == f.Qr(acc.x)))
  {
    if was.ok {
      Accepts(sw.fp, sw.cv.n, was.q.x, r, acc.z);
      SmallMod(0, sw.cv.n);
      if was.q.x != 0 {
        NonzeroX(sw.cv.p, was.q.x, acc.z);
      }
    } else {
      Rejects(sw.fp, acc.x, acc.y, acc.z, r);
      Rejects(sw.fp, acc.x, acc.y, acc.z, sw.fp.ModAdd(r, sw.cv.n));
    }
  }

  /** A nonzero x coordinate stays nonzero at every Z. */
  lemma NonzeroX(p: nat, x: int, z: int)
    requires IsPrime(p) && 0 < x < p && z % p != 0
    ensures (x * (z * z)) % p != 0
  {
    hide IsPrime;
    var w := z * z;
    SmallMod(x, p);
    if w % p == 0 {
      PrimeDividesProduct(z, z, p);
    }
    if (x * w) % p == 0 {
      PrimeDividesProduct(x, w, p);
    }
  }

  // ---- a verification in progress ----

  /** The public key q, the random Z, and the message and signature. */
  datatype Job = Job(q: Point, zv: int, msg: nat, r: nat, s: nat) {
    ghost predicate WellFormed(n: nat)
      requires n > 0
    {
      1 <= r < n && 1 <= s < n && msg % n != 0
    }

    /** The scalar of the public key. */
    ghost function Kp(fn: Field): nat
      requires fn.m >= 2
    {
      fn.Qr(r * Inv(s, fn.m))
    }

    /** The scalar of G, before one is subtracted. */
    ghost function Kg(fn: Field): nat
      requires fn.m >= 2
    {
      fn.Qr(msg * Inv(s, fn.m))
    }

    ghost predicate Sound(sw: SwCurve)
      requires sw.cv.p > 0
    {
      Constants(sw) && Residues(sw.cv.p, q) && zv % sw.cv.p != 0
    }

    /** What the loop holds when rem bits remain. */
    ghost function At(sw: SwCurve, rem: nat): Scan
      requires sw.cv.p >= 2 && sw.fn.m >= 2
    {
      Run(sw, Kp(sw.fn), Kg(sw.fn) - 1, TableH(sw, q), TableGH(sw, q), rem)
    }

    /** What the verification decides. */
    ghost predicate Accepted(sw: SwCurve)
      requires sw.cv.p >= 2 && sw.fn.m >= 2
    {
      WellFormed(sw.fn.m) && At(sw, 0).ok && At(sw, 0).q.Affine? && At(sw, 0).q.x % sw.fn.m == r
    }
  }

  /** The public key and the random Z are in place. */
  ghost predicate HasInputs(c: Context, f: Field, q: Point, zv: int)
    requires f.m > 0
    reads c`pointX, c`pointY, c`z
  {
    q.Affine? && c.pointX == f.Qr(q.x) && c.pointY == f.Qr(q.y) && c.z == f.Mont(zv)
  }

  ghost predicate AtInvS(c: Context, sw: SwCurve, job: Job)
    requires sw.fp.m > 0
    reads c`pointX, c`pointY, c`z, c`messageThenKg, c`qr, c`qsThenPgX, c`res
  {
    && HasInputs(c, sw.fp, job.q, job.zv)
    && c.messageThenKg == job.msg && c.qr == job.r && c.qsThenPgX == job.s && c.res == 1
  }

  /** The scalars and the signature component have been derived; kg is the scalar of G. */
  ghost predicate Derived(c: Context, fn: Field, job: Job, kg: nat)
    requires fn.m >= 2
    reads c`qr, c`k, c`messageThenKg, c`res
  {
    c.qr == fn.Qr(job.r) && c.k == job.Kp(fn) && c.messageThenKg == kg && c.res == Flag(job.WellFormed(fn.m))
  }

  ghost predicate AtInvZ(c: Context, sw: SwCurve, job: Job)
    requires sw.fp.m > 0 && sw.fn.m >= 2
    reads c`pointX, c`pointY, c`z, c`qr, c`k, c`messageThenKg, c`res
  {
    HasInputs(c, sw.fp, job.q, job.zv) && Derived(c, sw.fn, job, job.Kg(sw.fn))
  }

  ghost predicate AtLadder(c: Context, sw: SwCurve, job: Job, acc: Acc)
    requires sw.fp.m > 0 && sw.fn.m >= 2 && sw.cv.p >= 2
    reads c`x1, c`y1, c`z, c`k, c`pointX, c`pointY, c`messageThenKg, c`qr, c`qsThenPgX, c`pgY, c`res, c`i
  {
    && Derived(c, sw.fn, job, job.Kg(sw.fn) - 1)
    && Table(c, sw.fp, TableH(sw, job.q), TableGH(sw, job.q))
    && HoldAcc(c, sw.fp, acc) && AccIs(sw.cv.p, job.At(sw, Remaining(c.i, sw.bits)), acc)
  }

  ghost predicate AtTest(c: Context, sw: SwCurve, job: Job, acc: Acc)
    requires sw.fp.m > 0 && sw.fn.m >= 2 && sw.cv.p >= 2
    reads c`x1, c`y1, c`z, c`qr, c`res
  {
    && c.qr == sw.fn.Qr(job.r) && c.res == Flag(job.WellFormed(sw.fn.m))
    && c.x1 == sw.fp.Qr(acc.x) && c.y1 == sw.fp.Qr(acc.y) && c.z == sw.fp.Mont(acc.z)
    && AccIs(sw.cv.p, job.At(sw, 0), acc)
  }

  method VerifyInvS(c: Context, sw: SwCurve, ghost job: Job)
    requires sw.Sound() && AtInvS(c, sw, job)
    modifies c
    ensures AtInvZ(c, sw, job) && c.stage == STAGE_VERIFY_INV_Z
  {
    InvSStage(c, sw.fn);
  }

  method VerifyInvZ(c: Context, sw: SwCurve, ghost job: Job) returns (ghost acc: Acc)
    requires sw.Sound() && job.Sound(sw) && AtInvZ(c, sw, job)
    modifies c
    ensures AtLadder(c, sw, job, acc) && c.i == sw.bits - 1 && c.stage == STAGE_VERIFY_LADDER
  {
    acc := PrepareMultAdd(c, sw, job.q, job.zv);
  }

  method VerifyLadder(c: Context, sw: SwCurve, ghost job: Job, ghost acc: Acc) returns (ghost acc': Acc)
    requires sw.Sound() && job.Sound(sw) && AtLadder(c, sw, job, acc)
    requires c.stage == STAGE_VERIFY_LADDER
    modifies c
    ensures var rem := old(Remaining(c.i, sw.bits));
            if rem <= POINT_ITERATIONS then AtTest(c, sw, job, acc') && c.stage == STAGE_VERIFY_TEST
            else AtLadder(c, sw, job, acc') && Remaining(c.i, sw.bits) == rem - POINT_ITERATIONS
                 && c.stage == STAGE_VERIFY_LADDER
  {
    hide Constants, Run, TableH, TableGH, AccIs, HoldAcc, Table, Field.Valid, Job.WellFormed;
    acc' := LoopSlice(c, sw, TableH(sw, job.q), TableGH(sw, job.q), acc);
    if c.i >= sw.bits {
      FinishMultAdd(c, sw.fp, acc');
    }
  }

  method VerifyTest(c: Context, sw: SwCurve, ghost job: Job, ghost acc: Acc)
    requires sw.Sound() && AtTest(c, sw, job, acc)
    modifies c
    ensures c.res == Flag(job.Accepted(sw)) && c.stage == STAGE_VERIFY_DONE
  {
    if job.WellFormed(sw.cv.n) {
      QrFixed(sw.fn, job.r);
      Decision(sw, job.At(sw, 0), acc, job.r);
    }
    TestStage(c, sw.fp, sw.fn.m, acc.x, acc.y, acc.z);
  }

  // ---- continuing until done ----

  /** What holds between calls. */
  ghost predicate InStage(c: Context, sw: SwCurve, job: Job, acc: Acc)
    requires sw.fp.m > 0 && sw.fn.m >= 2 && sw.cv.p >= 2
    reads c`x1, c`y1, c`z, c`k, c`pointX, c`pointY, c`messageThenKg, c`qr, c`qsThenPgX, c`pgY, c`res, c`stage, c`i
  {
    if c.stage == STAGE_VERIFY_INV_S then AtInvS(c, sw, job)
    else if c.stage == STAGE_VERIFY_INV_Z then AtInvZ(c, sw, job)
    else if c.stage == STAGE_VERIFY_LADDER then AtLadder(c, sw, job, acc) && Remaining(c.i, sw.bits) > 0
    else if c.stage == STAGE_VERIFY_TEST then AtTest(c, sw, job, acc)
    else c.stage == STAGE_VERIFY_DONE && c.res == Flag(job.Accepted(sw))
  }

  /** How many calls are left. */
  function CallsLeft(stage: nat, i: nat, bits: nat): nat {
    if stage == STAGE_VERIFY_INV_S then 3 + Slices(bits)
    else if stage == STAGE_VERIFY_INV_Z then 2 + Slices(bits)
    else if stage == STAGE_VERIFY_LADDER then 1 + Slices(Remaining(i, bits))
    else if stage == STAGE_VERIFY_TEST then 1
    else 0
  }

  /** sb_sw_verify_continue: one stage, or 16 iterations of the loop, or nothing if done. */
  method VerifyContinue(c: Context, sw: SwCurve, ghost job: Job, ghost acc: Acc) returns (done: bool, ghost acc': Acc)
    requires sw.Sound() && job.Sound(sw) && InStage(c, sw, job, acc)
    modifies c
    ensures InStage(c, sw, job, acc')
    ensures done <==> old(c.stage) >= STAGE_VERIFY_TEST
    ensures done <==> c.stage == STAGE_VERIFY_DONE
    ensures var left := old(CallsLeft(c.stage, c.i, sw.bits));
            CallsLeft(c.stage, c.i, sw.bits) == if left == 0 then 0 else left - 1
    ensures old(c.stage) == STAGE_VERIFY_DONE ==> unchanged(c)
  {
    acc' := acc;
    if c.stage == STAGE_VERIFY_INV_S {
      VerifyInvS(c, sw, job);
      done := false;
    } else if c.stage == STAGE_VERIFY_INV_Z {
      acc' := VerifyInvZ(c, sw, job);
      done := false;
    } else if c.stage == STAGE_VERIFY_LADDER {
      acc' := VerifyLadder(c, sw, job, acc);
      done := false;
    } else if c.stage == STAGE_VERIFY_TEST {
      VerifyTest(c, sw, job, acc);
      done := true;
    } else {
      done := c.stage == STAGE_VERIFY_DONE;
    }
  }

  /** The point that the loop computes is the one that the signature determines. */
  lemma ComputedPoint(sw: SwCurve, pt: int -> Point, d: int, h: int, msg: int, r: int, s: int)
    requires sw.Sound() && Multiples(sw.cv, pt) && Cong((Pow2(sw.bits + 1) - 1) * h, 1, sw.cv.n)
    ensures var w := Inv(s, sw.cv.n);
            pt(Accumulated(sw.fn.Qr(r * w), sw.fn.Qr(msg * w) - 1, d, h, sw.bits, 0)) == pt(msg * w + r * w * d)
  {
    var n, w := sw.cv.n, Inv(s, sw.cv.n);
    var kp, kg := sw.fn.Qr(r * w), sw.fn.Qr(msg * w);
    AccumulatedAll(kp, kg - 1, d, h, sw.bits, n);
    CongMul(kp, r * w, d, d, n);
    CongAdd(msg * w, kg, r * w * d, kp * d, n);
    MultipleCong(sw.cv, pt, Accumulated(kp, kg - 1, d, h, sw.bits, 0), msg * w + r * w * d);
  }

  /** No addition of the loop is exceptional for the scalars of this signature. */
  ghost predicate NonExceptional(sw: SwCurve, d: int, h: int, msg: int, r: int, s: int)
    requires sw.cv.n >= 2 && sw.fn.m >= 2
  {
    var w := Inv(s, sw.fn.m);
    SafeFrom(sw.fn.Qr(r * w), sw.fn.Qr(msg * w) - 1, d, h, sw.bits, sw.cv.n, 0)
  }

  /** For a public key that adding H and G to is not exceptional, a verification accepts valid signatures of
      nonzero messages, unless an addition of the loop is exceptional. */
  lemma AcceptedIff(sw: SwCurve, pt: int -> Point, d: int, h: int, job: Job)
    requires sw.Sound() && Multiples(sw.cv, pt) && Masked(sw, pt, h) && job.q == pt(d) && job.q.Affine?
    requires TableSafe(sw, pt(d))
    ensures job.Accepted(sw) <==>
            && Verifies(sw.cv, pt, d, job.msg, job.r, job.s) && job.msg % sw.cv.n != 0
            && NonExceptional(sw, d, h, job.msg, job.r, job.s)
  {
    hide Multiples, Masked, TableSafe, Run, SafeFrom;
    var kp, kg := job.Kp(sw.fn), job.Kg(sw.fn);
    TableSafeIff(sw, pt, d, h);
    ScalarsFit(sw, pt, h);
    RunIsMultiple(sw, pt, d, h, kp, kg - 1, 0);
    ComputedPoint(sw, pt, d, h, job.msg, job.r, job.s);
    IsAffine(sw.cv, pt, Accumulated(kp, kg - 1, d, h, sw.bits, 0));
  }

  lemma ScalarsFit(sw: SwCurve, pt: int -> Point, h: int)
    requires sw.Sound() && Masked(sw, pt, h)
    ensures sw.cv.n < Pow2(sw.bits) && sw.bits > 0 && Cong((Pow2(sw.bits + 1) - 1) * h, 1, sw.cv.n)
  {
  }

  /** Continue until done. */
  method RunVerification(c: Context, sw: SwCurve, ghost job: Job, ghost acc0: Acc) returns (calls: nat)
    requires sw.Sound() && job.Sound(sw) && InStage(c, sw, job, acc0)
    requires c.stage < STAGE_VERIFY_DONE
    modifies c
    ensures c.stage == STAGE_VERIFY_DONE && c.res == Flag(job.Accepted(sw))
    ensures calls == old(CallsLeft(c.stage, c.i, sw.bits))
  {
    ghost var acc := acc0;
    calls := 0;
    var done := false;
    while !done
      invariant InStage(c, sw, job, acc)
      invariant done <==> c.stage == STAGE_VERIFY_DONE
      invariant calls + CallsLeft(c.stage, c.i, sw.bits) == old(CallsLeft(c.stage, c.i, sw.bits))
      decreases CallsLeft(c.stage, c.i, sw.bits)
    {
      done, acc := VerifyContinue(c, sw, job, acc);
      calls := calls + 1;
    }
  }

  /** Start, and continue until done.  For every public key, every message and every pair (r, s), whatever their
      range, the result is 1 exactly if the loop, in affine points, accepts.  For every public key other than H, -H,
      G - H and -G - H that is exactly for a valid signature of a message that is not zero modulo n and in whose
      verification no addition is exceptional; for these four the loop has (0, 0) for P + H and P + G + H. */
  method VerifySignature(c: Context, sw: SwCurve, ghost pt: int -> Point, ghost d: int, ghost h: int, ghost zv: int)
    returns (calls: nat)
    requires sw.Sound() && Multiples(sw.cv, pt) && Masked(sw, pt, h)
    requires HasInputs(c, sw.fp, pt(d), zv) && zv % sw.cv.p != 0
    modifies c
    ensures c.stage == STAGE_VERIFY_DONE && calls == 3 + Slices(sw.bits)
    ensures c.res <= 1
    ensures c.res == 1 <==> Job(pt(d), zv, old(c.messageThenKg), old(c.qr), old(c.qsThenPgX)).Accepted(sw)
    ensures TableSafe(sw, pt(d)) ==>
              (c.res == 1 <==>
               && Verifies(sw.cv, pt, d, old(c.messageThenKg), old(c.qr), old(c.qsThenPgX))
               && old(c.messageThenKg) % sw.cv.n != 0
               && NonExceptional(sw, d, h, old(c.messageThenKg), old(c.qr), old(c.qsThenPgX)))
  {
    hide Multiples, Masked, TableSafe, Verifies, NonExceptional, Job.Accepted;
    ghost var job := Job(pt(d), zv, c.messageThenKg, c.qr, c.qsThenPgX);
    IsAffine(sw.cv, pt, d);
    MaskedConstants(sw, pt, h);
    if TableSafe(sw, pt(d)) {
      AcceptedIff(sw, pt, d, h, job);
    }
    c.stage := STAGE_VERIFY_INV_S;
    c.res := 1;
    calls := RunVerification(c, sw, job, Acc(0, 0, 0));
  }
}
