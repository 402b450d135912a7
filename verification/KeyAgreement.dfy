/** sb_sw_lib.c: the functions that make all the calls of a multiplication, and two parties that use them. */
module KeyAgreement {
  import opened Results
  import opened ModArith
  import opened Primes
  import opened QuasiField
  import opened Curve
  import opened CoZ
  import opened PointMult
  import opened PointMultRun
  import opened PointCodec
  import opened Api
  import opened Session

  /** The calls after a start: continue until done, and collect the coordinates. */
  method RunToEnd(s: Session, op: Operation, ghost base: int -> Point, ghost private: nat)
    returns (output: (nat, nat))
    requires s.Valid() && IsMultiplication(op) && s.operation == Some(op) && s.curveId < |s.curves|
    requires AimOf(s.job) == MultiplyAim(base, private)
    modifies s, s.c
    ensures s.Valid() && s.Phase() == Idle
    ensures base(private).Affine?
    ensures output.0 == if op == Operation.ComputePublicKey && base(private).x == 0 then old(s.curves[s.curveId].cv.p)
                        else base(private).x
    ensures output.1 == if op == Operation.SharedSecret then 0 else base(private).y
  {
    hide Session.Running, Zeroed, Left;
    var errors, calls := s.Complete(op);
    errors, output := s.FinishMultiplication(op);
  }

  /** sb_sw_compute_public_key: the multiple of the generator; p is output for x = 0. */
  method ComputePublicKey(s: Session, curve: nat, private: nat, z: Option<nat>, ghost base: int -> Point)
    returns (errors: set<Error>, public: (nat, nat))
    requires |s.curves| > 0
    requires curve < |s.curves| ==> Base(s.curves[curve], base) && base(1) == s.curves[curve].g
    requires curve < |s.curves| && z.Some? ==> 1 <= z.value < s.curves[curve].cv.p
    modifies s, s.c
    ensures s.Valid() && s.Phase() == Idle
    ensures errors == if curve >= |s.curves| then {CurveInvalid}
                      else ErrorIf(DrbgFailure, z.None?)
                           + ErrorIf(PrivateKeyInvalid, !(1 <= private < s.curves[curve].cv.n))
    ensures errors == {} ==>
              && curve < |s.curves| && base(private).Affine?
              && public.0 == (if base(private).x == 0 then s.curves[curve].cv.p else base(private).x)
              && public.1 == base(private).y
  {
    hide Session.Running, Zeroed, Base, Calls;
    public := (0, 0);
    errors := s.StartPublicKey(curve, private, z, base);
    if errors == {} {
      public := RunToEnd(s, Operation.ComputePublicKey, base, private);
    }
  }

  /** sb_sw_shared_secret: the x coordinate of the multiple of the other party's point, which is validated. */
  method SharedSecret(s: Session, curve: nat, private: nat, public: (nat, nat), z: Option<nat>,
                      ghost base: int -> Point)
    returns (errors: set<Error>, secret: nat)
    requires |s.curves| > 0 && (curve < |s.curves| ==> s.curves[curve].Sound())
    requires curve < |s.curves| && ValidPoint(s.curves[curve].cv, public.0, public.1) ==>
               Multiples(s.curves[curve].cv, base) && base(1) == Affine(public.0, public.1)
    requires curve < |s.curves| && z.Some? ==> 1 <= z.value < s.curves[curve].cv.p
    modifies s, s.c
    ensures s.Valid() && s.Phase() == Idle
    ensures errors == if curve >= |s.curves| then {CurveInvalid}
                      else ErrorIf(DrbgFailure, z.None?)
                           + ErrorIf(PrivateKeyInvalid, !(1 <= private < s.curves[curve].cv.n))
                           + ErrorIf(PublicKeyInvalid, !ValidPoint(s.curves[curve].cv, public.0, public.1))
    ensures errors == {} ==> base(private).Affine? && secret == base(private).x
  {
    hide Session.Running, Zeroed, Multiples, Calls, ValidPoint, SwCurve.Sound;
    secret := 0;
    errors := s.StartWithPoint(Operation.SharedSecret, curve, private, public.0, public.1, z, base);
    if errors == {} {
      var output := RunToEnd(s, Operation.SharedSecret, base, private);
      secret := output.0;
    }
  }

  /** sb_sw_point_multiply: both coordinates of the multiple. */
  method MultiplyPoint(s: Session, curve: nat, private: nat, point: (nat, nat), z: Option<nat>,
                       ghost base: int -> Point)
    returns (errors: set<Error>, output: (nat, nat))
    requires |s.curves| > 0 && (curve < |s.curves| ==> s.curves[curve].Sound())
    requires curve < |s.curves| && ValidPoint(s.curves[curve].cv, point.0, point.1) ==>
               Multiples(s.curves[curve].cv, base) && base(1) == Affine(point.0, point.1)
    requires curve < |s.curves| && z.Some? ==> 1 <= z.value < s.curves[curve].cv.p
    modifies s, s.c
    ensures s.Valid() && s.Phase() == Idle
    ensures errors == if curve >= |s.curves| then {CurveInvalid}
                      else ErrorIf(DrbgFailure, z.None?)
                           + ErrorIf(PrivateKeyInvalid, !(1 <= private < s.curves[curve].cv.n))
                           + ErrorIf(PublicKeyInvalid, !ValidPoint(s.curves[curve].cv, point.0, point.1))
    ensures errors == {} ==> base(private) == Affine(output.0, output.1)
  {
    hide Session.Running, Zeroed, Multiples, Calls, ValidPoint, SwCurve.Sound;
    output := (0, 0);
    errors := s.StartWithPoint(PointMultiply, curve, private, point.0, point.1, z, base);
    if errors == {} {
      output := RunToEnd(s, PointMultiply, base, private);
    }
  }

  // ---- two parties ----

  /** A public key is the coordinates of a multiple of the generator, with p in place of x = 0. */
  ghost predicate IsKeyOf(sw: SwCurve, base: int -> Point, d: nat, public: (nat, nat)) {
    && base(d).Affine? && public.1 == base(d).y
    && public.0 == if base(d).x == 0 then sw.cv.p else base(d).x
  }

  /** The key is accepted exactly if x is not zero, and then its multiples are those of the point. */
  lemma KeyMeans(sw: SwCurve, base: int -> Point, d: nat, public: (nat, nat), pt: int -> Point)
    requires Base(sw, base) && 1 <= d < sw.cv.n && IsKeyOf(sw, base, d, public) && forall m :: pt(m) == base(d * m)
    ensures ValidPoint(sw.cv, public.0, public.1) <==> base(d).x != 0
    ensures Multiples(sw.cv, pt)
    ensures base(d).x != 0 ==> pt(1) == Affine(public.0, public.1)
  {
    hide Multiples;
    SmallMod(d, sw.cv.n);
    ScaledMultiples(sw.cv, base, d, pt);
    MultipleCoordinates(sw, base, d);
    assert d * 1 == d;
  }

  /** Two parties compute their public keys, exchange them, and compute their secrets.  A key is refused exactly if its
      x coordinate is zero.  Otherwise both obtain the x coordinate of a b G. */
  method Agree(s: Session, t: Session, curve: nat, a: nat, b: nat, z: (nat, nat), w: (nat, nat),
               ghost base: int -> Point)
    returns (errorsA: set<Error>, secretA: nat, errorsB: set<Error>, secretB: nat)
    requires s != t && s.c != t.c && s.curves == t.curves && curve < |s.curves|
    requires Base(s.curves[curve], base) && base(1) == s.curves[curve].g
    requires 1 <= a < s.curves[curve].cv.n && 1 <= b < s.curves[curve].cv.n
    requires 1 <= z.0 < s.curves[curve].cv.p && 1 <= z.1 < s.curves[curve].cv.p
    requires 1 <= w.0 < s.curves[curve].cv.p && 1 <= w.1 < s.curves[curve].cv.p
    modifies s, s.c, t, t.c
    ensures base(a).Affine? && base(b).Affine? && base(a * b).Affine?
    ensures errorsA == ErrorIf(PublicKeyInvalid, base(b).x == 0)
    ensures errorsB == ErrorIf(PublicKeyInvalid, base(a).x == 0)
    ensures errorsA == {} ==> secretA == base(a * b).x
    ensures errorsB == {} ==> secretB == base(a * b).x
  {
    hide Base, Multiples, ValidPoint, SwCurve.Sound, Session.Valid;
    ghost var sw := s.curves[curve];
    ghost var fromA, fromB: int -> Point := m => base(a * m), m => base(b * m);
    var keyA, keyB;
    errorsA, keyA := ComputePublicKey(s, curve, a, Some(z.0), base);
    errorsB, keyB := ComputePublicKey(t, curve, b, Some(w.0), base);
    KeyMeans(sw, base, a, keyA, fromA);
    KeyMeans(sw, base, b, keyB, fromB);
    BaseIsSound(sw, base);
    assert b * a == a * b;
    ProductAffine(sw, base, a, b);
    errorsA, secretA := SharedSecret(s, curve, a, keyB, Some(z.1), fromB);
    errorsB, secretB := SharedSecret(t, curve, b, keyA, Some(w.1), fromA);
  }

  lemma BaseIsSound(sw: SwCurve, base: int -> Point)
    requires Base(sw, base)
    ensures sw.Sound()
  {
  }

  lemma ProductAffine(sw: SwCurve, base: int -> Point, a: nat, b: nat)
    requires Base(sw, base) && 1 <= a < sw.cv.n && 1 <= b < sw.cv.n
    ensures base(a * b).Affine?
  {
    hide Multiples;
    BaseIsSound(sw, base);
    MultiplesSound(sw.cv, base);
    SmallMod(a, sw.cv.n);
    SmallMod(b, sw.cv.n);
    if (a * b) % sw.cv.n == 0 {
      PrimeDividesProduct(a, b, sw.cv.n);
    }
    IsAffine(sw.cv, base, a * b);
  }
}
