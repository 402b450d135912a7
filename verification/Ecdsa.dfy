/** ECDSA over the integers modulo the group order: what signing and verification mean. */
module Ecdsa {
  import opened ModArith
  import opened Primes
  import opened QuasiField
  import opened Curve

  /** (r, s) is a signature of msg under the public key pt(d): section 6.4.2 of FIPS 186-5. */
  ghost predicate Verifies(cv: Curve, pt: int -> Point, d: int, msg: int, r: int, s: int)
    requires cv.n >= 2
  {
    && 1 <= r < cv.n && 1 <= s < cv.n
    && var w := Inv(s, cv.n);
       var q := pt(msg * w + r * w * d);
       q.Affine? && q.x % cv.n == r
  }

  /** The s component of the signature with nonce k. */
  ghost function SignedS(fn: Field, d: int, k: int, msg: int, r: int): nat
    requires fn.m >= 2
  {
    fn.Qr((msg + r * d) * Inv(k, fn.m))
  }

  /** Verification of a signature recovers the nonce. */
  lemma RecoversNonce(n: nat, d: int, k: int, msg: int, r: int, s: int)
    requires IsPrime(n) && k % n != 0 && s % n != 0 && Cong(s, (msg + r * d) * Inv(k, n), n)
    ensures Cong(msg * Inv(s, n) + r * Inv(s, n) * d, k, n)
  {
    var e, w, i := msg + r * d, Inv(s, n), Inv(k, n);
    InvCorrect(s, n);
    InvCorrect(k, n);
    CommonFactor(msg, r, d, w);
    NonceCong(n, e, i, k, s, w);
  }

  lemma CommonFactor(msg: int, r: int, d: int, w: int)
    ensures msg * w + r * w * d == w * (msg + r * d)
  {
    assert r * w * d == w * (r * d);
  }

  lemma NonceCong(n: nat, e: int, i: int, k: int, s: int, w: int)
    requires n > 0 && Cong(s, e * i, n) && Cong(i * k, 1, n) && Cong(w * s, 1, n)
    ensures Cong(w * e, k, n)
  {
    CongMul(s, e * i, k, k, n);
    assert e * i * k == e * (i * k);
    CongMul(e, e, i * k, 1, n);
    CongMul(w, w, s * k, e, n);
    CongMul(w * s, 1, k, k, n);
    assert w * (s * k) == (w * s) * k;
  }

  /** The s component in numbers: s k = msg + r d modulo n, with n in place of zero. */
  lemma SignedMeans(fn: Field, d: int, k: int, msg: int, r: int)
    requires fn.Valid() && k % fn.m != 0
    ensures var s := SignedS(fn, d, k, msg, r);
            1 <= s <= fn.m && Cong(s * k, msg + r * d, fn.m) && (s == fn.m <==> (msg + r * d) % fn.m == 0)
  {
    var e, i, n := msg + r * d, Inv(k, fn.m), fn.m;
    var s := SignedS(fn, d, k, msg, r);
    InvCorrect(k, n);
    CongMul(s, e * i, k, k, n);
    CongMul(e, e, i * k, 1, n);
    Associate(e, i, k);
    SmallMod(0, n);
    if e % n == 0 {
      CongMul(e, 0, i, i, n);
      ZeroTimes(0, i);
    }
    if s == n {
      CongMul(s, 0, k, k, n);
      ZeroTimes(0, k);
    }
  }

  /** Verification in numbers: for the u1 and u2 with u1 s = msg and u2 s = r modulo n, the x coordinate of
      u1 G + u2 Q is r modulo n. */
  lemma VerifiesMeans(cv: Curve, pt: int -> Point, d: int, msg: int, r: int, s: int, u1: int, u2: int)
    requires Multiples(cv, pt) && Cong(u1 * s, msg, cv.n) && Cong(u2 * s, r, cv.n)
    ensures Verifies(cv, pt, d, msg, r, s) <==>
            && 1 <= r < cv.n && 1 <= s < cv.n
            && pt(u1 + u2 * d).Affine? && pt(u1 + u2 * d).x % cv.n == r
  {
    hide Multiples;
    MultiplesSound(cv, pt);
    if 1 <= s < cv.n {
      var n, w := cv.n, Inv(s, cv.n);
      SmallMod(s, n);
      QuotientCong(n, msg, s, w, u1);
      QuotientCong(n, r, s, w, u2);
      CongMul(r * w, u2, d, d, n);
      CongAdd(msg * w, u1, r * w * d, u2 * d, n);
      MultipleCong(cv, pt, msg * w + r * w * d, u1 + u2 * d);
    }
  }

  lemma QuotientCong(n: nat, v: int, s: int, w: int, u: int)
    requires IsPrime(n) && s % n != 0 && w == Inv(s, n) && Cong(u * s, v, n)
    ensures Cong(v * w, u, n)
  {
    InvCorrect(s, n);
    CongMul(u * s, v, w, w, n);
    CongMul(u, u, w * s, 1, n);
    Swap(u, s, w);
    Associate(u, w, s);
  }

  /** x modulo n is r exactly if x is r or, where that is below p, r + n. */
  lemma CandidateX(x: int, r: int, n: nat, p: nat)
    requires 1 <= r < n < p < 2 * n && 0 <= x < p
    ensures x % n == r <==> x == r || (r < p - n && x == r + n)
  {
    if x < n {
      SmallMod(x, n);
    } else {
      DivModUnique(x, 1, x - n, n);
    }
  }

  /** A signature verifies exactly if the point that the nonce gives has the x coordinate r modulo n. */
  lemma SignatureVerifies(cv: Curve, pt: int -> Point, d: int, k: int, msg: int, r: int, s: int)
    requires Multiples(cv, pt) && 1 <= k < cv.n && 1 <= r < cv.n && 1 <= s < cv.n
    requires Cong(s, (msg + r * d) * Inv(k, cv.n), cv.n)
    ensures pt(k).Affine?
    ensures Verifies(cv, pt, d, msg, r, s) <==> pt(k).x % cv.n == r
  {
    SmallMod(k, cv.n);
    SmallMod(s, cv.n);
    IsAffine(cv, pt, k);
    RecoversNonce(cv.n, d, k, msg, r, s);
    MultipleCong(cv, pt, msg * Inv(s, cv.n) + r * Inv(s, cv.n) * d, k);
  }
}
