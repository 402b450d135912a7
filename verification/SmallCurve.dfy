/** A curve that is small enough to list the multiples of its generator: what is assumed of a curve, of the multiples of
    a point and of the constants can be had together. */
module SmallCurve {
  import opened ModArith
  import opened Primes
  import opened QuasiField
  import opened Curve
  import opened CoZ
  import opened Scalars
  import opened PointMult
  import opened MultAdd

  /** y^2 = x^3 + 7 x + 6 modulo 13, with 11 points. */
  const CV: Curve := Curve(13, 7, 6, 11)

  /** The numbers 0 to 10 times (1, 1). */
  function Entry(k: nat): Point {
    match k

    case 1 => Affine(1, 1)
    case 2 => Affine(10, 6)
    case 3 => Affine(6, 2)
    case 4 => Affine(5, 6)
    case 5 => Affine(11, 6)
    case 6 => Affine(11, 7)
    case 7 => Affine(5, 7)
    case 8 => Affine(6, 11)
    case 9 => Affine(10, 7)
    case 10 => Affine(1, 12)
    case _ => Infinity
  }

  function Pt(k: int): Point { Entry(k % 11) }

  // ---- the sums ----

  /** The point on a line is determined by its slope. */
  lemma LineUnique(q: Point, rx: int, s: Point, t: Point, num: int, den: int)
    requires OnLine(13, q, rx, s, num, den) && OnLine(13, q, rx, t, num, den)
    requires IsPrime(13) && den % 13 != 0 && Residues(13, s) && Residues(13, t)
    ensures s == t
  {
    if (den * den) % 13 == 0 {
      PrimeDividesProduct(den, den, 13);
    }
    CancelFactor(s.x + (q.x + rx), t.x + (q.x + rx), den * den, 13);
    CongSub(s.x + (q.x + rx), t.x + (q.x + rx), q.x + rx, q.x + rx, 13);
    SmallMod(s.x, 13);
    SmallMod(t.x, 13);
    CancelFactor(s.y + q.y, t.y + q.y, den, 13);
    CongSub(s.y + q.y, t.y + q.y, q.y, q.y, 13);
    SmallMod(s.y, 13);
    SmallMod(t.y, 13);
  }

  /** s is the sum of q and r, without division. */
  predicate IsSum(qx: int, qy: int, rx: int, ry: int, s: Point) {
    if qx == rx && qy + ry == 13 then s == Infinity
    else
      && s.Affine? && 0 <= s.x < 13 && 0 <= s.y < 13
      && var num, den := if qx == rx then 3 * qx * qx + 7 else ry - qy, if qx == rx then 2 * qy else rx - qx;
         && den % 13 != 0 && ((s.x + (qx + rx)) * (den * den) - num * num) % 13 == 0
         && ((s.y + qy) * den - num * (qx - s.x)) % 13 == 0
  }

  ghost predicate EntryIs(k: nat, x: int, y: int) {
    Entry(k) == Affine(x, y)
  }

  lemma Entries()
    ensures Entry(0) == Infinity
    ensures EntryIs(1, 1, 1) && EntryIs(2, 10, 6) && EntryIs(3, 6, 2) && EntryIs(4, 5, 6) && EntryIs(5, 11, 6)
    ensures EntryIs(6, 11, 7) && EntryIs(7, 5, 7) && EntryIs(8, 6, 11) && EntryIs(9, 10, 7) && EntryIs(10, 1, 12)
  {
  }

  ghost predicate Adds(i: nat, j: nat) {
    CV.Add(Entry(i), Entry(j)) == Entry((i + j) % 11)
  }

  lemma SumIs(i: nat, j: nat, qx: int, qy: int, rx: int, ry: int, k: nat, s: Point)
    requires EntryIs(i, qx, qy) && EntryIs(j, rx, ry) && k == (i + j) % 11
    requires if s.Affine? then EntryIs(k, s.x, s.y) else k == 0
    requires 0 <= qx < 13 && 0 < qy < 13 && 0 <= rx < 13 && 0 < ry < 13 && IsSum(qx, qy, rx, ry, s)
    requires qx == rx ==> qy == ry || qy + ry == 13
    ensures Adds(i, j)
  {
    hide Entry;
    Entries();
    if qx == rx && qy + ry == 13 {
      assert CV.Add(Affine(qx, qy), Affine(rx, ry)) == Infinity;
    } else if qx == rx {
      TangentSum(qx, qy, s);
    } else {
      ChordSum(qx, qy, rx, ry, s);
    }
  }

  lemma TangentSum(x: int, y: int, s: Point)
    requires 0 <= x < 13 && 0 < y < 13 && 2 * y != 13 && IsSum(x, y, x, y, s)
    ensures CV.Add(Affine(x, y), Affine(x, y)) == s
  {
    Primes13();
    var q, num, den := Affine(x, y), 3 * x * x + 7, 2 * y;
    AddIsTangent(CV, q);
    CongIffDiff((s.x + (x + x)) * (den * den), num * num, 13);
    CongIffDiff((s.y + y) * den, num * (x - s.x), 13);
    LineUnique(q, x, s, CV.Add(q, q), num, den);
  }

  lemma ChordSum(qx: int, qy: int, rx: int, ry: int, s: Point)
    requires 0 <= qx < 13 && 0 < qy < 13 && 0 <= rx < 13 && 0 < ry < 13 && qx != rx && IsSum(qx, qy, rx, ry, s)
    ensures CV.Add(Affine(qx, qy), Affine(rx, ry)) == s
  {
    Primes13();
    var q, r, num, den := Affine(qx, qy), Affine(rx, ry), ry - qy, rx - qx;
    AddIsChord(CV, q, r);
    CongIffDiff((s.x + (qx + rx)) * (den * den), num * num, 13);
    CongIffDiff((s.y + qy) * den, num * (qx - s.x), 13);
    LineUnique(q, rx, s, CV.Add(q, r), num, den);
  }

  lemma Primes13()
    ensures IsPrime(13) && IsPrime(11)
  {
  }

  lemma Sums1()
    ensures Adds(1, 1) && Adds(1, 2) && Adds(1, 3) && Adds(1, 4) && Adds(1, 5)
    ensures Adds(1, 6) && Adds(1, 7) && Adds(1, 8) && Adds(1, 9) && Adds(1, 10)
  {
    hide Adds, EntryIs;
    Entries();
    SumIs(1, 1, 1, 1, 1, 1, 2, Affine(10, 6));
    SumIs(1, 2, 1, 1, 10, 6, 3, Affine(6, 2));
    SumIs(1, 3, 1, 1, 6, 2, 4, Affine(5, 6));
    SumIs(1, 4, 1, 1, 5, 6, 5, Affine(11, 6));
    SumIs(1, 5, 1, 1, 11, 6, 6, Affine(11, 7));
    SumIs(1, 6, 1, 1, 11, 7, 7, Affine(5, 7));
    SumIs(1, 7, 1, 1, 5, 7, 8, Affine(6, 11));
    SumIs(1, 8, 1, 1, 6, 11, 9, Affine(10, 7));
    SumIs(1, 9, 1, 1, 10, 7, 10, Affine(1, 12));
    SumIs(1, 10, 1, 1, 1, 12, 0, Infinity);
  }

  lemma Sums2()
    ensures Adds(2, 1) && Adds(2, 2) && Adds(2, 3) && Adds(2, 4) && Adds(2, 5)
    ensures Adds(2, 6) && Adds(2, 7) && Adds(2, 8) && Adds(2, 9) && Adds(2, 10)
  {
    hide Adds, EntryIs;
    Entries();
    SumIs(2, 1, 10, 6, 1, 1, 3, Affine(6, 2));
    SumIs(2, 2, 10, 6, 10, 6, 4, Affine(5, 6));
    SumIs(2, 3, 10, 6, 6, 2, 5, Affine(11, 6));
    SumIs(2, 4, 10, 6, 5, 6, 6, Affine(11, 7));
    SumIs(2, 5, 10, 6, 11, 6, 7, Affine(5, 7));
    SumIs(2, 6, 10, 6, 11, 7, 8, Affine(6, 11));
    SumIs(2, 7, 10, 6, 5, 7, 9, Affine(10, 7));
    SumIs(2, 8, 10, 6, 6, 11, 10, Affine(1, 12));
    SumIs(2, 9, 10, 6, 10, 7, 0, Infinity);
    SumIs(2, 10, 10, 6, 1, 12, 1, Affine(1, 1));
  }

  lemma Sums3()
    ensures Adds(3, 1) && Adds(3, 2) && Adds(3, 3) && Adds(3, 4) && Adds(3, 5)
    ensures Adds(3, 6) && Adds(3, 7) && Adds(3, 8) && Adds(3, 9) && Adds(3, 10)
  {
    hide Adds, EntryIs;
    Entries();
    SumIs(3, 1, 6, 2, 1, 1, 4, Affine(5, 6));
    SumIs(3, 2, 6, 2, 10, 6, 5, Affine(11, 6));
    SumIs(3, 3, 6, 2, 6, 2, 6, Affine(11, 7));
    SumIs(3, 4, 6, 2, 5, 6, 7, Affine(5, 7));
    SumIs(3, 5, 6, 2, 11, 6, 8, Affine(6, 11));
    SumIs(3, 6, 6, 2, 11, 7, 9, Affine(10, 7));
    SumIs(3, 7, 6, 2, 5, 7, 10, Affine(1, 12));
    SumIs(3, 8, 6, 2, 6, 11, 0, Infinity);
    SumIs(3, 9, 6, 2, 10, 7, 1, Affine(1, 1));
    SumIs(3, 10, 6, 2, 1, 12, 2, Affine(10, 6));
  }

  lemma Sums4()
    ensures Adds(4, 1) && Adds(4, 2) && Adds(4, 3) && Adds(4, 4) && Adds(4, 5)
    ensures Adds(4, 6) && Adds(4, 7) && Adds(4, 8) && Adds(4, 9) && Adds(4, 10)
  {
    hide Adds, EntryIs;
    Entries();
    SumIs(4, 1, 5, 6, 1, 1, 5, Affine(11, 6));
    SumIs(4, 2, 5, 6, 10, 6, 6, Affine(11, 7));
    SumIs(4, 3, 5, 6, 6, 2, 7, Affine(5, 7));
    SumIs(4, 4, 5, 6, 5, 6, 8, Affine(6, 11));
    SumIs(4, 5, 5, 6, 11, 6, 9, Affine(10, 7));
    SumIs(4, 6, 5, 6, 11, 7, 10, Affine(1, 12));
    SumIs(4, 7, 5, 6, 5, 7, 0, Infinity);
    SumIs(4, 8, 5, 6, 6, 11, 1, Affine(1, 1));
    SumIs(4, 9, 5, 6, 10, 7, 2, Affine(10, 6));
    SumIs(4, 10, 5, 6, 1, 12, 3, Affine(6, 2));
  }

  lemma Sums5()
    ensures Adds(5, 1) && Adds(5, 2) && Adds(5, 3) && Adds(5, 4) && Adds(5, 5)
    ensures Adds(5, 6) && Adds(5, 7) && Adds(5, 8) && Adds(5, 9) && Adds(5, 10)
  {
    hide Adds, EntryIs;
    Entries();
    SumIs(5, 1, 11, 6, 1, 1, 6, Affine(11, 7));
    SumIs(5, 2, 11, 6, 10, 6, 7, Affine(5, 7));
    SumIs(5, 3, 11, 6, 6, 2, 8, Affine(6, 11));
    SumIs(5, 4, 11, 6, 5, 6, 9, Affine(10, 7));
    SumIs(5, 5, 11, 6, 11, 6, 10, Affine(1, 12));
    SumIs(5, 6, 11, 6, 11, 7, 0, Infinity);
    SumIs(5, 7, 11, 6, 5, 7, 1, Affine(1, 1));
    SumIs(5, 8, 11, 6, 6, 11, 2, Affine(10, 6));
    SumIs(5, 9, 11, 6, 10, 7, 3, Affine(6, 2));
    SumIs(5, 10, 11, 6, 1, 12, 4, Affine(5, 6));
  }

  lemma Sums6()
    ensures Adds(6, 1) && Adds(6, 2) && Adds(6, 3) && Adds(6, 4) && Adds(6, 5)
    ensures Adds(6, 6) && Adds(6, 7) && Adds(6, 8) && Adds(6, 9) && Adds(6, 10)
  {
    hide Adds, EntryIs;
    Entries();
    SumIs(6, 1, 11, 7, 1, 1, 7, Affine(5, 7));
    SumIs(6, 2, 11, 7, 10, 6, 8, Affine(6, 11));
    SumIs(6, 3, 11, 7, 6, 2, 9, Affine(10, 7));
    SumIs(6, 4, 11, 7, 5, 6, 10, Affine(1, 12));
    SumIs(6, 5, 11, 7, 11, 6, 0, Infinity);
    SumIs(6, 6, 11, 7, 11, 7, 1, Affine(1, 1));
    SumIs(6, 7, 11, 7, 5, 7, 2, Affine(10, 6));
    SumIs(6, 8, 11, 7, 6, 11, 3, Affine(6, 2));
    SumIs(6, 9, 11, 7, 10, 7, 4, Affine(5, 6));
    SumIs(6, 10, 11, 7, 1, 12, 5, Affine(11, 6));
  }

  lemma Sums7()
    ensures Adds(7, 1) && Adds(7, 2) && Adds(7, 3) && Adds(7, 4) && Adds(7, 5)
    ensures Adds(7, 6) && Adds(7, 7) && Adds(7, 8) && Adds(7, 9) && Adds(7, 10)
  {
    hide Adds, EntryIs;
    Entries();
    SumIs(7, 1, 5, 7, 1, 1, 8, Affine(6, 11));
    SumIs(7, 2, 5, 7, 10, 6, 9, Affine(10, 7));
    SumIs(7, 3, 5, 7, 6, 2, 10, Affine(1, 12));
    SumIs(7, 4, 5, 7, 5, 6, 0, Infinity);
    SumIs(7, 5, 5, 7, 11, 6, 1, Affine(1, 1));
    SumIs(7, 6, 5, 7, 11, 7, 2, Affine(10, 6));
    SumIs(7, 7, 5, 7, 5, 7, 3, Affine(6, 2));
    SumIs(7, 8, 5, 7, 6, 11, 4, Affine(5, 6));
    SumIs(7, 9, 5, 7, 10, 7, 5, Affine(11, 6));
    SumIs(7, 10, 5, 7, 1, 12, 6, Affine(11, 7));
  }

  lemma Sums8()
    ensures Adds(8, 1) && Adds(8, 2) && Adds(8, 3) && Adds(8, 4) && Adds(8, 5)
    ensures Adds(8, 6) && Adds(8, 7) && Adds(8, 8) && Adds(8, 9) && Adds(8, 10)
  {
    hide Adds, EntryIs;
    Entries();
    SumIs(8, 1, 6, 11, 1, 1, 9, Affine(10, 7));
    SumIs(8, 2, 6, 11, 10, 6, 10, Affine(1, 12));
    SumIs(8, 3, 6, 11, 6, 2, 0, Infinity);
    SumIs(8, 4, 6, 11, 5, 6, 1, Affine(1, 1));
    SumIs(8, 5, 6, 11, 11, 6, 2, Affine(10, 6));
    SumIs(8, 6, 6, 11, 11, 7, 3, Affine(6, 2));
    SumIs(8, 7, 6, 11, 5, 7, 4, Affine(5, 6));
    SumIs(8, 8, 6, 11, 6, 11, 5, Affine(11, 6));
    SumIs(8, 9, 6, 11, 10, 7, 6, Affine(11, 7));
    SumIs(8, 10, 6, 11, 1, 12, 7, Affine(5, 7));
  }

  lemma Sums9()
    ensures Adds(9, 1) && Adds(9, 2) && Adds(9, 3) && Adds(9, 4) && Adds(9, 5)
    ensures Adds(9, 6) && Adds(9, 7) && Adds(9, 8) && Adds(9, 9) && Adds(9, 10)
  {
    hide Adds, EntryIs;
    Entries();
    SumIs(9, 1, 10, 7, 1, 1, 10, Affine(1, 12));
    SumIs(9, 2, 10, 7, 10, 6, 0, Infinity);
    SumIs(9, 3, 10, 7, 6, 2, 1, Affine(1, 1));
    SumIs(9, 4, 10, 7, 5, 6, 2, Affine(10, 6));
    SumIs(9, 5, 10, 7, 11, 6, 3, Affine(6, 2));
    SumIs(9, 6, 10, 7, 11, 7, 4, Affine(5, 6));
    SumIs(9, 7, 10, 7, 5, 7, 5, Affine(11, 6));
    SumIs(9, 8, 10, 7, 6, 11, 6, Affine(11, 7));
    SumIs(9, 9, 10, 7, 10, 7, 7, Affine(5, 7));
    SumIs(9, 10, 10, 7, 1, 12, 8, Affine(6, 11));
  }

  lemma Sums10()
    ensures Adds(10, 1) && Adds(10, 2) && Adds(10, 3) && Adds(10, 4) && Adds(10, 5)
    ensures Adds(10, 6) && Adds(10, 7) && Adds(10, 8) && Adds(10, 9) && Adds(10, 10)
  {
    hide Adds, EntryIs;
    Entries();
    SumIs(10, 1, 1, 12, 1, 1, 0, Infinity);
    SumIs(10, 2, 1, 12, 10, 6, 1, Affine(1, 1));
    SumIs(10, 3, 1, 12, 6, 2, 2, Affine(10, 6));
    SumIs(10, 4, 1, 12, 5, 6, 3, Affine(6, 2));
    SumIs(10, 5, 1, 12, 11, 6, 4, Affine(5, 6));
    SumIs(10, 6, 1, 12, 11, 7, 5, Affine(11, 6));
    SumIs(10, 7, 1, 12, 5, 7, 6, Affine(11, 7));
    SumIs(10, 8, 1, 12, 6, 11, 7, Affine(5, 7));
    SumIs(10, 9, 1, 12, 10, 7, 8, Affine(6, 11));
    SumIs(10, 10, 1, 12, 1, 12, 9, Affine(10, 7));
  }
  lemma AllSums(i: nat, j: nat)
    requires i < 11 && j < 11
    ensures Adds(i, j)
  {
    if i == 0 || j == 0 {
      NothingAdds(i + j);
    } else {
      Rows(i, j);
    }
  }

  lemma NothingAdds(k: nat)
    requires k < 11
    ensures Adds(0, k) && Adds(k, 0)
  {
    hide Entry;
    Entries();
    SmallMod(k, 11);
  }

  lemma Rows(i: nat, j: nat)
    requires 1 <= i < 11 && 1 <= j < 11
    ensures Adds(i, j)
  {
    hide Adds;
    if i < 6 {
      Sums1();
      Sums2();
      Sums3();
      Sums4();
      Sums5();
    } else {
      Sums6();
      Sums7();
      Sums8();
      Sums9();
      Sums10();
    }
  }

  /** The multiples of (1, 1). */
  lemma PtIsMultiples()
    ensures Multiples(CV, Pt)
  {
    hide Curve.Add, Curve.OnCurve, Entry;
    Primes13();
    forall k: int
      ensures PointAt(CV, Pt, k)
    {
      EntryOnCurve(k % 11);
    }
    forall j: int, k: int
      ensures AddsAt(CV, Pt, j, k)
    {
      AllSums(j % 11, k % 11);
      SumOfRemainders(j, k);
    }
  }

  lemma EntryOnCurve(k: nat)
    requires k < 11
    ensures CV.OnCurve(Entry(k)) && (Entry(k).Infinity? <==> k == 0)
  {
  }

  lemma SumOfRemainders(j: int, k: int)
    ensures (j + k) % 11 == (j % 11 + k % 11) % 11
  {
    CongMod(j, 11);
    CongMod(k, 11);
    CongAdd(j % 11, j, k % 11, k, 11);
  }

  // ---- the constants ----

  /** The curve with the constants that the library keeps: the radix is 16, and the masking point is 5 G. */
  const SW: SwCurve := SwCurve(CV, Field(13, 16, 9), Field(11, 16, 9), 4, 6, 6, 6, Pt(1), Pt(5), Pt(6), Pt(2))

  /** No point has x = 0. */
  lemma NoZeroPoint(y: int)
    ensures !CV.OnCurve(Affine(0, y))
  {
    if 0 <= y < 13 {
      assert CV.a * 0 + CV.b == 6;
      NotSquare(y);
    }
  }

  lemma NotSquare(y: int)
    requires 0 <= y < 13
    ensures (y * y) % 13 != 6
  {
    assert y == 0 || y == 1 || y == 2 || y == 3 || y == 4 || y == 5 || y == 6 || y == 7 || y == 8 || y == 9 || y == 10
           || y == 11 || y == 12;
  }

  lemma FieldsValid()
    ensures Field(13, 16, 9).Valid() && Field(11, 16, 9).Valid() && Pow2(4) == 16 && Pow2(3) == 8 && Pow2(5) == 32
  {
    Primes13();
  }

  lemma Residuals()
    ensures SW.minusA == SW.fp.Qr(-SW.cv.a) && SW.b == SW.fp.Qr(SW.cv.b) && SW.IsThird(2)
  {
  }

  lemma CurveSound()
    ensures SW.Sound()
  {
    hide Field.Valid, Field.Qr, Pow2, Curve.OnCurve, Curve.Add, SwCurve.IsThird, IsPrime, Entry;
    Primes13();
    FieldsValid();
    Residuals();
    Entries();
    forall y: int
      ensures SW.HalvesDz(y)
    {
      NoZeroPoint(y);
    }
  }

  /** What is assumed holds of them. */
  lemma AssumptionsHold()
    ensures SW.Sound() && Base(SW, Pt) && Masked(SW, Pt, 5) && Constants(SW) && SW.g == Pt(1)
  {
    hide SwCurve.Sound, Multiples, Pow2, Entry;
    CurveSound();
    PtIsMultiples();
    FieldsValid();
    Entries();
    SmallMod(1, 11);
    SmallMod(5, 11);
    SmallMod(6, 11);
  }
}
