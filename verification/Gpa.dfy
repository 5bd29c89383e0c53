/**
 Credit-weighted grade points: the calculator's version leaves ungraded subjects out
 (src/assessment/gpa-calculator.service.ts:7-31), the cumulative one counts them as zero
 (src/result-engine/result-engine.service.ts:177-189).
 */
module Gpa {
  import opened Rounding
  import opened Sums
  import opened Registrations

  function Eligible(rows: seq<Registration>): seq<Registration> {
    if rows == [] then []
    else if rows[0].result.Some? then [rows[0]] + Eligible(rows[1..])
    else Eligible(rows[1..])
  }

  function WeightedGpa(rows: seq<Registration>): real {
    var eligible := Eligible(rows);
    if eligible == [] then 0.0
    else
      var weighted := SumBy(WeightedPoints, eligible);
      var credits := SumBy(Units, eligible);
      if credits == 0.0 then 0.0 else Round2(weighted / credits)
  }

  /** The quotient that the cumulative results round. */
  function ExactCgpa(rows: seq<Registration>): real {
    var credits := SumBy(Units, rows);
    if credits > 0.0 then SumBy(WeightedPoints, rows) / credits else 0.0
  }

  function Cgpa(rows: seq<Registration>): real {
    var credits := SumBy(Units, rows);
    if credits > 0.0 then Round2(SumBy(WeightedPoints, rows) / credits) else 0.0
  }

  lemma CgpaRoundsExact(rows: seq<Registration>)
    ensures Cgpa(rows) == Round2(ExactCgpa(rows))
  {
    RoundHundredths(0);
  }

  function EligibleUnits(r: Registration): real {
    if r.result.Some? then Units(r) else 0.0
  }

  lemma {:induction false} EligibleSums(rows: seq<Registration>)
    ensures SumBy(WeightedPoints, Eligible(rows)) == SumBy(WeightedPoints, rows)
    ensures SumBy(Units, Eligible(rows)) == SumBy(EligibleUnits, rows)
  {
    if rows != [] {
      EligibleSums(rows[1..]);
      if rows[0].result.Some? {
        assert ([rows[0]] + Eligible(rows[1..]))[1..] == Eligible(rows[1..]);
      }
    }
  }

  lemma GpaAsSums(rows: seq<Registration>)
    ensures WeightedGpa(rows)
            == if SumBy(EligibleUnits, rows) == 0.0 then 0.0
               else Round2(SumBy(WeightedPoints, rows) / SumBy(EligibleUnits, rows))
  {
    EligibleSums(rows);
  }

  lemma WeightedGpaPermutation(a: seq<Registration>, b: seq<Registration>)
    requires multiset(a) == multiset(b)
    ensures WeightedGpa(a) == WeightedGpa(b)
  {
    GpaAsSums(a);
    GpaAsSums(b);
    SumByPermutation(EligibleUnits, a, b);
    SumByPermutation(WeightedPoints, a, b);
  }

  lemma RowBetween(r: Registration, lo: real, hi: real)
    requires 0 <= r.creditUnits
    requires r.result.Some? ==> lo <= Points(r) <= hi
    ensures Times(lo, EligibleUnits(r)) <= WeightedPoints(r) <= Times(hi, EligibleUnits(r))
  {
    if r.result.Some? {
      ScaleBetween(lo, Points(r), hi, Units(r));
    } else {
      assert WeightedPoints(r) == 0.0 * Units(r);
    }
  }

  lemma WeightedBetween(rows: seq<Registration>, lo: real, hi: real)
    requires forall r :: r in rows ==> 0 <= r.creditUnits
    requires forall r :: r in rows && r.result.Some? ==> lo <= Points(r) <= hi
    ensures Times(lo, SumBy(EligibleUnits, rows)) <= SumBy(WeightedPoints, rows)
    ensures SumBy(WeightedPoints, rows) <= Times(hi, SumBy(EligibleUnits, rows))
  {
    forall r | r in rows
      ensures Times(lo, EligibleUnits(r)) <= WeightedPoints(r) <= Times(hi, EligibleUnits(r))
    {
      RowBetween(r, lo, hi);
    }
    SumByBetween(WeightedPoints, EligibleUnits, rows, lo, hi);
  }

  /** The GPA is within half a hundredth of a mean that lies among the grade points it averages. */
  lemma WeightedGpaWithinPoints(rows: seq<Registration>, lo: real, hi: real) returns (mean: real)
    requires forall r :: r in rows ==> 0 <= r.creditUnits
    requires forall r :: r in rows && r.result.Some? ==> lo <= Points(r) <= hi
    requires SumBy(Units, Eligible(rows)) > 0.0
    ensures lo <= mean <= hi
    ensures -0.005 <= WeightedGpa(rows) - mean <= 0.005
  {
    EligibleSums(rows);
    GpaAsSums(rows);
    WeightedBetween(rows, lo, hi);
    mean := MeanBetween(SumBy(WeightedPoints, rows), SumBy(EligibleUnits, rows), lo, hi);
  }

  lemma MeanBetween(w: real, c: real, lo: real, hi: real) returns (mean: real)
    requires c > 0.0 && Times(lo, c) <= w <= Times(hi, c)
    ensures mean == w / c && lo <= mean <= hi
    ensures -0.005 <= Round2(w / c) - mean <= 0.005
  {
    mean := w / c;
    QuotientBetween(w, c, lo, hi);
    RoundNear(mean);
  }

  lemma {:induction false} NoUnitsNoPoints(f: Registration -> real, rows: seq<Registration>)
    requires forall r :: r in rows ==> 0.0 <= f(r) && (f(r) == 0.0 ==> WeightedPoints(r) == 0.0)
    requires SumBy(f, rows) == 0.0
    ensures SumBy(WeightedPoints, rows) == 0.0
  {
    if rows != [] {
      SumByNonNegative(f, rows[1..]);
      NoUnitsNoPoints(f, rows[1..]);
    }
  }

  lemma LargerDivisor(w: real, e: real, c: real)
    requires 0.0 <= w && 0.0 < e <= c
    ensures Round2(w / c) <= Round2(w / e)
  {
    assert w / c <= w / e by {
      assert w / e * e == w;
      ScaleBetween(e, e, c, w / e);
      QuotientBetween(w, c, 0.0, w / e);
    }
    RoundMonotone(w / c, w / e);
  }

  /** Counting ungraded subjects as zero never raises the figure; with none it is the same figure. */
  lemma CgpaNeverAboveGpa(rows: seq<Registration>)
    requires forall r :: r in rows ==> 0 <= r.creditUnits && 0.0 <= Points(r)
    ensures Cgpa(rows) <= WeightedGpa(rows)
    ensures (forall r :: r in rows ==> r.result.Some?) ==> Cgpa(rows) == WeightedGpa(rows)
  {
    hide WeightedGpa, SumBy, Round2;
    var w, c, e := SumBy(WeightedPoints, rows), SumBy(Units, rows), SumBy(EligibleUnits, rows);
    GpaAsSums(rows);
    forall r | r in rows ensures 0.0 <= WeightedPoints(r) {
      ScaleBetween(0.0, Points(r), Points(r), Units(r));
    }
    SumByNonNegative(WeightedPoints, rows);
    SumByNonNegative(EligibleUnits, rows);
    SumByLe(EligibleUnits, Units, rows);
    assert Round2(0.0) == 0.0 by {
      RoundHundredths(0);
    }
    if e == 0.0 {
      NoUnitsNoPoints(EligibleUnits, rows);
    } else {
      LargerDivisor(w, e, c);
    }
    if forall r :: r in rows ==> r.result.Some? {
      SumByLe(Units, EligibleUnits, rows);
    }
  }
}
