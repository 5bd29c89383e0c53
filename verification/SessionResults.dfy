/**
 Splitting a student's registrations by session, and how the lifetime CGPA relates to the session
 CGPAs (src/result-engine/result-engine.service.ts:173-207, 277-293).
 */
module SessionResults {
  import opened Basics
  import opened Rounding
  import opened Sums
  import opened Sorting
  import opened Registrations
  import opened Gpa

  function OfSession(rows: seq<Registration>, session: Id): seq<Registration> {
    if rows == [] then []
    else if rows[0].session == session then [rows[0]] + OfSession(rows[1..], session)
    else OfSession(rows[1..], session)
  }

  function SessionsOf(rows: seq<Registration>): set<Id> {
    set r | r in rows :: r.session
  }

  lemma {:induction false} OfSessionAppend(rows: seq<Registration>, r: Registration, session: Id)
    ensures OfSession(rows + [r], session)
            == OfSession(rows, session) + if r.session == session then [r] else []
  {
    if rows == [] {
      assert [r][1..] == [];
    } else {
      assert (rows + [r])[1..] == rows[1..] + [r];
      OfSessionAppend(rows[1..], r, session);
    }
  }

  lemma {:induction false} OfSessionMembers(rows: seq<Registration>, session: Id)
    ensures forall r :: r in OfSession(rows, session) <==> r in rows && r.session == session
  {
    if rows != [] {
      OfSessionMembers(rows[1..], session);
      assert rows == [rows[0]] + rows[1..];
    }
  }

  lemma {:induction false} OtherSessionsEmpty(rows: seq<Registration>, session: Id)
    requires session !in SessionsOf(rows)
    ensures OfSession(rows, session) == []
  {
    if rows != [] {
      assert rows[0].session in SessionsOf(rows);
      assert SessionsOf(rows[1..]) <= SessionsOf(rows);
      OtherSessionsEmpty(rows[1..], session);
    }
  }

  /** One pass that files every row under its session, in order of arrival. */
  method GroupBySession(rows: seq<Registration>) returns (groups: map<Id, seq<Registration>>)
    ensures groups.Keys == SessionsOf(rows)
    ensures forall x :: x in groups ==> groups[x] == OfSession(rows, x)
  {
    groups := map[];
    for i := 0 to |rows|
      invariant groups.Keys == SessionsOf(rows[..i])
      invariant forall x :: x in groups ==> groups[x] == OfSession(rows[..i], x)
    {
      var r := rows[i];
      assert rows[..i + 1] == rows[..i] + [r];
      forall x ensures OfSession(rows[..i + 1], x) == OfSession(rows[..i], x) + if r.session == x then [r] else [] {
        OfSessionAppend(rows[..i], r, x);
      }
      if r.session !in groups {
        OtherSessionsEmpty(rows[..i], r.session);
        groups := groups[r.session := []];
      }
      groups := groups[r.session := groups[r.session] + [r]];
    }
    assert rows[..|rows|] == rows;
  }

  // ---------- conservation ----------

  ghost function SumOverSessions(f: Registration -> real, rows: seq<Registration>, sessions: seq<Id>): real {
    if sessions == [] then 0.0
    else SumBy(f, OfSession(rows, sessions[0])) + SumOverSessions(f, rows, sessions[1..])
  }

  lemma {:induction false} AddRow(f: Registration -> real, r: Registration, rest: seq<Registration>, sessions: seq<Id>)
    requires Distinct(sessions)
    ensures SumOverSessions(f, [r] + rest, sessions)
            == SumOverSessions(f, rest, sessions) + if r.session in sessions then f(r) else 0.0
  {
    if sessions != [] {
      AddRow(f, r, rest, sessions[1..]);
      assert ([r] + rest)[1..] == rest;
      assert ([r] + OfSession(rest, sessions[0]))[1..] == OfSession(rest, sessions[0]);
      assert sessions == [sessions[0]] + sessions[1..];
    }
  }

  lemma {:induction false} NoRows(f: Registration -> real, sessions: seq<Id>)
    ensures SumOverSessions(f, [], sessions) == 0.0
  {
    if sessions != [] {
      NoRows(f, sessions[1..]);
    }
  }

  /** Grouping loses nothing and counts nothing twice, for credits and for weighted points alike. */
  lemma {:induction false} GroupingConserves(f: Registration -> real, rows: seq<Registration>, sessions: seq<Id>)
    requires Distinct(sessions) && forall r :: r in rows ==> r.session in sessions
    ensures SumOverSessions(f, rows, sessions) == SumBy(f, rows)
  {
    if rows == [] {
      NoRows(f, sessions);
    } else {
      GroupingConserves(f, rows[1..], sessions);
      AddRow(f, rows[0], rows[1..], sessions);
      assert rows == [rows[0]] + rows[1..];
      assert rows[0] in rows;
    }
  }

  function SessionCgpa(rows: seq<Registration>, session: Id): real {
    Cgpa(OfSession(rows, session))
  }

  function SessionCredits(rows: seq<Registration>, session: Id): real {
    SumBy(Units, OfSession(rows, session))
  }

  /** The credit-weighted sum of the exact session CGPAs. */
  ghost function SumOfMeans(rows: seq<Registration>, sessions: seq<Id>): real {
    if sessions == [] then 0.0
    else ExactCgpa(OfSession(rows, sessions[0])) * SessionCredits(rows, sessions[0]) + SumOfMeans(rows, sessions[1..])
  }

  ghost predicate CreditsNonNegative(rows: seq<Registration>) {
    forall r :: r in rows ==> 0 <= r.creditUnits
  }

  lemma MeanTimesCredits(rows: seq<Registration>)
    requires CreditsNonNegative(rows)
    ensures ExactCgpa(rows) * SumBy(Units, rows) == SumBy(WeightedPoints, rows)
    ensures 0.0 <= SumBy(Units, rows)
  {
    SumByNonNegative(Units, rows);
    if SumBy(Units, rows) == 0.0 {
      forall r | r in rows ensures 0.0 <= Units(r) && (Units(r) == 0.0 ==> WeightedPoints(r) == 0.0) {}
      NoUnitsNoPoints(Units, rows);
    }
  }

  lemma {:induction false} SumOfMeansIsWeighted(rows: seq<Registration>, sessions: seq<Id>)
    requires CreditsNonNegative(rows)
    ensures SumOfMeans(rows, sessions) == SumOverSessions(WeightedPoints, rows, sessions)
  {
    if sessions != [] {
      OfSessionMembers(rows, sessions[0]);
      MeanTimesCredits(OfSession(rows, sessions[0]));
      SumOfMeansIsWeighted(rows, sessions[1..]);
    }
  }

  /** Before rounding, the lifetime CGPA is the credit-weighted mean of the session CGPAs. */
  lemma LifetimeIsWeightedMean(rows: seq<Registration>, sessions: seq<Id>)
    requires CreditsNonNegative(rows)
    requires Distinct(sessions) && forall r :: r in rows ==> r.session in sessions
    ensures ExactCgpa(rows) * SumBy(Units, rows) == SumOfMeans(rows, sessions)
    ensures SumBy(Units, rows) == SumOverSessions(Units, rows, sessions)
  {
    MeanTimesCredits(rows);
    SumOfMeansIsWeighted(rows, sessions);
    GroupingConserves(WeightedPoints, rows, sessions);
    GroupingConserves(Units, rows, sessions);
  }

  ghost predicate MeanWithin(rows: seq<Registration>, session: Id, lo: real, hi: real) {
    SessionCredits(rows, session) > 0.0 ==> lo <= ExactCgpa(OfSession(rows, session)) <= hi
  }

  lemma PointsWithin(rows: seq<Registration>, lo: real, hi: real)
    requires CreditsNonNegative(rows)
    requires SumBy(Units, rows) > 0.0 ==> lo <= ExactCgpa(rows) <= hi
    ensures Times(lo, SumBy(Units, rows)) <= SumBy(WeightedPoints, rows) <= Times(hi, SumBy(Units, rows))
  {
    MeanTimesCredits(rows);
    hide CreditsNonNegative, ExactCgpa, SumBy;
    if SumBy(Units, rows) > 0.0 {
      ScaleBetween(lo, ExactCgpa(rows), hi, SumBy(Units, rows));
    }
  }

  lemma {:induction false} OverSessionsAsSum(f: Registration -> real, rows: seq<Registration>, sessions: seq<Id>,
      perSession: Id -> real)
    requires forall x :: perSession(x) == SumBy(f, OfSession(rows, x))
    ensures SumOverSessions(f, rows, sessions) == SumBy(perSession, sessions)
  {
    if sessions != [] {
      OverSessionsAsSum(f, rows, sessions[1..], perSession);
    }
  }

  lemma MeansBetween(rows: seq<Registration>, sessions: seq<Id>, lo: real, hi: real)
    requires CreditsNonNegative(rows)
    requires forall x :: x in sessions ==> MeanWithin(rows, x, lo, hi)
    ensures Times(lo, SumOverSessions(Units, rows, sessions)) <= SumOverSessions(WeightedPoints, rows, sessions)
    ensures SumOverSessions(WeightedPoints, rows, sessions) <= Times(hi, SumOverSessions(Units, rows, sessions))
  {
    var weighted := x => SumBy(WeightedPoints, OfSession(rows, x));
    var credits := x => SumBy(Units, OfSession(rows, x));
    OverSessionsAsSum(WeightedPoints, rows, sessions, weighted);
    OverSessionsAsSum(Units, rows, sessions, credits);
    forall x | x in sessions ensures Times(lo, credits(x)) <= weighted(x) <= Times(hi, credits(x)) {
      OfSessionMembers(rows, x);
      assert MeanWithin(rows, x, lo, hi);
      PointsWithin(OfSession(rows, x), lo, hi);
    }
    SumByBetween(weighted, credits, sessions, lo, hi);
  }

  /** Among sessions that carry credit, one with the smallest and one with the largest exact CGPA. */
  lemma {:induction false} Extremes(rows: seq<Registration>, sessions: seq<Id>) returns (lowest: Id, highest: Id)
    requires exists x :: x in sessions && SessionCredits(rows, x) > 0.0
    ensures lowest in sessions && SessionCredits(rows, lowest) > 0.0
    ensures highest in sessions && SessionCredits(rows, highest) > 0.0
    ensures forall x :: x in sessions && SessionCredits(rows, x) > 0.0 ==>
      ExactCgpa(OfSession(rows, lowest)) <= ExactCgpa(OfSession(rows, x)) <= ExactCgpa(OfSession(rows, highest))
  {
    var x := sessions[0];
    assert sessions == [x] + sessions[1..];
    if exists y :: y in sessions[1..] && SessionCredits(rows, y) > 0.0 {
      lowest, highest := Extremes(rows, sessions[1..]);
      if SessionCredits(rows, x) > 0.0 {
        var m := ExactCgpa(OfSession(rows, x));
        lowest := if m < ExactCgpa(OfSession(rows, lowest)) then x else lowest;
        highest := if m > ExactCgpa(OfSession(rows, highest)) then x else highest;
      }
    } else {
      lowest, highest := x, x;
    }
  }

  lemma {:induction false} SomeSessionCarriesCredit(rows: seq<Registration>, sessions: seq<Id>)
    requires SumOverSessions(Units, rows, sessions) > 0.0
    ensures exists x :: x in sessions && SessionCredits(rows, x) > 0.0
  {
    if SessionCredits(rows, sessions[0]) <= 0.0 {
      SomeSessionCarriesCredit(rows, sessions[1..]);
    } else {
      assert sessions[0] in sessions;
    }
  }

  lemma {:induction false} ListSessions(rows: seq<Registration>) returns (sessions: seq<Id>)
    ensures Distinct(sessions)
    ensures forall x :: x in sessions <==> x in SessionsOf(rows)
  {
    if rows == [] {
      sessions := [];
    } else {
      sessions := ListSessions(rows[1..]);
      assert rows == [rows[0]] + rows[1..];
      if rows[0].session !in sessions {
        sessions := sessions + [rows[0].session];
      }
    }
  }

  lemma ExactBetween(rows: seq<Registration>, sessions: seq<Id>, lo: real, hi: real)
    requires CreditsNonNegative(rows) && SumBy(Units, rows) > 0.0
    requires Distinct(sessions) && forall r :: r in rows ==> r.session in sessions
    requires forall x :: x in sessions ==> MeanWithin(rows, x, lo, hi)
    ensures lo <= ExactCgpa(rows) <= hi
  {
    GroupingConserves(WeightedPoints, rows, sessions);
    GroupingConserves(Units, rows, sessions);
    var weighted, credits := SumBy(WeightedPoints, rows), SumBy(Units, rows);
    MeansBetween(rows, sessions, lo, hi);
    QuotientBetween(weighted, credits, lo, hi);
  }

  /**
   After rounding, the lifetime CGPA lies between the CGPAs of two sessions that carry credit:
   so between the smallest and the largest of them.
   */
  lemma LifetimeBetweenSessions(rows: seq<Registration>) returns (lowest: Id, highest: Id)
    requires CreditsNonNegative(rows) && SumBy(Units, rows) > 0.0
    ensures lowest in SessionsOf(rows) && SessionCredits(rows, lowest) > 0.0
    ensures highest in SessionsOf(rows) && SessionCredits(rows, highest) > 0.0
    ensures SessionCgpa(rows, lowest) <= Cgpa(rows) <= SessionCgpa(rows, highest)
  {
    var sessions := ListSessions(rows);
    forall r | r in rows ensures r.session in sessions {
      assert r.session in SessionsOf(rows);
    }
    LifetimeIsWeightedMean(rows, sessions);
    SomeSessionCarriesCredit(rows, sessions);
    lowest, highest := Extremes(rows, sessions);
    var lo, hi := ExactCgpa(OfSession(rows, lowest)), ExactCgpa(OfSession(rows, highest));
    ExactBetween(rows, sessions, lo, hi);
    CgpaRoundsExact(rows);
    CgpaRoundsExact(OfSession(rows, lowest));
    CgpaRoundsExact(OfSession(rows, highest));
    RoundMonotone(lo, ExactCgpa(rows));
    RoundMonotone(ExactCgpa(rows), hi);
  }
}
