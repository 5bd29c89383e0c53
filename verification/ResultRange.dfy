/**
 Scores between 0 and 100 give stored totals and term averages between 0 and 100, over every run of
 the result pipeline.
 */
module ResultRange {
  import opened Basics
  import opened Rounding
  import opened Sums
  import opened GradeScale
  import opened SchoolConfig
  import opened Registrations
  import opened SubjectScore
  import opened ResultDb
  import opened ResultAgreement

  /** The scores a row was given, and the weights its school applies to them. */
  ghost predicate InputsInRange(db: Db, r: Registration) {
    var config := GetConfig(db.configs, r.tenant);
    && InRange(r.exam) && (forall k :: 0 <= k < 5 ==> InRange(r.ca[k]))
    && (WeightsValid(config) ==> 1 <= config.caWeight <= 99)
  }

  ghost predicate AllInputsInRange(db: Db) {
    forall r :: r in db.regs ==> InputsInRange(db, r)
  }

  ghost predicate ScoreInRange(u: ScoreUpdate) {
    0.0 <= u.percentage <= 100.0
  }

  /** A row after an update: its scores are the old ones, but for the one recorded. */
  ghost predicate ScoredBy(r: Registration, after: Registration, u: ScoreUpdate) {
    && after.tenant == r.tenant && after.exam == r.exam
    && forall k :: 0 <= k < 5 ==> after.ca[k] == r.ca[k] || after.ca[k] == Some(u.percentage)
  }

  lemma UpdateScoresRows(db: Db, u: ScoreUpdate)
    ensures var after := AfterScore(db, u).0;
            after.configs == db.configs && |after.regs| == |db.regs|
            && forall k :: 0 <= k < |db.regs| ==> ScoredBy(db.regs[k], after.regs[k], u)
  {
    hide AfterTerm, SubjectResultOf;
    var i := IndexOfSubject(db.regs, u.student, u.subject, u.term);
    if i != -1 {
      var scored := WithScore(db.regs[i], u.component, u.percentage);
      var r := scored.(result := Some(SubjectResultOf(scored, GetConfig(db.configs, scored.tenant))));
      assert ScoredBy(db.regs[i], scored, u) && ScoredBy(db.regs[i], r, u);
      TermLeavesRows(db.(regs := db.regs[i := scored][i := r]), r.student, r.term);
    }
  }

  lemma UpdateKeepsInputs(db: Db, u: ScoreUpdate)
    requires AllInputsInRange(db) && ScoreInRange(u)
    ensures AllInputsInRange(AfterScore(db, u).0)
  {
    var after := AfterScore(db, u).0;
    UpdateScoresRows(db, u);
    hide AfterScore;
    forall r | r in after.regs ensures InputsInRange(after, r) {
      var k :| 0 <= k < |after.regs| && after.regs[k] == r;
      assert db.regs[k] in db.regs && InputsInRange(db, db.regs[k]) && ScoredBy(db.regs[k], r, u);
    }
  }

  lemma {:induction false} RunKeepsInputs(db: Db, updates: seq<ScoreUpdate>)
    requires AllInputsInRange(db) && forall u :: u in updates ==> ScoreInRange(u)
    ensures AllInputsInRange(Run(db, updates))
    decreases |updates|
  {
    if updates != [] {
      UpdateKeepsInputs(db, updates[0]);
      RunKeepsInputs(AfterScore(db, updates[0]).0, updates[1..]);
    }
  }

  lemma TotalInRange(db: Db, r: Registration)
    requires SubjectAgrees(db, r) && InputsInRange(db, r)
    ensures 0.0 <= TotalScore(r) <= 100.0
  {
    hide FinalScore, ApplyGradeScale, CaTotal;
    if r.result.Some? {
      var config := GetConfig(db.configs, r.tenant);
      FinalScoreInRange(r.ca, r.exam, config.caWeight, config.examWeight);
    }
  }

  lemma {:induction false} TotalsSum(rows: seq<Registration>)
    requires forall r :: r in rows ==> 0.0 <= TotalScore(r) <= 100.0
    ensures 0.0 <= SumBy(TotalScore, rows) <= 100.0 * |rows| as real
  {
    if rows != [] {
      TotalsSum(rows[1..]);
    }
  }

  lemma AverageOf(total: real, n: nat)
    requires 0.0 <= total <= 100.0 * n as real && 0 < n
    ensures 0.0 <= Round2(total / n as real) <= 100.0
  {
    QuotientBetween(total, n as real, 0.0, 100.0);
    RoundMonotone(0.0, total / n as real);
    RoundMonotone(total / n as real, 100.0);
    RoundHundredths(0);
    RoundHundredths(10000);
  }

  /** In every state whose rows agree and whose inputs are in range, so are the stored figures. */
  lemma FiguresInRange(db: Db)
    requires Agrees(db) && AllInputsInRange(db)
    ensures forall r :: r in db.regs ==> 0.0 <= TotalScore(r) <= 100.0
    ensures forall k :: k in db.terms ==> 0.0 <= db.terms[k].figures.average <= 100.0
  {
    hide FinalScore;
    forall r | r in db.regs ensures 0.0 <= TotalScore(r) <= 100.0 {
      TotalInRange(db, r);
    }
    forall k | k in db.terms ensures 0.0 <= db.terms[k].figures.average <= 100.0 {
      var rows := OfTerm(db.regs, k.0, k.1);
      assert TermAgrees(db, k);
      OfTermMembers(db.regs, k.0, k.1);
      TotalsSum(rows);
      AverageOf(SumBy(TotalScore, rows), |rows|);
    }
  }

  /** After any run of score updates within range, so is every stored total and every stored average. */
  lemma StoredFiguresInRange(db: Db, updates: seq<ScoreUpdate>)
    requires Agrees(db) && AllInputsInRange(db) && forall u :: u in updates ==> ScoreInRange(u)
    ensures var end := Run(db, updates);
            && (forall r :: r in end.regs ==> 0.0 <= TotalScore(r) <= 100.0)
            && (forall k :: k in end.terms ==> 0.0 <= end.terms[k].figures.average <= 100.0)
  {
    hide Agrees, AllInputsInRange, Run;
    RunKeepsAgreement(db, updates);
    RunKeepsInputs(db, updates);
    FiguresInRange(Run(db, updates));
  }
}
