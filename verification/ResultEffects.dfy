/**
 What one score update leaves in the tables, column by column, said of the rows themselves: the marks and
 weights behind a subject's total, the term and cumulative rows, and whom a position ranks.
 */
module ResultEffects {
  import opened Basics
  import opened Rounding
  import opened Sums
  import opened Sorting
  import opened GradeScale
  import opened SchoolConfig
  import opened Registrations
  import opened SubjectScore
  import opened Gpa
  import opened SessionResults
  import opened ClassPosition
  import opened ResultDb
  import opened ResultAgreement
  import opened ResultReruns

  // ---------- the subject's row ----------

  function Counted(score: Option<real>): nat {
    if score == None then 0 else 1
  }

  /** m is the mean of the CA columns that are not null, zero when all are. */
  ghost predicate IsMean(ca: CaScores, m: real) {
    var n := Counted(ca[0]) + Counted(ca[1]) + Counted(ca[2]) + Counted(ca[3]) + Counted(ca[4]);
    if n == 0 then m == 0.0
    else
      m * n as real == ca[0].GetOr(0.0) + ca[1].GetOr(0.0) + ca[2].GetOr(0.0) + ca[3].GetOr(0.0) + ca[4].GetOr(0.0)
  }

  lemma {:induction false} CountedSum(scores: seq<Option<real>>)
    ensures scores == [] ==> |NonNull(scores)| == 0 && Sum(NonNull(scores)) == 0.0
    ensures scores != [] ==>
              && |NonNull(scores)| == Counted(scores[0]) + |NonNull(scores[1..])|
              && Sum(NonNull(scores)) == scores[0].GetOr(0.0) + Sum(NonNull(scores[1..]))
  {}

  lemma MeanIsAverage(ca: CaScores, m: real)
    requires IsMean(ca, m)
    ensures CaRawAverage(ca) == m
  {
    hide NonNull, Sum;
    CountedSum(ca);
    CountedSum(ca[1..]);
    CountedSum(ca[1..][1..]);
    CountedSum(ca[1..][1..][1..]);
    CountedSum(ca[1..][1..][1..][1..]);
    CountedSum(ca[1..][1..][1..][1..][1..]);
    var n := |NonNull(ca)|;
    if n > 0 {
      Quotient(Sum(NonNull(ca)), n as real, m);
    }
  }

  lemma Quotient(a: real, n: real, m: real)
    requires n > 0.0 && m * n == a
    ensures a / n == m
  {}

  /** A score out of 100 at a weight in percent. */
  function Weighted(score: real, weight: int): real {
    score * weight as real / 100.0
  }

  /** CA total, total, grade and pass, from the row's own columns and its school's weights. */
  ghost predicate GradedBy(row: Registration, config: Config, m: real) {
    && row.result.Some?
    && row.result.value.caTotal == Weighted(m, config.caWeight)
    && row.result.value.total
       == Round2(Weighted(m, config.caWeight) + Weighted(row.exam.GetOr(0.0), config.examWeight))
    && row.result.value.grading == ApplyGradeScale(row.result.value.total, config.gradingScale)
    && (row.result.value.isPassed <==> row.result.value.grading.points >= config.passMark.GetOr(40) as real)
  }

  lemma ShareIsWeighted(x: real, w: int)
    ensures Share(x, w) == Weighted(x, w)
  {
    var v := w as real;
    assert x / 100.0 * v == x * v / 100.0;
  }

  lemma ZeroWeighted(w: int)
    ensures Weighted(0.0, w) == 0.0
  {}

  lemma TotalByWeights(ca: CaScores, exam: Option<real>, a: int, b: int, m: real)
    requires IsMean(ca, m)
    ensures CaTotal(ca, a) == Weighted(m, a)
    ensures FinalScore(ca, exam, a, b) == Round2(Weighted(m, a) + Weighted(exam.GetOr(0.0), b))
  {
    hide IsMean, CaRawAverage, Share, Round2, Weighted;
    MeanIsAverage(ca, m);
    ShareIsWeighted(m, a);
    ShareIsWeighted(exam.GetOr(0.0), b);
    ZeroWeighted(b);
  }

  lemma ResultIsGradedBy(r: Registration, config: Config, m: real)
    requires IsMean(r.ca, m)
    ensures GradedBy(r.(result := Some(SubjectResultOf(r, config))), config, m)
  {
    hide ApplyGradeScale, IsMean, CaTotal, FinalScore, Round2, Weighted;
    TotalByWeights(r.ca, r.exam, config.caWeight, config.examWeight, m);
  }

  /** Row i keeps its scores and is graded by them; every other row is as it was. */
  ghost predicate RowGradedAt(regs: seq<Registration>, after: seq<Registration>, i: nat, config: Config, m: real) {
    && i < |regs| == |after| && after == regs[i := after[i]]
    && after[i].(result := regs[i].result) == regs[i]
    && GradedBy(after[i], config, m)
  }

  /**
   Recalculating a subject: with weights that are unset or do not make 100 nothing is written; otherwise
   the row keeps its scores and is graded by them, and no other registration is touched.
   */
  lemma SubjectRowIsGraded(db: Db, i: nat, m: real)
    requires i < |db.regs| && IsMean(db.regs[i].ca, m)
    ensures var (after, outcome) := AfterSubject(db, i);
            var config := GetConfig(db.configs, db.regs[i].tenant);
            if config.caWeight == 0 || config.examWeight == 0 then after == db && outcome == WeightsNotSet
            else if config.caWeight + config.examWeight != 100 then after == db && outcome == WeightsNotHundred
            else RowGradedAt(db.regs, after.regs, i, config, m)
  {
    hide AfterTerm, SubjectResultOf, IsMean, GradedBy;
    var r := db.regs[i];
    var config := GetConfig(db.configs, r.tenant);
    if WeightsValid(config) {
      ResultIsGradedBy(r, config, m);
      TermLeavesRows(db.(regs := db.regs[i := r.(result := Some(SubjectResultOf(r, config)))]), r.student, r.term);
    }
  }

  // ---------- the score that is recorded ----------

  /** The percentage goes into the column of its component, and the other columns keep what they hold. */
  ghost predicate RecordedIn(before: CaScores, after: CaScores, u: ScoreUpdate) {
    var p := Some(u.percentage);
    && after[0] == (if u.component == Some(CA1) then p else before[0])
    && after[1] == (if u.component == Some(CA2) then p else before[1])
    && after[2] == (if u.component == Some(CA3) then p else before[2])
    && after[3] == (if u.component == Some(CA4) then p else before[3])
    && after[4] == (if u.component == Some(CA5) then p else before[4])
  }

  /** A registration of the student for the subject in the term. */
  predicate RegisteredFor(r: Registration, u: ScoreUpdate) {
    r.student == u.student && r.subject == u.subject && r.term == u.term
  }

  /**
   A score changes nothing when the student is not registered for the subject in the term. Otherwise it is
   recorded in exactly one such registration, whose other columns but the result stay, and the subject is
   recalculated: the registration is then graded by its own scores, if the weights are valid.
   */
  lemma ScoreIsRecorded(db: Db, u: ScoreUpdate) returns (i: int)
    ensures (forall r :: r in db.regs ==> !RegisteredFor(r, u)) ==> AfterScore(db, u) == (db, Done)
    ensures (exists r :: r in db.regs && RegisteredFor(r, u)) ==>
              && 0 <= i < |db.regs| && RegisteredFor(db.regs[i], u)
              && var after := AfterScore(db, u).0;
              && |after.regs| == |db.regs| && after.regs == db.regs[i := after.regs[i]]
              && RecordedIn(db.regs[i].ca, after.regs[i].ca, u)
              && after.regs[i].(ca := db.regs[i].ca, result := db.regs[i].result) == db.regs[i]
              && var config := GetConfig(db.configs, db.regs[i].tenant);
              && (config.caWeight != 0 && config.examWeight != 0 && config.caWeight + config.examWeight == 100 ==>
                  forall m :: IsMean(after.regs[i].ca, m) ==> GradedBy(after.regs[i], config, m))
  {
    hide AfterTerm, SubjectResultOf, GradedBy, IsMean, AfterScore;
    i := IndexOfSubject(db.regs, u.student, u.subject, u.term);
    ScoreShape(db, u);
    if i == -1 {
      NotRegistered(db, u);
    } else {
      assert db.regs[i] in db.regs;
      var scored := WithScore(db.regs[i], u.component, u.percentage);
      var config := GetConfig(db.configs, scored.tenant);
      var graded := scored.(result := Some(SubjectResultOf(scored, config)));
      TermLeavesRows(db.(regs := db.regs[i := graded]), graded.student, graded.term);
      assert RecordedIn(db.regs[i].ca, scored.ca, u);
      forall m | IsMean(scored.ca, m) ensures GradedBy(graded, config, m) {
        ResultIsGradedBy(scored, config, m);
      }
    }
  }

  lemma NotRegistered(db: Db, u: ScoreUpdate)
    requires IndexOfSubject(db.regs, u.student, u.subject, u.term) == -1
    ensures AfterScore(db, u) == (db, Done)
  {}

  // ---------- the term row and the cumulative rows ----------

  /** Totals of a term, rounded average, credits and GPA; a subject without a result counts as zero in the total. */
  lemma TermRowFigures(db: Db, key: (Id, Id), r: Registration)
    requires RowsAgree(db) && key in db.terms
    ensures var rows := OfTerm(db.regs, key.0, key.1);
            var f := db.terms[key].figures;
            && |rows| > 0
            && (r in rows <==> r in db.regs && r.student == key.0 && r.term == key.1)
            && f.total == SumBy(TotalScore, rows)
            && f.average == Round2(f.total / |rows| as real)
            && f.creditUnits == SumBy(Units, rows)
            && f.gpa == (if SumBy(EligibleUnits, rows) == 0.0 then 0.0
                         else Round2(SumBy(WeightedPoints, rows) / SumBy(EligibleUnits, rows)))
    ensures TotalScore(r) == (if r.result.Some? then r.result.value.total else 0.0)
    ensures WeightedPoints(r) == (if r.result.Some? then r.result.value.grading.points * r.creditUnits as real else 0.0)
    ensures Units(r) == r.creditUnits as real
    ensures EligibleUnits(r) == if r.result.Some? then r.creditUnits as real else 0.0
  {
    hide RowsAgree, OfTerm, WeightedGpa, Round2, SumBy;
    assert TermAgrees(db, key) by {
      TermRowAgrees(db, key);
    }
    var rows := OfTerm(db.regs, key.0, key.1);
    OfTermMembers(db.regs, key.0, key.1);
    GpaAsSums(rows);
    assert 0.0 * Units(r) == 0.0;
  }

  lemma TermRowAgrees(db: Db, key: (Id, Id))
    requires RowsAgree(db) && key in db.terms
    ensures TermAgrees(db, key)
  {}

  /** The rounded quotient of weighted points and credits, zero without credits. */
  ghost predicate IsCgpa(rows: seq<Registration>, g: real) {
    var credits := SumBy(Units, rows);
    g == if credits > 0.0 then Round2(SumBy(WeightedPoints, rows) / credits) else 0.0
  }

  /** A student's cumulative row for a session: the session's own figures beside those of the whole career. */
  lemma CumulativeRowFigures(db: Db, key: (Id, Id), r: Registration)
    requires RowsAgree(db) && key in db.cumulative
    ensures var all := OfStudent(db.regs, key.0);
            var session := OfSession(all, key.1);
            var f := db.cumulative[key].figures;
            && (r in all <==> r in db.regs && r.student == key.0)
            && (r in session <==> r in all && r.session == key.1)
            && IsCgpa(session, f.sessionCgpa) && IsCgpa(all, f.lifetimeCgpa)
            && f.creditsEarned == SumBy(Units, session) && f.creditsAttempted == SumBy(Units, all)
  {
    hide OfStudent, OfSession, Round2, SumBy;
    assert CumulativeAgrees(db, key);
    OfStudentMembers(db.regs, key.0);
    OfSessionMembers(OfStudent(db.regs, key.0), key.1);
  }

  /** A cumulative row exists for every session in which a student with a term row is registered, and no other. */
  lemma CumulativeRowsExist(db: Db, student: Id, session: Id)
    requires RowsAgree(db)
    ensures (student, session) in db.cumulative <==>
      && (exists k :: k in db.terms && k.0 == student)
      && exists r :: r in db.regs && r.student == student && r.session == session
  {
    hide OfStudent;
    OfStudentMembers(db.regs, student);
    var rows := OfStudent(db.regs, student);
    assert (student, session) in db.cumulative <==> HasTermResult(db, student) && session in SessionsOf(rows);
    if r :| r in db.regs && r.student == student && r.session == session {
      assert r in rows;
    }
  }

  /** Whom a recalculation of a term refuses, and when it has nothing to do. */
  lemma TermAnswers(db: Db, student: Id, term: Id)
    ensures var (after, outcome) := AfterTerm(db, student, term);
            var registered := exists r :: r in db.regs && r.student == student && r.term == term;
            var profiled := exists p :: p in db.profiles && p.user == student;
            && outcome == (if student in db.users && (!registered || profiled) then Done else UserNotFound)
            && (!(student in db.users && registered && profiled) ==> after == db)
            && (student in db.users && registered && profiled ==>
                && (student, term) in after.terms
                && after.terms == db.terms[(student, term) := after.terms[(student, term)]]
                && after.regs == db.regs && after.configs == db.configs
                && after.users == db.users && after.profiles == db.profiles)
  {
    hide OfTerm, TermFiguresOf, Position, ClassResults, AfterCgpa, UpsertedTerm;
    OfTermMembers(db.regs, student, term);
    var rows := OfTerm(db.regs, student, term);
    assert rows != [] ==> rows[0] in rows;
    if student in db.users && rows != [] && ProfileOf(db.profiles, student).Some? {
      var classId := ProfileOf(db.profiles, student).value.classId;
      var place := Position(ClassResults(db.profiles, classId, term, db.terms), student);
      var written := db.(terms := db.terms[(student, term) := UpsertedTerm(db, student, term, place)]);
      CgpaFrame(written, student);
    }
  }

  /** No other registration comes before this one: those without a result first, then the highest totals. */
  ghost predicate ComesFirst(r: Registration, rows: seq<Registration>) {
    r in rows && forall q :: q in rows ==>
      r.result.None? || (q.result.Some? && q.result.value.total <= r.result.value.total)
  }

  predicate TakesPlace(row: TermResult, r: Registration) {
    row.classId == r.classId && row.session == r.session
  }

  /** A term row written for the first time takes the school of the student, and class and session of that one. */
  lemma NewTermRow(db: Db, student: Id, term: Id, place: (nat, nat))
    requires student in db.users && OfTerm(db.regs, student, term) != [] && (student, term) !in db.terms
    ensures var row := UpsertedTerm(db, student, term, place);
            && row.tenant == db.users[student] && row.position == place.0 && row.outOf == place.1
            && exists r :: ComesFirst(r, OfTerm(db.regs, student, term)) && TakesPlace(row, r)
  {
    hide OfTerm, TermFiguresOf;
    var rows := OfTerm(db.regs, student, term);
    var sorted := Sort(TotalDescending, rows);
    SameElements(sorted, rows);
    SortOrdered(TotalDescending, rows);
    hide Sort;
    forall q | q in rows
      ensures sorted[0].result.None? || (q.result.Some? && q.result.value.total <= sorted[0].result.value.total) {
      assert q in sorted;
      var k :| 0 <= k < |sorted| && sorted[k] == q;
      assert k == 0 || TotalDescending(sorted[0], sorted[k]);
    }
    assert sorted[0] in rows && ComesFirst(sorted[0], rows);
    assert TakesPlace(UpsertedTerm(db, student, term, place), sorted[0]);
  }

  // ---------- the position ----------

  /** Whom a position ranks: the students of the class who hold a row of the term, each with its stored average. */
  lemma {:induction false} RankedStudents(profiles: seq<Profile>, classId: Option<Id>, term: Id,
      terms: map<(Id, Id), TermResult>, c: ClassResult)
    ensures c in ClassResults(profiles, classId, term, terms) <==>
      && (c.student, term) in terms && c.average == terms[(c.student, term)].figures.average
      && Profile(c.student, classId) in profiles
  {
    if profiles != [] {
      RankedStudents(profiles[1..], classId, term, terms, c);
      assert profiles == [profiles[0]] + profiles[1..];
    }
  }

  /** The stored position is the student's place among these, as the rows stood before the student's own was written. */
  lemma PositionIsStored(db: Db, student: Id, term: Id)
    requires Known(db, student) && OfTerm(db.regs, student, term) != []
    ensures var after := AfterTerm(db, student, term).0;
            var classId := ProfileOf(db.profiles, student).value.classId;
            var ranked := ClassResults(db.profiles, classId, term, db.terms);
            && (student, term) in after.terms
            && after.terms[(student, term)].position == Rank(ranked, student)
            && after.terms[(student, term)].outOf == |ranked|
  {
    hide OfTerm, ClassResults, TermFiguresOf, AfterCgpa, Rank;
    var classId := ProfileOf(db.profiles, student).value.classId;
    var ranked := ClassResults(db.profiles, classId, term, db.terms);
    var place := Position(ranked, student);
    SortKeepsCount(ranked);
    PositionParts(ranked, student);
    hide Position;
    var written := db.(terms := db.terms[(student, term) := UpsertedTerm(db, student, term, place)]);
    CgpaFrame(written, student);
  }

  /** A student who holds no row of the term is ranked last, after everyone in the class who does. */
  lemma AbsentIsLast(ranked: seq<ClassResult>, student: Id)
    requires forall c :: c in ranked ==> c.student != student
    ensures Rank(ranked, student) == |ranked|
  {
    SortKeepsCount(ranked);
    SameElements(Sort(HigherAverage, ranked), ranked);
    hide Sort, HigherAverage;
    var sorted := Sort(HigherAverage, ranked);
    assert forall k :: 0 <= k < |sorted| ==> sorted[k] in ranked;
  }

  lemma SortKeepsCount(ranked: seq<ClassResult>)
    ensures |Sort(HigherAverage, ranked)| == |ranked|
  {
    var sorted := Sort(HigherAverage, ranked);
    assert |multiset(sorted)| == |sorted| && |multiset(ranked)| == |ranked|;
  }

  lemma PositionParts(ranked: seq<ClassResult>, student: Id)
    requires |Sort(HigherAverage, ranked)| == |ranked|
    ensures Position(ranked, student) == (Rank(ranked, student), |ranked|)
  {}
}
