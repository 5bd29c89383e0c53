/**
 Grading and the result engine together, over every run of auto-grading jobs and gradings by hand on any
 submissions, jobs early, late or repeated: as long as the answers named in each request fit the marks of
 the assessment, what is stored for students stays within 0..100.
 */
module GradingRuns {
  import opened Basics
  import opened Sums
  import opened Registrations
  import opened ResultDb
  import opened ResultAgreement
  import opened ResultRange
  import opened ResultReruns
  import opened GradingDb
  import opened GradingSafety
  import opened GradingRequests

  /** The grading tables and those of the result engine. */
  datatype World = World(t: Tables, db: Db)

  datatype Call =
    | AutoGrade(submission: Id)
    | GradeByHand(submission: Id, grades: seq<Grade>)

  function EffectOf(t: Tables, call: Call): Effect {
    match call
    case AutoGrade(submission) => AutoGraded(t, submission)
    case GradeByHand(submission, grades) => ManuallyGraded(t, submission, grades)
  }

  function After(w: World, call: Call): World {
    World(EffectOf(w.t, call).tables, AfterFeed(w.db, EffectOf(w.t, call).feed))
  }

  function Run(w: World, calls: seq<Call>): World
    decreases |calls|
  {
    if calls == [] then w else Run(After(w, calls[0]), calls[1..])
  }

  /** Papers by assessment: each submission answers its own, and no more is stored than it earns. */
  ghost predicate SubmissionFits(t: Tables, papers: map<Id, seq<Question>>, submission: Id)
    requires submission in t.submissions
  {
    Resolves(t, submission) ==>
      var a := t.submissions[submission].assessment;
      && a in papers && MarksNonNegative(papers[a]) && t.assessments[a].totalMarks == TotalMarks(papers[a])
      && AnswersPaper(t, submission, papers[a]) && StoredAutoFits(t, submission)
  }

  ghost predicate AllFit(t: Tables, papers: map<Id, seq<Question>>) {
    forall s :: s in t.submissions ==> SubmissionFits(t, papers, s)
  }

  /** The request gives no negative marks, and what it names fits: a condition on the answers it names. */
  ghost predicate Proper(t: Tables, call: Call) {
    call.GradeByHand? && Resolves(t, call.submission) ==>
      MarksGiven(call.grades) && Fits(t, call.submission, Names(call.grades))
  }

  ghost predicate ProperRun(w: World, calls: seq<Call>)
    decreases |calls|
  {
    calls != [] ==> Proper(w.t, calls[0]) && ProperRun(After(w, calls[0]), calls[1..])
  }

  // ---------- what a call leaves alone ----------

  /** The row of a submission after a call: the same submission, with an auto score that it had or has earned. */
  ghost predicate RowRewritten(t: Tables, submission: Id, after: Submission)
    requires submission in t.submissions
  {
    var s := t.submissions[submission];
    && after.assessment == s.assessment
    && (after.autoScore == s.autoScore || after.autoScore == Some(s.autoScore.GetOr(0.0))
        || after.autoScore == Some(AutoScore(t, submission)))
  }

  ghost predicate OnlyGrades(t: Tables, after: Tables) {
    && after == t.(submissions := after.submissions, answers := after.answers)
    && SameAnswers(t.answers, after.answers)
    && after.submissions.Keys == t.submissions.Keys
    && forall s :: s in t.submissions ==> RowRewritten(t, s, after.submissions[s])
  }

  lemma FinalisedOnlyGrades(t: Tables, t': Tables, submission: Id, auto: real, manual: Option<real>)
    requires t' == t.(answers := t'.answers) && SameAnswers(t.answers, t'.answers)
    requires submission in t.submissions ==>
               auto == AutoScore(t, submission) || auto == t.submissions[submission].autoScore.GetOr(0.0)
    ensures OnlyGrades(t, Finalised(t', submission, auto, manual).tables)
  {
    hide AutoScore, SameAnswers, Finalised;
    if Resolves(t', submission) {
      FinalisedRow(t', submission, auto, manual);
    } else {
      UnresolvedFinalises(t', submission, auto, manual);
    }
  }

  lemma UnresolvedFinalises(t: Tables, submission: Id, auto: real, manual: Option<real>)
    requires !Resolves(t, submission)
    ensures Finalised(t, submission, auto, manual).tables == t && Finalised(t, submission, auto, manual).feed == None
  {}

  lemma JobOnlyGrades(t: Tables, submission: Id)
    ensures OnlyGrades(t, AutoGraded(t, submission).tables)
  {
    hide AutoScore, Finalised, HasManual, Markable, Marked;
    var marked := t.(answers := MarkedAll(t, t.answers, submission));
    MarkedAnswersSame(t, submission);
    NothingRegraded(t);
    if submission in t.submissions {
      FinalisedOnlyGrades(t, marked, submission, AutoScore(t, submission), None);
    }
  }

  lemma MarkedAnswersSame(t: Tables, submission: Id)
    ensures SameAnswers(t.answers, MarkedAll(t, t.answers, submission))
  {}

  lemma NothingRegraded(t: Tables)
    ensures OnlyGrades(t, t)
  {}

  lemma HandOnlyGrades(t: Tables, submission: Id, grades: seq<Grade>)
    ensures OnlyGrades(t, ManuallyGraded(t, submission, grades).tables)
  {
    hide AutoScore, Finalised, Transacted, SameAnswers, SumBy;
    var answers := Transacted(t, t.answers, grades).0;
    TransactionKeepsAnswers(t, t.answers, grades);
    NothingRegraded(t);
    var auto := if submission in t.submissions then t.submissions[submission].autoScore.GetOr(0.0) else 0.0;
    FinalisedOnlyGrades(t, t.(answers := answers), submission, auto, Some(SumBy(GradeMarks, grades)));
  }

  // ---------- the invariant ----------

  lemma SameAnswersSamePaper(t: Tables, after: Tables, submission: Id, paper: seq<Question>)
    requires AnswersPaper(t, submission, paper) && after.questions == t.questions
    requires SameAnswers(t.answers, after.answers)
    ensures AnswersPaper(after, submission, paper)
  {
    forall a | a in after.answers && a.submission == submission
      ensures a.question in after.questions && after.questions[a.question] in paper
              && after.questions[a.question].id == a.question
    {
      var k :| 0 <= k < |after.answers| && after.answers[k] == a;
      assert t.answers[k] in t.answers;
    }
  }

  lemma OnlyGradesKeepsFits(t: Tables, after: Tables, papers: map<Id, seq<Question>>)
    requires AllFit(t, papers) && OnlyGrades(t, after)
    ensures AllFit(after, papers)
  {
    hide AnswersPaper, SameAnswers, AutoScore, MarksNonNegative, TotalMarks;
    forall s | s in after.submissions ensures SubmissionFits(after, papers, s) {
      assert SubmissionFits(t, papers, s) && RowRewritten(t, s, after.submissions[s]);
      AutoScoreIgnoresMarks(t, after, s);
      if Resolves(after, s) {
        var paper := papers[t.submissions[s].assessment];
        SameAnswersSamePaper(t, after, s, paper);
        AutoScoreNonNegative(t, s, paper);
      }
    }
  }

  ghost predicate FeedInRange(feed: Option<ScoreUpdate>) {
    feed.Some? ==> ScoreInRange(feed.value)
  }

  /** A total of zero marks yields no percentage, so none is passed on. */
  lemma ShareFed(total: real, max: real, fed: real)
    requires 0.0 <= total <= max && PercentageOf(total, max) == Number(fed)
    ensures 0.0 <= fed <= 100.0
  {
    hide Sums.Times;
    ShareOfTotal(total, max);
  }

  lemma JobFeedsInRange(t: Tables, papers: map<Id, seq<Question>>, submission: Id)
    requires AllFit(t, papers)
    ensures FeedInRange(AutoGraded(t, submission).feed)
  {
    hide AnswersPaper, MarksNonNegative, TotalMarks, HasManual, Markable, PercentageOf, Finalised;
    var e := AutoGraded(t, submission);
    if e.feed.Some? {
      var a := t.submissions[submission].assessment;
      assert SubmissionFits(t, papers, submission);
      AutoScoreNonNegative(t, submission, papers[a]);
      FinalisedRow(t.(answers := MarkedAll(t, t.answers, submission)), submission, AutoScore(t, submission), None);
      ShareFed(AutoScore(t, submission), t.assessments[a].totalMarks, e.feed.value.percentage);
    }
  }

  lemma HandFeedsInRange(t: Tables, papers: map<Id, seq<Question>>, submission: Id, grades: seq<Grade>)
    requires AllFit(t, papers) && Proper(t, GradeByHand(submission, grades))
    ensures FeedInRange(ManuallyGraded(t, submission, grades).feed)
  {
    hide AnswersPaper, MarksNonNegative, TotalMarks, PercentageOf, ManuallyGraded, FullMarks, SumBy, AutoScore;
    var e := ManuallyGraded(t, submission, grades);
    if e.feed.Some? {
      FeedsOnlyIfGraded(t, submission, grades);
      assert SubmissionFits(t, papers, submission);
      GradedRow(t, submission, grades);
      AcceptedWithinFull(t, t.answers, grades);
      SumByNonNegative(GradeMarks, grades);
      var max := t.assessments[t.submissions[submission].assessment].totalMarks;
      ShareFed(StoredAuto(t, submission) + SumBy(GradeMarks, grades), max, e.feed.value.percentage);
    }
  }

  lemma FeedsOnlyIfGraded(t: Tables, submission: Id, grades: seq<Grade>)
    requires ManuallyGraded(t, submission, grades).feed.Some?
    ensures Resolves(t, submission) && ManuallyGraded(t, submission, grades).outcome == Graded
  {
    hide Transacted, SumBy, Feed, ScoreOf;
  }

  /** A call keeps every submission fitting its paper, and passes on nothing outside 0..100. */
  lemma CallKeepsFits(t: Tables, papers: map<Id, seq<Question>>, call: Call)
    requires AllFit(t, papers) && Proper(t, call)
    ensures AllFit(EffectOf(t, call).tables, papers) && FeedInRange(EffectOf(t, call).feed)
  {
    hide AllFit, AutoGraded, ManuallyGraded, Proper, OnlyGrades, FeedInRange;
    match call
    case AutoGrade(submission) =>
      JobOnlyGrades(t, submission);
      OnlyGradesKeepsFits(t, AutoGraded(t, submission).tables, papers);
      JobFeedsInRange(t, papers, submission);
    case GradeByHand(submission, grades) =>
      HandOnlyGrades(t, submission, grades);
      OnlyGradesKeepsFits(t, ManuallyGraded(t, submission, grades).tables, papers);
      HandFeedsInRange(t, papers, submission, grades);
  }

  // ---------- runs ----------

  /** All that a run of grading calls keeps. */
  ghost predicate Sound(w: World, papers: map<Id, seq<Question>>) {
    AllFit(w.t, papers) && Agrees(w.db) && AllInputsInRange(w.db)
  }

  lemma CallKeepsSound(w: World, papers: map<Id, seq<Question>>, call: Call)
    requires Sound(w, papers) && Proper(w.t, call)
    ensures Sound(After(w, call), papers)
  {
    hide AllFit, Agrees, AllInputsInRange, EffectOf, AfterScore, Proper;
    CallKeepsFits(w.t, papers, call);
    var feed := EffectOf(w.t, call).feed;
    if feed.Some? {
      ScoreKeepsAgreement(w.db, feed.value);
      UpdateKeepsInputs(w.db, feed.value);
    }
  }

  lemma {:induction false} RunKeepsSound(w: World, papers: map<Id, seq<Question>>, calls: seq<Call>)
    requires Sound(w, papers) && ProperRun(w, calls)
    ensures Sound(Run(w, calls), papers)
    decreases |calls|
  {
    hide Sound, After, Proper;
    if calls != [] {
      CallKeepsSound(w, papers, calls[0]);
      RunKeepsSound(After(w, calls[0]), papers, calls[1..]);
    }
  }

  /**
   After any run of gradings, the derived rows agree with the registrations, and every stored total and
   every stored term average lies within 0..100.
   */
  lemma GradingKeepsFiguresInRange(w: World, papers: map<Id, seq<Question>>, calls: seq<Call>)
    requires Sound(w, papers) && ProperRun(w, calls)
    ensures var end := Run(w, calls).db;
            && Agrees(end)
            && (forall r :: r in end.regs ==> 0.0 <= TotalScore(r) <= 100.0)
            && (forall k :: k in end.terms ==> 0.0 <= end.terms[k].figures.average <= 100.0)
  {
    hide Agrees, AllInputsInRange, AllFit, ProperRun;
    RunKeepsSound(w, papers, calls);
    FiguresInRange(Run(w, calls).db);
  }

  // ---------- a repeated job ----------

  /** The job repeated: its own tables and every figure of the engine stay; only positions may move. */
  lemma JobAgain(w: World, submission: Id)
    ensures var once := After(w, AutoGrade(submission));
            var twice := After(once, AutoGrade(submission));
            twice.t == once.t && SameButPositions(once.db, twice.db)
  {
    hide AutoGraded, AfterScore, SameButPositions;
    RerunChangesNothing(w.t, submission);
    var feed := AutoGraded(w.t, submission).feed;
    if feed.Some? {
      ScoreAgain(w.db, feed.value);
    } else {
      SamePositionsAlways(w.db);
    }
  }
}
