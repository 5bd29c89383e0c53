/** Grading as it runs: scores accumulated answer by answer, rows written, the result engine called. */
module GradingService {
  import opened Basics
  import opened Sums
  import opened SchoolConfig
  import opened ResultDb
  import opened GradingDb
  import opened ResultAgreement
  import Engine = ResultEngine

  /** Whatever grading passes on, the result engine's derived rows stay in agreement. */
  lemma FeedKeepsAgreement(db: Db, feed: Option<ScoreUpdate>)
    ensures Agrees(db) ==> Agrees(AfterFeed(db, feed))
  {
    if Agrees(db) && feed.Some? {
      ScoreKeepsAgreement(db, feed.value);
    }
  }

  lemma AppendCredit(credits: seq<Credit>, c: Credit)
    ensures SumBy(MarksOf, credits + [c]) == SumBy(MarksOf, credits) + c.marks
  {
    SumByConcat(MarksOf, credits, [c]);
    assert [c][1..] == [];
  }

  /** The state of the marking loop after a prefix of the answers. */
  ghost predicate MarkedUpTo(t: Tables, prefix: seq<Answer>, submission: Id, marked: seq<Answer>, autoScore: real,
      hasManual: bool) {
    && marked == MarkedAll(t, prefix, submission)
    && autoScore == SumBy(MarksOf, AutoCredits(t, prefix, submission))
    && (hasManual <==> exists a :: a in prefix && ManualAnswer(t, a, submission))
    && forall a :: a in prefix ==> Markable(t, a, submission)
  }

  lemma MarkOne(t: Tables, prefix: seq<Answer>, a: Answer, submission: Id, marked: seq<Answer>, autoScore: real,
      hasManual: bool)
    requires MarkedUpTo(t, prefix, submission, marked, autoScore, hasManual) && Markable(t, a, submission)
    ensures MarkedUpTo(t, prefix + [a], submission, marked + [Marked(t, a, submission)],
                       autoScore + (if AutoAnswer(t, a, submission) then CreditFor(t, a).marks else 0.0),
                       hasManual || ManualAnswer(t, a, submission))
  {
    hide IsRight;
    var longer := prefix + [a];
    assert longer[..|prefix|] == prefix && longer[|longer| - 1] == a;
    assert forall b :: b in longer <==> b in prefix || b == a;
    assert MarkedAll(t, longer, submission) == marked + [Marked(t, a, submission)];
    if AutoAnswer(t, a, submission) {
      assert AutoCredits(t, longer, submission) == AutoCredits(t, prefix, submission) + [CreditFor(t, a)];
      AppendCredit(AutoCredits(t, prefix, submission), CreditFor(t, a));
    } else {
      assert AutoCredits(t, longer, submission) == AutoCredits(t, prefix, submission);
    }
  }

  lemma NothingMarked(t: Tables, submission: Id)
    ensures MarkedUpTo(t, [], submission, [], 0.0, false)
  {}

  lemma AllMarked(t: Tables, submission: Id, marked: seq<Answer>, autoScore: real, hasManual: bool)
    requires MarkedUpTo(t, t.answers, submission, marked, autoScore, hasManual)
    ensures marked == MarkedAll(t, t.answers, submission) && autoScore == AutoScore(t, submission)
    ensures hasManual == HasManual(t, submission)
    ensures forall a :: a in t.answers ==> Markable(t, a, submission)
  {}

  class GradingService {
    const engine: Engine.ResultEngine
    var t: Tables

    constructor (engine: Engine.ResultEngine, t: Tables)
      ensures this.engine == engine && this.t == t
    {
      this.engine, this.t := engine, t;
    }

    method FinaliseSubmissionScore(submission: Id, auto: real, manual: Option<real>)
        returns (outcome: GradingDb.Outcome, engineOutcome: Option<ResultDb.Outcome>, ghost feed: Option<ScoreUpdate>)
      requires UniqueIds(engine.regs)
      modifies this, engine
      ensures Effect(t, feed, outcome) == Finalised(old(t), submission, auto, manual)
      ensures engine.State() == AfterFeed(old(engine.State()), feed)
        && engineOutcome == FeedOutcome(old(engine.State()), feed)
      ensures old(Agrees(engine.State())) ==> Agrees(engine.State())
    {
      hide PercentageOf, ScoreOf, AfterScore, Agrees;
      ghost var before := engine.State();
      engineOutcome, feed := None, None;
      if submission !in t.submissions || t.submissions[submission].assessment !in t.assessments {
        return GradingDb.SubmissionNotFound, None, feed;
      }
      var s := t.submissions[submission];
      var a := t.assessments[s.assessment];
      var config := GetConfig(t.configs, s.tenant);
      var total := auto + manual.GetOr(0.0);
      var percentage := PercentageOf(total, a.totalMarks);
      var score := ScoreOf(total, a, config);
      t := t.(submissions :=
        t.submissions[submission := s.(autoScore := Some(auto), manualScore := manual, score := Some(score))]);
      if a.isExamComponent && percentage.Number? {
        var update := ScoreUpdate(s.student, a.subject, a.term, a.component, percentage.value);
        feed := Some(update);
        var result := engine.UpdateSubjectScore(update);
        engineOutcome := Some(result);
      }
      FeedKeepsAgreement(before, feed);
      outcome := Graded;
    }

    method AutoGradeSubmission(submission: Id)
        returns (outcome: GradingDb.Outcome, engineOutcome: Option<ResultDb.Outcome>, ghost feed: Option<ScoreUpdate>)
      requires UniqueIds(engine.regs)
      modifies this, engine
      ensures Effect(t, feed, outcome) == AutoGraded(old(t), submission)
      ensures engine.State() == AfterFeed(old(engine.State()), feed)
        && engineOutcome == FeedOutcome(old(engine.State()), feed)
      ensures old(Agrees(engine.State())) ==> Agrees(engine.State())
    {
      hide IsRight, Finalised, AfterScore, MarkedUpTo, Agrees;
      engineOutcome, feed := None, None;
      if submission !in t.submissions || t.submissions[submission].assessment !in t.assessments {
        return GradingDb.SubmissionNotFound, None, feed;
      }
      var autoScore := 0.0;
      var marked: seq<Answer> := [];
      var hasManual := false;
      NothingMarked(t, submission);
      for i := 0 to |t.answers|
        invariant t == old(t) && engine.State() == old(engine.State())
        invariant MarkedUpTo(t, t.answers[..i], submission, marked, autoScore, hasManual)
      {
        var a := t.answers[i];
        assert t.answers[..i + 1] == t.answers[..i] + [a];
        if AutoAnswer(t, a, submission) {
          var question := t.questions[a.question];
          var right := IsRight(question, a);
          if right.None? {
            assert a in t.answers && !Markable(t, a, submission);
            return BrokenQuestion, None, feed;
          }
          var marksAwarded := if right.value then question.marks else 0.0;
          MarkOne(t, t.answers[..i], a, submission, marked, autoScore, hasManual);
          autoScore := autoScore + marksAwarded;
          marked := marked + [a.(marksAwarded := Some(marksAwarded), isCorrect := right)];
        } else {
          MarkOne(t, t.answers[..i], a, submission, marked, autoScore, hasManual);
          hasManual := hasManual || ManualAnswer(t, a, submission);
          marked := marked + [a];
        }
      }
      assert t.answers[..|t.answers|] == t.answers;
      AllMarked(t, submission, marked, autoScore, hasManual);
      t := t.(answers := marked);
      if !hasManual {
        outcome, engineOutcome, feed := FinaliseSubmissionScore(submission, autoScore, None);
      } else {
        t := t.(submissions := t.submissions[submission := t.submissions[submission].(autoScore := Some(autoScore))]);
        outcome := Graded;
      }
    }

    method GradeManualAnswers(submission: Id, grades: seq<Grade>)
        returns (outcome: GradingDb.Outcome, engineOutcome: Option<ResultDb.Outcome>, ghost feed: Option<ScoreUpdate>)
      requires UniqueIds(engine.regs)
      modifies this, engine
      ensures Effect(t, feed, outcome) == ManuallyGraded(old(t), submission, grades)
      ensures engine.State() == AfterFeed(old(engine.State()), feed)
        && engineOutcome == FeedOutcome(old(engine.State()), feed)
      ensures old(Agrees(engine.State())) ==> Agrees(engine.State())
    {
      hide Agrees, AfterScore;
      engineOutcome, feed := None, None;
      var auto := if submission in t.submissions then t.submissions[submission].autoScore.GetOr(0.0) else 0.0;
      var manualScore := 0.0;
      var answers := t.answers;
      for i := 0 to |grades|
        invariant t == old(t) && engine.State() == old(engine.State())
        invariant Transacted(t, t.answers, grades) == Transacted(t, answers, grades[i..])
        invariant manualScore + SumBy(GradeMarks, grades[i..]) == SumBy(GradeMarks, grades)
      {
        var g := grades[i];
        assert grades[i..][0] == g && grades[i..][1..] == grades[i + 1..];
        if g.marks > MarksAvailable(t, answers, g.answer) {
          return TooManyMarks, None, feed;
        }
        manualScore := manualScore + g.marks;
        if IndexOfAnswer(answers, g.answer) == -1 {
          return AnswerNotFound, None, feed;
        }
        answers := WithGrade(answers, g);
      }
      t := t.(answers := answers);
      outcome, engineOutcome, feed := FinaliseSubmissionScore(submission, auto, Some(manualScore));
    }
  }
}
