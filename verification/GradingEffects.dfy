/** What finalising and grading by hand leave in the rows, and what they pass on. */
module GradingEffects {
  import opened Basics
  import opened Rounding
  import opened Sums
  import opened GradeScale
  import opened SchoolConfig
  import opened ResultDb
  import opened GradingDb

  // ---------- finalising ----------

  /** The pass mark of the assessment, else of the school, else 40. */
  function MarkToPass(a: Assessment, config: Config): real {
    match a.passMark
    case Some(mark) => mark
    case None => if config.passMark == None then 40.0 else config.passMark.value as real
  }

  /** The score of this total, for an assessment that has marks: p is its percentage. */
  ghost predicate ScoredAs(score: Score, total: real, p: real, a: Assessment, config: Config) {
    && score.total == total
    && score.percentage == Number(Round2(p))
    && score.grading == ApplyGradeScale(p, config.gradingScale)
    && (score.isPassed <==> p >= MarkToPass(a, config))
  }

  /**
   Finalising writes the scores of one submission, which must exist with its assessment, and passes its
   percentage on for the student, subject, term and component, exactly where the assessment counts.
   */
  lemma FinaliseWrites(t: Tables, submission: Id, auto: real, manual: Option<real>)
    ensures var e := Finalised(t, submission, auto, manual);
            if !(submission in t.submissions && t.submissions[submission].assessment in t.assessments)
            then e == Effect(t, None, SubmissionNotFound)
            else
              var s := t.submissions[submission];
              var a := t.assessments[s.assessment];
              var total := auto + manual.GetOr(0.0);
              && e.outcome == Graded && submission in e.tables.submissions
              && var row := e.tables.submissions[submission];
              && e.tables == t.(submissions := t.submissions[submission := row])
              && row == s.(autoScore := Some(auto), manualScore := manual, score := row.score)
              && row.score.Some?
              && (a.totalMarks != 0.0 ==>
                  var p := total / a.totalMarks * 100.0;
                  && ScoredAs(row.score.value, total, p, a, GetConfig(t.configs, s.tenant))
                  && e.feed == (if a.isExamComponent
                                then Some(ScoreUpdate(s.student, a.subject, a.term, a.component, p)) else None))
  {
    hide ApplyGradeScale, Round2;
  }

  /** The job finalises when no answer of the submission waits for a grade, and else stores the auto score alone. */
  lemma JobFinishes(t: Tables, submission: Id)
    requires AutoGraded(t, submission).outcome == Graded
    ensures submission in t.submissions
    ensures var e := AutoGraded(t, submission);
            var marked := t.(answers := e.tables.answers);
            if exists a :: a in t.answers && a.submission == submission && a.question in t.questions
                           && !t.questions[a.question].isAutoGradable
            then
              && e.feed == None
              && e.tables == marked.(submissions := t.submissions[submission :=
                   t.submissions[submission].(autoScore := Some(AutoScore(t, submission)))])
            else e == Finalised(marked, submission, AutoScore(t, submission), None)
  {
    hide ScoreOf, Feed, AutoScore, MarkedAll, Markable;
    assert HasManual(t, submission) <==>
      exists a :: a in t.answers && a.submission == submission && a.question in t.questions
                  && !t.questions[a.question].isAutoGradable;
  }

  // ---------- grading by hand ----------

  /** The answer found for an id: the first one that has it. */
  ghost predicate FirstWith(answers: seq<Answer>, id: Id, k: nat) {
    k < |answers| && answers[k].id == id && forall j :: 0 <= j < k ==> answers[j].id != id
  }

  lemma {:induction false} IndexIsFirst(answers: seq<Answer>, id: Id)
    ensures var i := IndexOfAnswer(answers, id);
            if i == -1 then forall a :: a in answers ==> a.id != id else FirstWith(answers, id, i)
  {
    if answers != [] && answers[0].id != id {
      IndexIsFirst(answers[1..], id);
    }
  }

  /** A grade that the service takes: for an answer that exists, within the marks of its question. */
  ghost predicate Takes(t: Tables, g: Grade) {
    exists k: nat :: FirstWith(t.answers, g.answer, k) && g.marks <= MarksOfQuestion(t, t.answers[k])
  }

  function MarksOfQuestion(t: Tables, a: Answer): real {
    if a.question in t.questions then t.questions[a.question].marks else 0.0
  }

  lemma VerdictIffTakes(t: Tables, answers: seq<Answer>, g: Grade)
    requires |answers| == |t.answers|
    requires forall k :: 0 <= k < |answers| ==>
               answers[k].id == t.answers[k].id && answers[k].question == t.answers[k].question
    ensures GradeVerdict(t, answers, g) == Graded <==> Takes(t, g)
  {
    hide IndexOfAnswer;
    IndexIsFirst(answers, g.answer);
    var i := IndexOfAnswer(answers, g.answer);
    if i == -1 {
      forall k | 0 <= k < |t.answers| ensures t.answers[k].id != g.answer {
        assert answers[k] in answers;
      }
    } else {
      assert FirstWith(t.answers, g.answer, i);
      forall k: nat | FirstWith(t.answers, g.answer, k) ensures k == i {
        assert k <= i && i <= k;
      }
    }
  }

  /** The last grade that names an answer, if any does. */
  function LastGrade(grades: seq<Grade>, id: Id): Option<Grade> {
    if grades == [] then None
    else
      var later := LastGrade(grades[1..], id);
      if later == None && grades[0].answer == id then Some(grades[0]) else later
  }

  ghost predicate SameRows(a: seq<Answer>, b: seq<Answer>) {
    |a| == |b| && forall k :: 0 <= k < |a| ==> a[k].id == b[k].id && a[k].question == b[k].question
  }

  lemma WithGradeSameRows(answers: seq<Answer>, g: Grade)
    ensures SameRows(WithGrade(answers, g), answers)
  {
    hide IndexOfAnswer;
  }

  /** A request goes through exactly when each of its grades would be taken. */
  lemma {:induction false} TransactedIff(t: Tables, answers: seq<Answer>, grades: seq<Grade>)
    requires SameRows(answers, t.answers)
    ensures Transacted(t, answers, grades).1 == Graded <==> forall g :: g in grades ==> Takes(t, g)
    decreases |grades|
  {
    hide GradeVerdict, WithGrade, Takes;
    if grades != [] {
      VerdictIffTakes(t, answers, grades[0]);
      WithGradeSameRows(answers, grades[0]);
      TransactedIff(t, WithGrade(answers, grades[0]), grades[1..]);
      assert grades == [grades[0]] + grades[1..];
    }
  }

  /** The marks of the last grade that names it, if it is the answer that the name finds; nothing else changes. */
  ghost predicate GradedTo(answers: seq<Answer>, after: seq<Answer>, grades: seq<Grade>, k: nat) {
    && |after| == |answers| && k < |answers|
    && var g := LastGrade(grades, answers[k].id);
    after[k] == if g.Some? && FirstWith(answers, answers[k].id, k)
                then answers[k].(marksAwarded := Some(g.value.marks)) else answers[k]
  }

  lemma OneGrade(answers: seq<Answer>, g: Grade, k: nat)
    requires k < |answers|
    ensures |WithGrade(answers, g)| == |answers|
    ensures WithGrade(answers, g)[k] ==
            if g.answer == answers[k].id && FirstWith(answers, g.answer, k)
            then answers[k].(marksAwarded := Some(g.marks)) else answers[k]
  {
    hide IndexOfAnswer;
    IndexIsFirst(answers, g.answer);
  }

  lemma {:induction false} TransactedWrites(t: Tables, answers: seq<Answer>, grades: seq<Grade>, k: nat)
    requires Transacted(t, answers, grades).1 == Graded && k < |answers|
    ensures GradedTo(answers, Transacted(t, answers, grades).0, grades, k)
    decreases |grades|
  {
    hide GradeVerdict, WithGrade;
    if grades != [] {
      var next := WithGrade(answers, grades[0]);
      OneGrade(answers, grades[0], k);
      WithGradeSameRows(answers, grades[0]);
      TransactedWrites(t, next, grades[1..], k);
      assert FirstWith(next, answers[k].id, k) <==> FirstWith(answers, answers[k].id, k);
    }
  }

  /**
   Grading by hand: refused as a whole, changing nothing, unless every grade is taken; else each grade is
   written and the submission is finalised with the stored auto score and the sum of the grades.
   */
  lemma HandGradesWritten(t: Tables, submission: Id, grades: seq<Grade>, k: nat)
    ensures var e := ManuallyGraded(t, submission, grades);
            && (!(forall g :: g in grades ==> Takes(t, g)) ==>
                e.tables == t && e.feed == None && (e.outcome == TooManyMarks || e.outcome == AnswerNotFound))
            && ((forall g :: g in grades ==> Takes(t, g)) ==>
                && (k < |t.answers| ==> GradedTo(t.answers, e.tables.answers, grades, k))
                && e == Finalised(t.(answers := e.tables.answers), submission,
                     if submission in t.submissions then t.submissions[submission].autoScore.GetOr(0.0) else 0.0,
                     Some(SumBy(GradeMarks, grades))))
  {
    hide Takes, GradedTo, ScoreOf, Feed, SumBy;
    TransactedIff(t, t.answers, grades);
    RefusalNamed(t, t.answers, grades);
    if Transacted(t, t.answers, grades).1 == Graded && k < |t.answers| {
      TransactedWrites(t, t.answers, grades, k);
    }
  }

  lemma {:induction false} RefusalNamed(t: Tables, answers: seq<Answer>, grades: seq<Grade>)
    ensures var outcome := Transacted(t, answers, grades).1;
            outcome == Graded || outcome == TooManyMarks || outcome == AnswerNotFound
    decreases |grades|
  {
    hide WithGrade, IndexOfAnswer, MarksAvailable;
    if grades != [] {
      RefusalNamed(t, WithGrade(answers, grades[0]), grades[1..]);
    }
  }
}
