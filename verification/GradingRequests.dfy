/**
 What a request to grade by hand may name. The service checks each grade against its own question and
 nothing else: not that answers are distinct, wait for a grade, or belong to the submission. So the total
 stays within the marks exactly when all that the named answers could be given stays within them.
 */
module GradingRequests {
  import opened Basics
  import opened Rounding
  import opened Sums
  import opened Registrations
  import opened GradingDb
  import opened GradingSafety

  /** The answers that a request names, in order. */
  function Names(grades: seq<Grade>): seq<Id> {
    if grades == [] then [] else [grades[0].answer] + Names(grades[1..])
  }

  /** The most that the named answers can be given, counted as often as they are named. */
  function FullMarks(t: Tables, answers: seq<Answer>, names: seq<Id>): real {
    if names == [] then 0.0 else MarksAvailable(t, answers, names[0]) + FullMarks(t, answers, names[1..])
  }

  /** The request that gives every named answer all the marks of its question. */
  function FullGrades(t: Tables, answers: seq<Answer>, names: seq<Id>): (r: seq<Grade>)
    ensures Names(r) == names
    ensures |r| == |names| && forall k :: 0 <= k < |names| ==>
      r[k] == Grade(names[k], MarksAvailable(t, answers, names[k]))
  {
    if names == [] then []
    else [Grade(names[0], MarksAvailable(t, answers, names[0]))] + FullGrades(t, answers, names[1..])
  }

  predicate AllNamed(answers: seq<Answer>, names: seq<Id>) {
    forall id :: id in names ==> IndexOfAnswer(answers, id) != -1
  }

  ghost predicate NoNegativeMarks(t: Tables) {
    forall q :: q in t.questions ==> 0.0 <= t.questions[q].marks
  }

  ghost predicate MarksGiven(grades: seq<Grade>) {
    forall g :: g in grades ==> 0.0 <= g.marks
  }

  // ---------- grades already written change nothing ----------

  lemma {:induction false} GradedFullMarks(t: Tables, answers: seq<Answer>, g: Grade, names: seq<Id>)
    ensures FullMarks(t, WithGrade(answers, g), names) == FullMarks(t, answers, names)
    ensures FullGrades(t, WithGrade(answers, g), names) == FullGrades(t, answers, names)
    ensures AllNamed(WithGrade(answers, g), names) <==> AllNamed(answers, names)
  {
    hide IndexOfAnswer, WithGrade;
    forall id ensures IndexOfAnswer(WithGrade(answers, g), id) == IndexOfAnswer(answers, id) {
      GradeMovesNothing(answers, g, id);
    }
    if names != [] {
      GradeMovesNothing(answers, g, names[0]);
      GradedFullMarks(t, answers, g, names[1..]);
    }
  }

  /** What a transaction accepts is no more than the named answers can be given, and each name is an answer. */
  lemma {:induction false} AcceptedWithinFull(t: Tables, answers: seq<Answer>, grades: seq<Grade>)
    requires Transacted(t, answers, grades).1 == Graded
    ensures SumBy(GradeMarks, grades) <= FullMarks(t, answers, Names(grades))
    ensures AllNamed(answers, Names(grades))
    decreases |grades|
  {
    hide MarksAvailable, WithGrade, IndexOfAnswer;
    if grades != [] {
      var g, rest := grades[0], grades[1..];
      AcceptedWithinFull(t, WithGrade(answers, g), rest);
      GradedFullMarks(t, answers, g, Names(rest));
      assert Names(grades)[1..] == Names(rest);
    }
  }

  lemma {:induction false} FullGradesAccepted(t: Tables, answers: seq<Answer>, names: seq<Id>)
    requires AllNamed(answers, names)
    ensures Transacted(t, answers, FullGrades(t, answers, names)).1 == Graded
    ensures SumBy(GradeMarks, FullGrades(t, answers, names)) == FullMarks(t, answers, names)
    decreases |names|
  {
    hide MarksAvailable, WithGrade, IndexOfAnswer;
    if names != [] {
      var grades := FullGrades(t, answers, names);
      assert grades[1..] == FullGrades(t, answers, names[1..]);
      GradedFullMarks(t, answers, grades[0], names[1..]);
      FullGradesAccepted(t, WithGrade(answers, grades[0]), names[1..]);
      FullGradesSum(t, answers, names[1..], WithGrade(answers, grades[0]));
    }
  }

  /** The same names over answers that offer the same marks. */
  lemma FullGradesSum(t: Tables, a: seq<Answer>, names: seq<Id>, b: seq<Answer>)
    requires FullGrades(t, a, names) == FullGrades(t, b, names) && FullMarks(t, a, names) == FullMarks(t, b, names)
    requires SumBy(GradeMarks, FullGrades(t, b, names)) == FullMarks(t, b, names)
    ensures SumBy(GradeMarks, FullGrades(t, a, names)) == FullMarks(t, a, names)
  {}

  // ---------- the exact condition ----------

  /** What has been stored for the submission, and all that the named answers can be given, fit its total marks. */
  predicate Fits(t: Tables, submission: Id, names: seq<Id>)
    requires Resolves(t, submission)
  {
    StoredAuto(t, submission) + FullMarks(t, t.answers, names)
    <= t.assessments[t.submissions[submission].assessment].totalMarks
  }

  /** Every accepted request that names these answers keeps the total within the marks. */
  ghost predicate AlwaysWithin(t: Tables, submission: Id, names: seq<Id>)
    requires Resolves(t, submission)
  {
    forall grades :: Names(grades) == names && MarksGiven(grades) && Transacted(t, t.answers, grades).1 == Graded ==>
      StoredAuto(t, submission) + SumBy(GradeMarks, grades)
      <= t.assessments[t.submissions[submission].assessment].totalMarks
  }

  lemma AvailableNonNegative(t: Tables, names: seq<Id>)
    requires NoNegativeMarks(t)
    ensures MarksGiven(FullGrades(t, t.answers, names))
  {
    hide IndexOfAnswer;
    var grades := FullGrades(t, t.answers, names);
    forall g | g in grades ensures 0.0 <= g.marks {
      var k :| 0 <= k < |grades| && grades[k] == g;
    }
  }

  /** Exactly: the full request is the worst one. A request that names no answer is refused as a whole. */
  lemma AlwaysWithinIff(t: Tables, submission: Id, names: seq<Id>)
    requires Resolves(t, submission) && NoNegativeMarks(t)
    ensures AlwaysWithin(t, submission, names) <==> !AllNamed(t.answers, names) || Fits(t, submission, names)
  {
    hide MarksAvailable, Transacted, IndexOfAnswer, FullMarks, SumBy;
    if AllNamed(t.answers, names) {
      FullGradesAccepted(t, t.answers, names);
      AvailableNonNegative(t, names);
    }
    forall grades | Names(grades) == names && Transacted(t, t.answers, grades).1 == Graded
      ensures SumBy(GradeMarks, grades) <= FullMarks(t, t.answers, names) && AllNamed(t.answers, names)
    {
      AcceptedWithinFull(t, t.answers, grades);
    }
  }

  /**
   Grading by hand, before or after auto-grading, where the named answers fit: the stored percentage, and
   the one passed on to the result engine, lie between 0 and 100.
   */
  lemma GradedPercentageInRange(t: Tables, submission: Id, grades: seq<Grade>)
    requires Resolves(t, submission) && 0.0 <= StoredAuto(t, submission) && MarksGiven(grades)
    requires t.assessments[t.submissions[submission].assessment].totalMarks > 0.0
    requires Fits(t, submission, Names(grades))
    requires ManuallyGraded(t, submission, grades).outcome == Graded
    ensures var e := ManuallyGraded(t, submission, grades);
            && e.tables.submissions[submission].score.Some?
            && WithinHundred(e.tables.submissions[submission].score.value.percentage)
            && (e.feed.Some? ==> 0.0 <= e.feed.value.percentage <= 100.0)
  {
    hide ManuallyGraded, PercentageOf, Round2, FullMarks, SumBy;
    GradedRow(t, submission, grades);
    AcceptedWithinFull(t, t.answers, grades);
    SumByNonNegative(GradeMarks, grades);
    ShareOfTotal(StoredAuto(t, submission) + SumBy(GradeMarks, grades),
      t.assessments[t.submissions[submission].assessment].totalMarks);
  }

  /** A request that names manual answers of the submission, each once, fits. */
  lemma ProperGradesFit(t: Tables, submission: Id, paper: seq<Question>, grades: seq<Grade>)
    requires Resolves(t, submission) && StoredAutoFits(t, submission)
    requires t.assessments[t.submissions[submission].assessment].totalMarks == TotalMarks(paper)
    requires AnswersPaper(t, submission, paper) && MarksNonNegative(paper) && ProperGrades(t, submission, grades)
    ensures Fits(t, submission, Names(grades))
  {
    var names := Names(grades);
    var full := FullGrades(t, t.answers, names);
    NamesAt(grades);
    assert AllNamed(t.answers, names) && ProperGrades(t, submission, full) by {
      FullGradesProper(t, submission, paper, grades);
    }
    hide ProperGrades, AnswersPaper, MarksNonNegative, TotalMarks, FullMarks, SumBy, AllNamed;
    FullGradesAccepted(t, t.answers, names);
    GradedTotalFits(t, submission, paper, full);
  }

  lemma {:induction false} NamesAt(grades: seq<Grade>)
    ensures |Names(grades)| == |grades| && forall k :: 0 <= k < |grades| ==> Names(grades)[k] == grades[k].answer
  {
    if grades != [] {
      NamesAt(grades[1..]);
    }
  }

  lemma FullGradesProper(t: Tables, submission: Id, paper: seq<Question>, grades: seq<Grade>)
    requires AnswersPaper(t, submission, paper) && MarksNonNegative(paper) && ProperGrades(t, submission, grades)
    ensures AllNamed(t.answers, Names(grades))
    ensures ProperGrades(t, submission, FullGrades(t, t.answers, Names(grades)))
  {
    hide IndexOfAnswer, AnswersPaper, MarksNonNegative, Names;
    var full := FullGrades(t, t.answers, Names(grades));
    NamesAt(grades);
    forall k | 0 <= k < |grades|
      ensures IndexOfAnswer(t.answers, grades[k].answer) != -1 && 0.0 <= full[k].marks
    {
      assert grades[k] in grades;
      FullMarkNonNegative(t, submission, paper, grades[k]);
    }
    forall g | g in full
      ensures 0.0 <= g.marks && NamesAnswer(t, g)
      ensures exists a :: a in t.answers && a.id == g.answer && ManualAnswer(t, a, submission)
    {
      var k :| 0 <= k < |full| && full[k] == g;
      assert grades[k] in grades && g.answer == grades[k].answer;
      var a :| a in t.answers && a.id == grades[k].answer && ManualAnswer(t, a, submission);
      assert a.id == g.answer;
    }
    forall i, j | 0 <= i < j < |full| ensures full[i].answer != full[j].answer {
      assert grades[i].answer != grades[j].answer;
    }
  }

  lemma FullMarkNonNegative(t: Tables, submission: Id, paper: seq<Question>, g: Grade)
    requires AnswersPaper(t, submission, paper) && MarksNonNegative(paper)
    requires exists a :: a in t.answers && a.id == g.answer && ManualAnswer(t, a, submission)
    ensures IndexOfAnswer(t.answers, g.answer) != -1 && 0.0 <= MarksAvailable(t, t.answers, g.answer)
  {
    var a :| a in t.answers && a.id == g.answer && ManualAnswer(t, a, submission);
    var i := IndexOfAnswer(t.answers, g.answer);
    SameIdSameAnswer(t, submission, paper, a, t.answers[i]);
    assert t.questions[a.question] in paper;
  }

  // ---------- a request that does not fit ----------

  const ESSAY_MARK: Grade := Grade("a2", 5.0)

  /** The submission of the essay and the choice, for an assessment that counts as CA1. */
  const COUNTED: Tables :=
    SUBMITTED.(assessments := map["e" := Assessment("e", "maths", "term", 10.0, None, true, Some(CA1))])

  /** Naming the essay three times is accepted: 15 of 10 marks, and 150 percent for the result engine. */
  lemma RepeatedGradesExceed()
    ensures var e := ManuallyGraded(COUNTED, "s", [ESSAY_MARK, ESSAY_MARK, ESSAY_MARK]);
            && e.outcome == Graded && "s" in e.tables.submissions
            && e.tables.submissions["s"].score.Some? && e.tables.submissions["s"].score.value.total == 15.0
            && e.feed.Some? && e.feed.value.percentage == 150.0
  {
    hide Round2, GradeFor;
    var t := COUNTED;
    var names := ["a2", "a2", "a2"];
    var grades := [ESSAY_MARK, ESSAY_MARK, ESSAY_MARK];
    assert [CHOSEN, WRITTEN][1..] == [WRITTEN];
    assert IndexOfAnswer([WRITTEN], "a2") == 0;
    assert IndexOfAnswer(t.answers, "a2") == 1;
    assert MarksAvailable(t, t.answers, "a2") == 5.0;
    FullGradesAccepted(t, t.answers, names);
    assert FullGrades(t, t.answers, names) == grades;
    assert names[1..] == ["a2", "a2"] && ["a2", "a2"][1..] == ["a2"] && ["a2"][1..] == [];
    assert FullMarks(t, t.answers, []) == 0.0;
    assert FullMarks(t, t.answers, ["a2"]) == 5.0;
    assert FullMarks(t, t.answers, ["a2", "a2"]) == 10.0;
    assert FullMarks(t, t.answers, names) == 15.0;
    assert SumBy(GradeMarks, grades) == 15.0;
    FinalisedRow(t.(answers := Transacted(t, t.answers, grades).0), "s", 0.0, Some(15.0));
  }
}
