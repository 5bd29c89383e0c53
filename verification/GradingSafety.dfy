/**
 A submission's score never exceeds the assessment's total marks, its percentage reaches the result
 engine within 0..100, and running the auto-grading job again changes nothing.
 */
module GradingSafety {
  import opened Basics
  import opened Rounding
  import opened Sums
  import opened GradingDb

  function QuestionMarks(q: Question): real {
    q.marks
  }

  /** total_marks, as set when the assessment is created. */
  function TotalMarks(paper: seq<Question>): real {
    SumBy(QuestionMarks, paper)
  }

  // ---------- credits for distinct questions fit the total ----------

  ghost predicate DistinctQuestions(credits: seq<Credit>) {
    forall i, j :: 0 <= i < j < |credits| ==> credits[i].question != credits[j].question
  }

  ghost predicate CreditOn(paper: seq<Question>, c: Credit) {
    exists q :: q in paper && q.id == c.question && 0.0 <= c.marks <= q.marks
  }

  ghost predicate MarksNonNegative(paper: seq<Question>) {
    forall q :: q in paper ==> 0.0 <= q.marks
  }

  lemma TotalWithout(paper: seq<Question>, k: nat)
    requires k < |paper|
    ensures TotalMarks(paper) == paper[k].marks + TotalMarks(paper[..k] + paper[k + 1..])
  {
    SumByConcat(QuestionMarks, paper[..k], paper[k + 1..]);
    SumByConcat(QuestionMarks, paper[..k], [paper[k]] + paper[k + 1..]);
    assert paper == paper[..k] + ([paper[k]] + paper[k + 1..]);
    assert ([paper[k]] + paper[k + 1..])[1..] == paper[k + 1..];
  }

  /** Credits for other questions are still on the paper when one question is taken off. */
  lemma CreditElsewhere(paper: seq<Question>, k: nat, d: Credit)
    requires k < |paper| && CreditOn(paper, d) && d.question != paper[k].id
    ensures CreditOn(paper[..k] + paper[k + 1..], d)
  {
    var p :| p in paper && p.id == d.question && 0.0 <= d.marks <= p.marks;
    assert p in paper[..k] + paper[k + 1..];
  }

  lemma {:induction false} CreditsFit(credits: seq<Credit>, paper: seq<Question>)
    requires DistinctQuestions(credits) && MarksNonNegative(paper)
    requires forall c :: c in credits ==> CreditOn(paper, c)
    ensures 0.0 <= SumBy(MarksOf, credits) <= TotalMarks(paper)
  {
    hide TotalMarks;
    if credits == [] {
      PaperNonNegative(paper);
    } else {
      var c, rest := credits[0], credits[1..];
      assert CreditOn(paper, c);
      var k :| 0 <= k < |paper| && paper[k].id == c.question && 0.0 <= c.marks <= paper[k].marks;
      var others := paper[..k] + paper[k + 1..];
      forall j | 0 <= j < |rest| ensures CreditOn(others, rest[j]) {
        assert credits[j + 1] == rest[j] && credits[0].question != credits[j + 1].question;
        assert credits[j + 1] in credits;
        CreditElsewhere(paper, k, rest[j]);
      }
      CreditsFit(rest, others);
      TotalWithout(paper, k);
    }
  }

  lemma PaperNonNegative(paper: seq<Question>)
    requires MarksNonNegative(paper)
    ensures 0.0 <= TotalMarks(paper)
  {
    SumByNonNegative(QuestionMarks, paper);
  }

  // ---------- where the credits come from ----------

  /** The submission answers questions of the paper, each at most once; answers have unique ids. */
  ghost predicate AnswersPaper(t: Tables, submission: Id, paper: seq<Question>) {
    && (forall a :: a in t.answers && a.submission == submission ==>
        a.question in t.questions && t.questions[a.question] in paper && t.questions[a.question].id == a.question)
    && (forall i, j :: 0 <= i < j < |t.answers| ==> t.answers[i].id != t.answers[j].id)
    && (forall i, j :: 0 <= i < j < |t.answers| && t.answers[i].submission == submission == t.answers[j].submission ==>
        t.answers[i].question != t.answers[j].question)
  }

  lemma {:induction false} AutoCreditsFromAnswers(t: Tables, answers: seq<Answer>, submission: Id, c: Credit)
    requires c in AutoCredits(t, answers, submission)
    ensures exists a :: a in answers && AutoAnswer(t, a, submission) && c == CreditFor(t, a)
  {
    var rest, a := answers[..|answers| - 1], answers[|answers| - 1];
    assert answers == rest + [a];
    if c in AutoCredits(t, rest, submission) {
      AutoCreditsFromAnswers(t, rest, submission, c);
    }
  }

  lemma {:induction false} AutoCreditsDistinct(t: Tables, n: nat, submission: Id, paper: seq<Question>)
    requires AnswersPaper(t, submission, paper) && n <= |t.answers|
    ensures DistinctQuestions(AutoCredits(t, t.answers[..n], submission))
  {
    if n > 0 {
      AutoCreditsDistinct(t, n - 1, submission, paper);
      assert t.answers[..n][..n - 1] == t.answers[..n - 1];
      var a := t.answers[n - 1];
      assert a in t.answers;
      forall c | c in AutoCredits(t, t.answers[..n - 1], submission) && AutoAnswer(t, a, submission)
        ensures c.question != CreditFor(t, a).question
      {
        AutoCreditsFromAnswers(t, t.answers[..n - 1], submission, c);
        var b :| b in t.answers[..n - 1] && AutoAnswer(t, b, submission) && c == CreditFor(t, b);
        var i :| 0 <= i < n - 1 && t.answers[i] == b;
      }
    }
  }

  /** The teacher grades manual answers of this submission, each once, with no negative marks. */
  ghost predicate ProperGrades(t: Tables, submission: Id, grades: seq<Grade>) {
    && (forall i, j :: 0 <= i < j < |grades| ==> grades[i].answer != grades[j].answer)
    && forall g :: g in grades ==>
        && 0.0 <= g.marks && NamesAnswer(t, g)
        && exists a :: a in t.answers && a.id == g.answer && ManualAnswer(t, a, submission)
  }

  ghost predicate NamesAnswer(t: Tables, g: Grade) {
    exists a :: a in t.answers && a.id == g.answer
  }

  function AnswerNamed(t: Tables, g: Grade): (a: Answer)
    requires NamesAnswer(t, g)
    ensures a in t.answers && a.id == g.answer
  {
    var i := IndexOfAnswer(t.answers, g.answer);
    t.answers[i]
  }

  lemma SameIdSameAnswer(t: Tables, submission: Id, paper: seq<Question>, a: Answer, b: Answer)
    requires AnswersPaper(t, submission, paper) && a in t.answers && b in t.answers
    ensures a.id == b.id ==> a == b
    ensures a.submission == submission == b.submission && a.question == b.question ==> a == b
  {
    var i :| 0 <= i < |t.answers| && t.answers[i] == a;
    var j :| 0 <= j < |t.answers| && t.answers[j] == b;
    assert i < j || j < i || i == j;
  }

  ghost function ManualCredits(t: Tables, grades: seq<Grade>): (r: seq<Credit>)
    requires forall g :: g in grades ==> NamesAnswer(t, g)
    ensures |r| == |grades|
    ensures forall k :: 0 <= k < |grades| ==> r[k] == Credit(AnswerNamed(t, grades[k]).question, grades[k].marks)
  {
    if grades == [] then []
    else [Credit(AnswerNamed(t, grades[0]).question, grades[0].marks)] + ManualCredits(t, grades[1..])
  }

  lemma {:induction false} ManualCreditsSum(t: Tables, grades: seq<Grade>)
    requires forall g :: g in grades ==> NamesAnswer(t, g)
    ensures SumBy(MarksOf, ManualCredits(t, grades)) == SumBy(GradeMarks, grades)
  {
    if grades != [] {
      ManualCreditsSum(t, grades[1..]);
      assert ManualCredits(t, grades)[1..] == ManualCredits(t, grades[1..]);
    }
  }

  /** Writing a grade moves no answer. */
  lemma {:induction false} GradeMovesNothing(answers: seq<Answer>, g: Grade, id: Id)
    ensures IndexOfAnswer(WithGrade(answers, g), id) == IndexOfAnswer(answers, id)
    ensures var i := IndexOfAnswer(answers, id);
            i != -1 ==> WithGrade(answers, g)[i].question == answers[i].question
  {
    var k := IndexOfAnswer(answers, g.answer);
    if k > 0 {
      assert WithGrade(answers, g)[1..] == WithGrade(answers[1..], g);
      GradeMovesNothing(answers[1..], g, id);
    } else if k == 0 {
      assert WithGrade(answers, g)[1..] == answers[1..];
    }
  }

  /** A transaction that goes through has checked every grade against its question. */
  lemma {:induction false} TransactionChecks(t: Tables, answers: seq<Answer>, grades: seq<Grade>, g: Grade)
    requires Transacted(t, answers, grades).1 == Graded && g in grades
    ensures g.marks <= MarksAvailable(t, answers, g.answer)
    decreases |grades|
  {
    if g != grades[0] {
      TransactionChecks(t, WithGrade(answers, grades[0]), grades[1..], g);
      GradeMovesNothing(answers, grades[0], g.answer);
    }
  }

  // ---------- the score stays within the total ----------

  lemma AutoCreditOnPaper(t: Tables, submission: Id, paper: seq<Question>, c: Credit)
    requires AnswersPaper(t, submission, paper) && MarksNonNegative(paper)
    requires c in AutoCredits(t, t.answers, submission)
    ensures CreditOn(paper, c)
  {
    AutoCreditsFromAnswers(t, t.answers, submission, c);
    var a :| a in t.answers && AutoAnswer(t, a, submission) && c == CreditFor(t, a);
    assert t.questions[a.question] in paper;
  }

  lemma ManualCreditOnPaper(t: Tables, submission: Id, paper: seq<Question>, grades: seq<Grade>, g: Grade)
    requires AnswersPaper(t, submission, paper) && ProperGrades(t, submission, grades) && g in grades
    requires Transacted(t, t.answers, grades).1 == Graded
    ensures CreditOn(paper, Credit(AnswerNamed(t, g).question, g.marks))
    ensures ManualAnswer(t, AnswerNamed(t, g), submission)
  {
    TransactionChecks(t, t.answers, grades, g);
    var a :| a in t.answers && a.id == g.answer && ManualAnswer(t, a, submission);
    SameIdSameAnswer(t, submission, paper, a, AnswerNamed(t, g));
    assert t.questions[a.question] in paper;
  }

  /** An auto-graded answer and one graded by hand answer different questions. */
  lemma AutoAndManualDiffer(t: Tables, submission: Id, paper: seq<Question>, grades: seq<Grade>, c: Credit, g: Grade)
    requires AnswersPaper(t, submission, paper) && ProperGrades(t, submission, grades) && g in grades
    requires Transacted(t, t.answers, grades).1 == Graded
    requires c in AutoCredits(t, t.answers, submission)
    ensures c.question != AnswerNamed(t, g).question
  {
    hide IsRight, Transacted;
    AutoCreditsFromAnswers(t, t.answers, submission, c);
    var a :| a in t.answers && AutoAnswer(t, a, submission) && c == CreditFor(t, a);
    ManualCreditOnPaper(t, submission, paper, grades, g);
    SameIdSameAnswer(t, submission, paper, a, AnswerNamed(t, g));
  }

  lemma ManualsDiffer(t: Tables, submission: Id, paper: seq<Question>, grades: seq<Grade>, i: nat, j: nat)
    requires AnswersPaper(t, submission, paper) && ProperGrades(t, submission, grades) && i < j < |grades|
    requires Transacted(t, t.answers, grades).1 == Graded
    ensures AnswerNamed(t, grades[i]).question != AnswerNamed(t, grades[j]).question
  {
    hide Transacted;
    ManualCreditOnPaper(t, submission, paper, grades, grades[i]);
    ManualCreditOnPaper(t, submission, paper, grades, grades[j]);
    SameIdSameAnswer(t, submission, paper, AnswerNamed(t, grades[i]), AnswerNamed(t, grades[j]));
  }

  lemma CombinedCreditsDistinct(t: Tables, submission: Id, paper: seq<Question>, grades: seq<Grade>)
    requires AnswersPaper(t, submission, paper) && ProperGrades(t, submission, grades)
    requires Transacted(t, t.answers, grades).1 == Graded
    ensures DistinctQuestions(AutoCredits(t, t.answers, submission) + ManualCredits(t, grades))
  {
    hide IsRight, Transacted, AnswersPaper, AutoCredits, IndexOfAnswer;
    var auto, manual := AutoCredits(t, t.answers, submission), ManualCredits(t, grades);
    AutoCreditsDistinct(t, |t.answers|, submission, paper);
    assert t.answers[..|t.answers|] == t.answers;
    forall c, k | c in auto && 0 <= k < |manual| ensures c.question != manual[k].question {
      AutoAndManualDiffer(t, submission, paper, grades, c, grades[k]);
    }
    forall i, j | 0 <= i < j < |manual| ensures manual[i].question != manual[j].question {
      ManualsDiffer(t, submission, paper, grades, i, j);
    }
  }

  /** Auto marks and manual marks together never exceed the total marks of the assessment. */
  lemma TotalWithinMarks(t: Tables, submission: Id, paper: seq<Question>, grades: seq<Grade>)
    requires AnswersPaper(t, submission, paper) && MarksNonNegative(paper)
    requires ProperGrades(t, submission, grades) && Transacted(t, t.answers, grades).1 == Graded
    ensures 0.0 <= AutoScore(t, submission) + SumBy(GradeMarks, grades) <= TotalMarks(paper)
  {
    var auto, manual := AutoCredits(t, t.answers, submission), ManualCredits(t, grades);
    CombinedCreditsDistinct(t, submission, paper, grades);
    forall c | c in auto + manual ensures CreditOn(paper, c) {
      if c in auto {
        AutoCreditOnPaper(t, submission, paper, c);
      } else {
        var k :| 0 <= k < |manual| && manual[k] == c;
        ManualCreditOnPaper(t, submission, paper, grades, grades[k]);
      }
    }
    CreditsFit(auto + manual, paper);
    SumByConcat(MarksOf, auto, manual);
    ManualCreditsSum(t, grades);
  }

  ghost predicate WithinHundred(p: Percentage) {
    p.Number? && 0.0 <= p.value <= 100.0
  }

  lemma ShareOfTotal(total: real, max: real)
    requires 0.0 <= total <= max && max > 0.0
    ensures WithinHundred(PercentageOf(total, max))
    ensures 0.0 <= Round2(PercentageOf(total, max).value) <= 100.0
  {
    assert total == Times(total, 1.0);
    QuotientBetween(total, max, 0.0, 1.0);
    RoundMonotone(0.0, total / max * 100.0);
    RoundMonotone(total / max * 100.0, 100.0);
    RoundHundredths(0);
    RoundHundredths(10000);
  }

  /** What finalising writes into the submission's row, and what it passes on. */
  lemma FinalisedRow(t: Tables, submission: Id, auto: real, manual: Option<real>)
    requires Resolves(t, submission)
    ensures var e := Finalised(t, submission, auto, manual);
            var row := e.tables.submissions[submission];
            var max := t.assessments[t.submissions[submission].assessment].totalMarks;
            var total := auto + manual.GetOr(0.0);
            && e.outcome == Graded
            && e.tables == t.(submissions := t.submissions[submission := row])
            && row == t.submissions[submission].(autoScore := Some(auto), manualScore := manual, score := row.score)
            && row.score.Some? && row.score.value.total == total
            && (PercentageOf(total, max).Number? ==>
                row.score.value.percentage == Number(Round2(PercentageOf(total, max).value)))
            && (e.feed.Some? ==> PercentageOf(total, max) == Number(e.feed.value.percentage))
  {
    hide GradeFor, PercentageOf, Passes, Round2;
  }

  /** The same for a successful grading by hand. */
  lemma GradedRow(t: Tables, submission: Id, grades: seq<Grade>)
    requires Resolves(t, submission) && ManuallyGraded(t, submission, grades).outcome == Graded
    ensures var e := ManuallyGraded(t, submission, grades);
            var row := e.tables.submissions[submission];
            var max := t.assessments[t.submissions[submission].assessment].totalMarks;
            var total := StoredAuto(t, submission) + SumBy(GradeMarks, grades);
            && Transacted(t, t.answers, grades).1 == Graded
            && e.tables == t.(answers := Transacted(t, t.answers, grades).0,
                              submissions := t.submissions[submission := row])
            && row == t.submissions[submission].(
                        autoScore := Some(StoredAuto(t, submission)), manualScore := Some(SumBy(GradeMarks, grades)),
                        score := row.score)
            && row.score.Some? && row.score.value.total == total
            && (PercentageOf(total, max).Number? ==>
                row.score.value.percentage == Number(Round2(PercentageOf(total, max).value)))
            && (e.feed.Some? ==> PercentageOf(total, max) == Number(e.feed.value.percentage))
  {
    hide Finalised, PercentageOf, Round2, Transacted, SumBy;
    var answers := Transacted(t, t.answers, grades).0;
    FinalisedRow(t.(answers := answers), submission, StoredAuto(t, submission), Some(SumBy(GradeMarks, grades)));
  }

  /** The auto score that grading by hand finds: an auto score not yet stored counts as zero. */
  function StoredAuto(t: Tables, submission: Id): real
    requires submission in t.submissions
  {
    t.submissions[submission].autoScore.GetOr(0.0)
  }

  /** The auto score stored so far: none, or no more than the answers earn. */
  ghost predicate StoredAutoFits(t: Tables, submission: Id)
    requires submission in t.submissions
  {
    var stored := t.submissions[submission].autoScore;
    stored.Some? ==> 0.0 <= stored.value <= AutoScore(t, submission)
  }

  /** Total marks after grading by hand, whether or not the job has stored its score before. */
  lemma GradedTotalFits(t: Tables, submission: Id, paper: seq<Question>, grades: seq<Grade>)
    requires AnswersPaper(t, submission, paper) && MarksNonNegative(paper) && ProperGrades(t, submission, grades)
    requires submission in t.submissions && StoredAutoFits(t, submission)
    requires Transacted(t, t.answers, grades).1 == Graded
    ensures 0.0 <= StoredAuto(t, submission) + SumBy(GradeMarks, grades) <= TotalMarks(paper)
  {
    hide AnswersPaper, Transacted;
    TotalWithinMarks(t, submission, paper, grades);
    SumByNonNegative(GradeMarks, grades);
    AutoScoreNonNegative(t, submission, paper);
  }

  lemma AutoScoreNonNegative(t: Tables, submission: Id, paper: seq<Question>)
    requires AnswersPaper(t, submission, paper) && MarksNonNegative(paper)
    ensures 0.0 <= AutoScore(t, submission) <= TotalMarks(paper)
  {
    assert SumBy(GradeMarks, []) == 0.0;
    TotalWithinMarks(t, submission, paper, []);
  }

  /** Where every question is auto-gradable and the job finalises by itself: the percentages lie between 0 and 100. */
  lemma AutoPercentageInRange(t: Tables, submission: Id, paper: seq<Question>)
    requires Resolves(t, submission)
    requires t.assessments[t.submissions[submission].assessment].totalMarks == TotalMarks(paper) > 0.0
    requires AnswersPaper(t, submission, paper) && MarksNonNegative(paper)
    requires AutoGraded(t, submission).outcome == Graded && !HasManual(t, submission)
    ensures var e := AutoGraded(t, submission);
            && e.tables.submissions[submission].score.Some?
            && WithinHundred(e.tables.submissions[submission].score.value.percentage)
            && (e.feed.Some? ==> 0.0 <= e.feed.value.percentage <= 100.0)
  {
    hide AutoScore, GradeFor;
    assert SumBy(GradeMarks, []) == 0.0;
    TotalWithinMarks(t, submission, paper, []);
    ShareOfTotal(AutoScore(t, submission), TotalMarks(paper));
  }

  // ---------- the auto score is the marks of the right answers ----------

  function RightQuestions(t: Tables, answers: seq<Answer>, submission: Id): seq<Question> {
    if answers == [] then []
    else
      var rest, a := answers[..|answers| - 1], answers[|answers| - 1];
      RightQuestions(t, rest, submission)
      + if AutoAnswer(t, a, submission) && IsRight(t.questions[a.question], a) == Some(true)
        then [t.questions[a.question]] else []
  }

  lemma {:induction false} AutoScoreIsMarksOfRightAnswers(t: Tables, answers: seq<Answer>, submission: Id)
    ensures SumBy(MarksOf, AutoCredits(t, answers, submission)) == TotalMarks(RightQuestions(t, answers, submission))
  {
    hide IsRight;
    if answers != [] {
      var rest, a := answers[..|answers| - 1], answers[|answers| - 1];
      AutoScoreIsMarksOfRightAnswers(t, rest, submission);
      var credits, right := AutoCredits(t, rest, submission), RightQuestions(t, rest, submission);
      if AutoAnswer(t, a, submission) {
        SumByConcat(MarksOf, credits, [CreditFor(t, a)]);
        SumByConcat(QuestionMarks, right, [t.questions[a.question]]);
        assert [CreditFor(t, a)][1..] == [] && [t.questions[a.question]][1..] == [];
        assert right + [] == right;
      } else {
        assert credits + [] == credits && right + [] == right;
      }
    }
  }

  // ---------- running the job again ----------

  /** The same answers to the same questions; only marks may differ. */
  ghost predicate SameAnswers(a: seq<Answer>, b: seq<Answer>) {
    |a| == |b| && forall k :: 0 <= k < |a| ==>
      b[k] == a[k].(marksAwarded := b[k].marksAwarded, isCorrect := b[k].isCorrect)
  }

  /** Credits depend on what was answered, not on marks already written. */
  lemma {:induction false} CreditsIgnoreMarks(t: Tables, a: seq<Answer>, b: seq<Answer>, submission: Id)
    requires SameAnswers(a, b)
    ensures AutoCredits(t, b, submission) == AutoCredits(t, a, submission)
  {
    if a != [] {
      CreditsIgnoreMarks(t, a[..|a| - 1], b[..|b| - 1], submission);
    }
  }

  lemma {:induction false} CreditsOfTables(t: Tables, t': Tables, answers: seq<Answer>, submission: Id)
    requires t'.questions == t.questions
    ensures AutoCredits(t', answers, submission) == AutoCredits(t, answers, submission)
  {
    if answers != [] {
      CreditsOfTables(t, t', answers[..|answers| - 1], submission);
    }
  }

  lemma AutoScoreIgnoresMarks(t: Tables, t': Tables, submission: Id)
    requires t'.questions == t.questions && SameAnswers(t.answers, t'.answers)
    ensures AutoScore(t', submission) == AutoScore(t, submission)
  {
    CreditsIgnoreMarks(t, t.answers, t'.answers, submission);
    CreditsOfTables(t, t', t'.answers, submission);
  }

  lemma MarkedTwice(t: Tables, t': Tables, submission: Id)
    requires t'.questions == t.questions && t'.answers == MarkedAll(t, t.answers, submission)
    ensures MarkedAll(t', t'.answers, submission) == t'.answers
    ensures AutoScore(t', submission) == AutoScore(t, submission)
    ensures HasManual(t', submission) == HasManual(t, submission)
    ensures (exists a :: a in t'.answers && !Markable(t', a, submission))
      == (exists a :: a in t.answers && !Markable(t, a, submission))
  {
    hide SumBy;
    AutoScoreIgnoresMarks(t, t', submission);
    forall i | 0 <= i < |t.answers|
      ensures Marked(t', t'.answers[i], submission) == t'.answers[i]
      ensures ManualAnswer(t', t'.answers[i], submission) == ManualAnswer(t, t.answers[i], submission)
      ensures Markable(t', t'.answers[i], submission) == Markable(t, t.answers[i], submission)
    {}
    forall a | a in t.answers && (ManualAnswer(t, a, submission) || !Markable(t, a, submission))
      ensures Marked(t, a, submission) in t'.answers
    {
      var i :| 0 <= i < |t.answers| && t.answers[i] == a;
      assert t'.answers[i] == Marked(t, a, submission);
    }
  }

  /** A second run of the auto-grading job leaves every table, and what is passed on, as the first did. */
  lemma RerunChangesNothing(t: Tables, submission: Id)
    ensures var once := AutoGraded(t, submission);
            AutoGraded(once.tables, submission) == once
  {
    hide AutoScore, GradeFor, HasManual, Markable, MarkedAll;
    var once := AutoGraded(t, submission);
    if once.outcome == Graded {
      MarkedTwice(t, once.tables, submission);
    }
  }

  lemma {:induction false} TransactionKeepsAnswers(t: Tables, answers: seq<Answer>, grades: seq<Grade>)
    ensures SameAnswers(answers, Transacted(t, answers, grades).0)
    decreases |grades|
  {
    if grades != [] && GradeVerdict(t, answers, grades[0]) == Graded {
      TransactionKeepsAnswers(t, WithGrade(answers, grades[0]), grades[1..]);
    }
  }

  /** Grading by hand changes neither which answers wait for it nor whether the job can mark the others. */
  lemma GradingKeepsJob(t: Tables, graded: Tables, submission: Id)
    requires graded.questions == t.questions && SameAnswers(t.answers, graded.answers)
    ensures HasManual(graded, submission) == HasManual(t, submission)
    ensures (exists a :: a in graded.answers && !Markable(graded, a, submission))
         == (exists a :: a in t.answers && !Markable(t, a, submission))
  {
    forall k | 0 <= k < |t.answers|
      ensures ManualAnswer(graded, graded.answers[k], submission) == ManualAnswer(t, t.answers[k], submission)
      ensures Markable(graded, graded.answers[k], submission) == Markable(t, t.answers[k], submission)
    {}
    forall a | a in t.answers
      ensures ManualAnswer(t, a, submission) ==> HasManual(graded, submission)
      ensures !Markable(t, a, submission) ==> exists b :: b in graded.answers && !Markable(graded, b, submission)
    {
      var k :| 0 <= k < |t.answers| && t.answers[k] == a;
      assert graded.answers[k] in graded.answers;
    }
  }

  /** Some answer runs the job into a missing column: it marks nothing at all. */
  ghost predicate CannotMark(t: Tables, submission: Id) {
    exists a :: a in t.answers && !Markable(t, a, submission)
  }

  /** What the job does to the tables that grading by hand left behind. */
  lemma JobAfterGrading(t: Tables, submission: Id, grades: seq<Grade>)
    requires Resolves(t, submission) && ManuallyGraded(t, submission, grades).outcome == Graded
    ensures var graded := ManuallyGraded(t, submission, grades).tables;
            var after := AutoGraded(graded, submission);
            if CannotMark(t, submission) then after.tables == graded && after.feed == None
            else if HasManual(t, submission) then
              var s := graded.submissions[submission].(autoScore := Some(AutoScore(t, submission)));
              after.tables.submissions == graded.submissions[submission := s] && after.feed == None
            else
              after.tables.submissions
                == Finalised(graded, submission, AutoScore(t, submission), None).tables.submissions
  {
    hide AutoScore, GradeFor, Markable, MarkedAll, AutoCredits, HasManual, PercentageOf, Passes;
    var graded := ManuallyGraded(t, submission, grades).tables;
    TransactionKeepsAnswers(t, t.answers, grades);
    AutoScoreIgnoresMarks(t, graded, submission);
    GradingKeepsJob(t, graded, submission);
  }

  /** The row of a submission graded by hand, before and after the job. */
  lemma RowAfterJob(t: Tables, submission: Id, grades: seq<Grade>)
    requires Resolves(t, submission) && ManuallyGraded(t, submission, grades).outcome == Graded
    ensures var graded := ManuallyGraded(t, submission, grades).tables;
            submission in graded.submissions
            && submission in AutoGraded(graded, submission).tables.submissions
            && var byHand, row := graded.submissions[submission],
              AutoGraded(graded, submission).tables.submissions[submission];
            && byHand.autoScore == Some(StoredAuto(t, submission))
            && byHand.manualScore == Some(SumBy(GradeMarks, grades))
            && byHand.score.Some?
            && byHand.score.value.total == StoredAuto(t, submission) + SumBy(GradeMarks, grades)
            && if CannotMark(t, submission) then row == byHand
               else if HasManual(t, submission) then row == byHand.(autoScore := Some(AutoScore(t, submission)))
               else
                 row.autoScore == Some(AutoScore(t, submission)) && row.manualScore == None
                 && row.score.Some? && row.score.value.total == AutoScore(t, submission)
  {
    hide AutoScore, ManuallyGraded, AutoGraded, HasManual, PercentageOf, Finalised, Round2, Transacted, SumBy;
    JobAfterGrading(t, submission, grades);
    GradedRow(t, submission, grades);
    FinalisedRow(ManuallyGraded(t, submission, grades).tables, submission, AutoScore(t, submission), None);
  }

  /** The stored total is the sum of the two stored parts. */
  predicate TotalAddsUp(t: Tables, submission: Id) {
    submission in t.submissions
    && var s := t.submissions[submission];
    s.score.Some? ==> s.score.value.total == s.autoScore.GetOr(0.0) + s.manualScore.GetOr(0.0)
  }

  /**
   The job running after a grading by hand, late or again, leaves a total that is not the sum of its
   parts, unless grading had found the job's own score (for a job that had not stored one: unless that
   score is zero), or nothing was left to grade by hand, or the job cannot mark the answers at all.
   */
  lemma TotalAddsUpAfterJobIff(t: Tables, submission: Id, grades: seq<Grade>)
    requires Resolves(t, submission) && ManuallyGraded(t, submission, grades).outcome == Graded
    ensures var graded := ManuallyGraded(t, submission, grades).tables;
            && TotalAddsUp(graded, submission)
            && (TotalAddsUp(AutoGraded(graded, submission).tables, submission) <==>
                || StoredAuto(t, submission) == AutoScore(t, submission)
                || !HasManual(t, submission)
                || CannotMark(t, submission))
  {
    hide AutoScore, ManuallyGraded, AutoGraded, HasManual, Resolves, SumBy;
    RowAfterJob(t, submission, grades);
  }

  /** When a job that runs after a grading by hand changes no score: exactly then. */
  lemma RetryAfterGradingKeepsScoresIff(t: Tables, submission: Id, grades: seq<Grade>)
    requires Resolves(t, submission) && ManuallyGraded(t, submission, grades).outcome == Graded
    ensures var graded := ManuallyGraded(t, submission, grades).tables;
            AutoGraded(graded, submission).tables.submissions == graded.submissions <==>
              || (HasManual(t, submission) && StoredAuto(t, submission) == AutoScore(t, submission))
              || CannotMark(t, submission)
  {
    hide AutoScore, ManuallyGraded, AutoGraded, HasManual, PercentageOf, Finalised, Round2;
    JobAfterGrading(t, submission, grades);
    GradedRow(t, submission, grades);
    var graded := ManuallyGraded(t, submission, grades).tables;
    FinalisedRow(graded, submission, AutoScore(t, submission), None);
    assert graded.submissions[submission := graded.submissions[submission]] == graded.submissions;
  }

  // ---------- grading by hand before the job: an input ----------

  const CHOICE: Question :=
    Question("q1", MULTIPLE_CHOICE, 5.0, true, Some([Choice("a", true)]), None, None)
  const PROSE: Question := Question("q2", ESSAY, 5.0, false, None, None, None)
  const CHOSEN: Answer := Answer("a1", "s", "q1", Some("a"), None, None, None)
  const WRITTEN: Answer := Answer("a2", "s", "q2", None, Some("because"), None, None)

  /** One right choice and one essay, submitted; nothing has been graded. */
  const SUBMITTED: Tables := Tables(
    map[],
    map["e" := Assessment("e", "maths", "term", 10.0, None, false, None)],
    map["q1" := CHOICE, "q2" := PROSE],
    map["s" := Submission("s", "school", "student", "e", None, None, None)],
    [CHOSEN, WRITTEN])

  /** The essay is given 3 marks before the job has run: the job then stores 5, and the total stays 3. */
  lemma JobAfterGradingCanLoseMarks()
    ensures var graded := ManuallyGraded(SUBMITTED, "s", [Grade("a2", 3.0)]);
            graded.outcome == Graded
            && "s" in AutoGraded(graded.tables, "s").tables.submissions
            && var after := AutoGraded(graded.tables, "s").tables.submissions["s"];
            && after.score.Some? && after.score.value.total == 3.0
            && after.autoScore == Some(5.0) && after.manualScore == Some(3.0)
  {
    hide ManuallyGraded, AutoGraded, AutoScore, SumBy;
    var t := SUBMITTED;
    SampleGrading();
    SampleAutoScore();
    assert WRITTEN in t.answers && ManualAnswer(t, WRITTEN, "s");
    RowAfterJob(t, "s", [Grade("a2", 3.0)]);
  }

  lemma SampleGrading()
    ensures ManuallyGraded(SUBMITTED, "s", [Grade("a2", 3.0)]).outcome == Graded
    ensures SumBy(GradeMarks, [Grade("a2", 3.0)]) == 3.0
  {
    hide Finalised;
    var t, grades := SUBMITTED, [Grade("a2", 3.0)];
    assert [CHOSEN, WRITTEN][1..] == [WRITTEN] && grades[1..] == [];
    assert IndexOfAnswer([WRITTEN], "a2") == 0;
    assert IndexOfAnswer(t.answers, "a2") == 1;
    assert GradeVerdict(t, t.answers, grades[0]) == Graded;
    assert SumBy(GradeMarks, []) == 0.0;
    assert Transacted(t, t.answers, grades).1 == Graded;
    FinalisedRow(t.(answers := Transacted(t, t.answers, grades).0), "s", 0.0, Some(SumBy(GradeMarks, grades)));
  }

  lemma SampleAutoScore()
    ensures AutoScore(SUBMITTED, "s") == 5.0 && AutoGraded(SUBMITTED, "s").outcome == Graded
  {
    hide GradeFor, PercentageOf, Passes;
    var t := SUBMITTED;
    assert [CHOSEN, WRITTEN][..1] == [CHOSEN] && [CHOSEN][..0] == [];
    assert IsRight(CHOICE, CHOSEN) == Some(true);
    assert AutoCredits(t, [], "s") == [];
    assert AutoCredits(t, [CHOSEN], "s") == [CreditFor(t, CHOSEN)];
    assert AutoCredits(t, t.answers, "s") == [Credit("q1", 5.0)];
    assert [Credit("q1", 5.0)][1..] == [];
  }
}
