/**
 Assessments, submissions and answers, and what grading writes into them
 (src/assessment/grading.service.ts:36-265).
 */
module GradingDb {
  import opened Basics
  import opened Rounding
  import opened Sorting
  import opened Sums
  import opened GradeScale
  import opened SchoolConfig
  import opened Registrations
  import opened ResultDb

  datatype QuestionType = MULTIPLE_CHOICE | TRUE_FALSE | FILL_IN_THE_BLANK | ESSAY | SHORT_ANSWER

  datatype Choice = Choice(id: Id, isCorrect: bool)

  datatype Question = Question(
    id: Id,
    kind: QuestionType,
    marks: real,
    isAutoGradable: bool,
    options: Option<seq<Choice>>,
    correctAnswer: Option<string>,
    acceptedAnswers: Option<seq<string>>)

  datatype Answer = Answer(
    id: Id,
    submission: Id,
    question: Id,
    selected: Option<Id>,
    text: Option<string>,
    marksAwarded: Option<real>,
    isCorrect: Option<bool>)

  datatype Assessment = Assessment(
    id: Id,
    subject: Id,
    term: Id,
    totalMarks: real,
    passMark: Option<real>,
    isExamComponent: bool,
    component: Option<CaComponent>)

  /** A quotient of JavaScript numbers: dividing by zero gives NaN or an infinity. */
  datatype Percentage = Number(value: real) | NaN | Infinite(positive: bool)

  datatype Score = Score(
    total: real, percentage: Percentage, grading: Grading, isPassed: bool)

  datatype Submission = Submission(
    id: Id,
    tenant: Id,
    student: Id,
    assessment: Id,
    autoScore: Option<real>,
    manualScore: Option<real>,
    score: Option<Score>)

  datatype Grade = Grade(answer: Id, marks: real)

  datatype Tables = Tables(
    configs: map<Id, Config>,
    assessments: map<Id, Assessment>,
    questions: map<Id, Question>,
    submissions: map<Id, Submission>,
    answers: seq<Answer>)

  datatype Outcome = Graded | SubmissionNotFound | TooManyMarks | AnswerNotFound | BrokenQuestion

  // ---------- marking one answer ----------

  predicate IsSpace(c: char) {
    c == ' ' || '\t' <= c <= '\r'
  }

  function TrimStart(s: string): string {
    if s != [] && IsSpace(s[0]) then TrimStart(s[1..]) else s
  }

  function TrimEnd(s: string): string {
    if s != [] && IsSpace(s[|s| - 1]) then TrimEnd(s[..|s| - 1]) else s
  }

  function LowerCase(s: string): string {
    seq(|s|, i requires 0 <= i < |s| => if 'A' <= s[i] <= 'Z' then (s[i] as int + 32) as char else s[i])
  }

  function Normal(s: string): string {
    TrimEnd(TrimStart(LowerCase(s)))
  }

  /** The first option marked correct. */
  function FirstCorrect(options: seq<Choice>): (r: Option<Id>)
    ensures r.None? ==> forall o :: o in options ==> !o.isCorrect
    ensures r.Some? ==> Choice(r.value, true) in options
  {
    if options == [] then None
    else if options[0].isCorrect then
      assert options[0] == Choice(options[0].id, true);
      Some(options[0].id)
    else FirstCorrect(options[1..])
  }

  function AcceptedAnswers(q: Question): Option<seq<string>> {
    if q.acceptedAnswers.Some? then q.acceptedAnswers
    else if q.correctAnswer.Some? then Some([q.correctAnswer.value])
    else None
  }

  /** Whether an auto-gradable answer is right; nothing when the check runs into a missing column. */
  function IsRight(q: Question, a: Answer): Option<bool> {
    match q.kind
    case MULTIPLE_CHOICE | TRUE_FALSE =>
      if q.options.None? then None
      else
        var correct := FirstCorrect(q.options.value);
        Some(correct.Some? && a.selected == correct)
    case FILL_IN_THE_BLANK =>
      var accepted := AcceptedAnswers(q);
      if accepted.None? then None
      else Some(exists s :: s in accepted.value && Normal(s) == Normal(a.text.GetOr("")))
    case ESSAY | SHORT_ANSWER => Some(false)
  }

  // ---------- marking a submission ----------

  predicate AutoAnswer(t: Tables, a: Answer, submission: Id) {
    a.submission == submission && a.question in t.questions && t.questions[a.question].isAutoGradable
  }

  predicate ManualAnswer(t: Tables, a: Answer, submission: Id) {
    a.submission == submission && a.question in t.questions && !t.questions[a.question].isAutoGradable
  }

  /** Marks credited to a question. */
  datatype Credit = Credit(question: Id, marks: real)

  function MarksOf(c: Credit): real {
    c.marks
  }

  predicate Markable(t: Tables, a: Answer, submission: Id) {
    AutoAnswer(t, a, submission) ==> IsRight(t.questions[a.question], a).Some?
  }

  function CreditFor(t: Tables, a: Answer): Credit
    requires a.question in t.questions
  {
    var q := t.questions[a.question];
    Credit(q.id, if IsRight(q, a) == Some(true) then q.marks else 0.0)
  }

  function AutoCredits(t: Tables, answers: seq<Answer>, submission: Id): seq<Credit> {
    if answers == [] then []
    else
      var rest, a := answers[..|answers| - 1], answers[|answers| - 1];
      AutoCredits(t, rest, submission) + if AutoAnswer(t, a, submission) then [CreditFor(t, a)] else []
  }

  function Marked(t: Tables, a: Answer, submission: Id): Answer {
    if AutoAnswer(t, a, submission)
    then a.(marksAwarded := Some(CreditFor(t, a).marks), isCorrect := IsRight(t.questions[a.question], a))
    else a
  }

  function MarkedAll(t: Tables, answers: seq<Answer>, submission: Id): seq<Answer> {
    seq(|answers|, i requires 0 <= i < |answers| => Marked(t, answers[i], submission))
  }

  function AutoScore(t: Tables, submission: Id): real {
    SumBy(MarksOf, AutoCredits(t, t.answers, submission))
  }

  predicate HasManual(t: Tables, submission: Id) {
    exists a :: a in t.answers && ManualAnswer(t, a, submission)
  }

  // ---------- the final score ----------

  function PercentageOf(total: real, max: real): Percentage {
    if max != 0.0 then Number(total / max * 100.0)
    else if total == 0.0 then NaN
    else Infinite(total > 0.0)
  }

  /** Comparisons with NaN fail, and no band reaches an infinity: the fallback grade remains. */
  function FallbackGrade(scale: seq<Band>): Grading {
    if scale == [] then Grading("F", 0.0, "Fail")
    else
      SameElements(Sort(HigherMin, scale), scale);
      Award(Sort(HigherMin, scale)[|scale| - 1])
  }

  function GradeFor(p: Percentage, scale: seq<Band>): Grading {
    if p.Number? then ApplyGradeScale(p.value, scale) else FallbackGrade(scale)
  }

  predicate Passes(p: Percentage, mark: real) {
    match p
    case Number(v) => v >= mark
    case NaN => false
    case Infinite(positive) => positive
  }

  function PassMark(a: Assessment, config: Config): real {
    if a.passMark.Some? then a.passMark.value else config.passMark.GetOr(40) as real
  }

  function ScoreOf(total: real, a: Assessment, config: Config): Score {
    var p := PercentageOf(total, a.totalMarks);
    Score(total, if p.Number? then Number(Round2(p.value)) else p, GradeFor(p, config.gradingScale),
      Passes(p, PassMark(a, config)))
  }

  /** What is passed on to the result engine; a percentage that is not a number is left out of this model. */
  function Feed(s: Submission, a: Assessment, total: real): Option<ScoreUpdate> {
    var p := PercentageOf(total, a.totalMarks);
    if a.isExamComponent && p.Number? then Some(ScoreUpdate(s.student, a.subject, a.term, a.component, p.value))
      else None
  }

  datatype Effect = Effect(tables: Tables, feed: Option<ScoreUpdate>, outcome: Outcome)

  predicate Resolves(t: Tables, submission: Id) {
    submission in t.submissions && t.submissions[submission].assessment in t.assessments
  }

  function Finalised(t: Tables, submission: Id, auto: real, manual: Option<real>): Effect {
    if !Resolves(t, submission) then Effect(t, None, SubmissionNotFound)
    else
      var s := t.submissions[submission];
      var a := t.assessments[s.assessment];
      var total := auto + manual.GetOr(0.0);
      var graded := s.(autoScore := Some(auto), manualScore := manual,
        score := Some(ScoreOf(total, a, GetConfig(t.configs, s.tenant))));
      Effect(t.(submissions := t.submissions[submission := graded]), Feed(s, a, total), Graded)
  }

  function AutoGraded(t: Tables, submission: Id): Effect {
    if !Resolves(t, submission) then Effect(t, None, SubmissionNotFound)
    else if exists a :: a in t.answers && !Markable(t, a, submission) then Effect(t, None, BrokenQuestion)
    else
      var marked := t.(answers := MarkedAll(t, t.answers, submission));
      if !HasManual(t, submission) then Finalised(marked, submission, AutoScore(t, submission), None)
      else
        var s := t.submissions[submission].(autoScore := Some(AutoScore(t, submission)));
        Effect(marked.(submissions := t.submissions[submission := s]), None, Graded)
  }

  // ---------- manual grading ----------

  function IndexOfAnswer(answers: seq<Answer>, id: Id): (i: int)
    ensures -1 <= i < |answers| && (0 <= i ==> answers[i].id == id)
    ensures i == -1 ==> forall a :: a in answers ==> a.id != id
  {
    if answers == [] then -1
    else if answers[0].id == id then 0
    else
      var i := IndexOfAnswer(answers[1..], id);
      if i == -1 then -1 else i + 1
  }

  /** The marks of the question behind an answer, zero when there is none. */
  function MarksAvailable(t: Tables, answers: seq<Answer>, id: Id): real {
    var i := IndexOfAnswer(answers, id);
    if i != -1 && answers[i].question in t.questions then t.questions[answers[i].question].marks else 0.0
  }

  function GradeVerdict(t: Tables, answers: seq<Answer>, g: Grade): Outcome {
    if g.marks > MarksAvailable(t, answers, g.answer) then TooManyMarks
    else if IndexOfAnswer(answers, g.answer) == -1 then AnswerNotFound
    else Graded
  }

  function WithGrade(answers: seq<Answer>, g: Grade): seq<Answer> {
    var i := IndexOfAnswer(answers, g.answer);
    if i == -1 then answers else answers[i := answers[i].(marksAwarded := Some(g.marks))]
  }

  /** The transaction: all grades, or the first failure. */
  function Transacted(t: Tables, answers: seq<Answer>, grades: seq<Grade>): (seq<Answer>, Outcome)
    decreases |grades|
  {
    if grades == [] then (answers, Graded)
    else
      var verdict := GradeVerdict(t, answers, grades[0]);
      if verdict != Graded then (answers, verdict) else Transacted(t, WithGrade(answers, grades[0]), grades[1..])
  }

  function GradeMarks(g: Grade): real {
    g.marks
  }

  function ManuallyGraded(t: Tables, submission: Id, grades: seq<Grade>): Effect {
    var (answers, outcome) := Transacted(t, t.answers, grades);
    if outcome != Graded then Effect(t, None, outcome)
    else
      var auto := if submission in t.submissions then t.submissions[submission].autoScore.GetOr(0.0) else 0.0;
      Finalised(t.(answers := answers), submission, auto, Some(SumBy(GradeMarks, grades)))
  }

  // ---------- what is passed on to the result engine ----------

  /** What the result engine's tables become when a score is passed on. */
  function AfterFeed(db: Db, feed: Option<ScoreUpdate>): Db {
    if feed.Some? then AfterScore(db, feed.value).0 else db
  }

  /** What the result engine answers, when it is called: a refusal by it fails the grading call that made it. */
  function FeedOutcome(db: Db, feed: Option<ScoreUpdate>): Option<ResultDb.Outcome> {
    if feed.Some? then Some(AfterScore(db, feed.value).1) else None
  }
}
