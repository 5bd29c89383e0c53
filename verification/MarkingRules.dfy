/**
 How answers are marked, without reference to how the marking is computed: what the job writes for each
 kind of question, and what it means that a text matches an accepted one.
 */
module MarkingRules {
  import opened Basics
  import opened Sums
  import opened GradingDb

  // ---------- when two texts match ----------

  predicate AllSpaces(s: string) {
    forall k :: 0 <= k < |s| ==> IsSpace(s[k])
  }

  /** No space at either end. */
  predicate Bare(s: string) {
    s != [] ==> !IsSpace(s[0]) && !IsSpace(s[|s| - 1])
  }

  /** The same letter but for its case, or the same character. */
  predicate SameLetter(a: char, b: char) {
    || a == b
    || ('A' <= a <= 'Z' && b as int == a as int + 32)
    || ('A' <= b <= 'Z' && a as int == b as int + 32)
  }

  predicate SameLetters(a: string, b: string) {
    |a| == |b| && forall k :: 0 <= k < |a| ==> SameLetter(a[k], b[k])
  }

  /** `core` with nothing but spaces around it. */
  ghost predicate Wraps(s: string, core: string) {
    Bare(core) && exists before, after :: AllSpaces(before) && AllSpaces(after) && s == before + core + after
  }

  /** The texts differ in case and in outer spaces only. */
  ghost predicate SameText(a: string, b: string) {
    exists x, y :: Wraps(a, x) && Wraps(b, y) && SameLetters(x, y)
  }

  function Trimmed(s: string): string {
    TrimEnd(TrimStart(s))
  }

  lemma {:induction false} TrimStartWraps(s: string) returns (before: string)
    ensures AllSpaces(before) && s == before + TrimStart(s)
    ensures TrimStart(s) != [] ==> !IsSpace(TrimStart(s)[0])
  {
    if s != [] && IsSpace(s[0]) {
      before := TrimStartWraps(s[1..]);
      before := [s[0]] + before;
    } else {
      before := [];
    }
  }

  lemma {:induction false} TrimEndWraps(s: string) returns (after: string)
    ensures AllSpaces(after) && s == TrimEnd(s) + after
    ensures TrimEnd(s) != [] ==> !IsSpace(TrimEnd(s)[|TrimEnd(s)| - 1]) && TrimEnd(s)[0] == s[0]
  {
    if s != [] && IsSpace(s[|s| - 1]) {
      after := TrimEndWraps(s[..|s| - 1]);
      after := after + [s[|s| - 1]];
    } else {
      after := [];
    }
  }

  lemma TrimmedWraps(s: string)
    ensures Wraps(s, Trimmed(s))
  {
    hide TrimStart, TrimEnd;
    var before := TrimStartWraps(s);
    var after := TrimEndWraps(TrimStart(s));
    assert s == before + Trimmed(s) + after;
  }

  lemma {:induction false} TrimStartOf(before: string, rest: string)
    requires AllSpaces(before) && (rest != [] ==> !IsSpace(rest[0]))
    ensures TrimStart(before + rest) == rest
  {
    if before == [] {
      assert before + rest == rest;
    } else {
      assert (before + rest)[1..] == before[1..] + rest;
      TrimStartOf(before[1..], rest);
    }
  }

  lemma {:induction false} TrimEndOf(core: string, after: string)
    requires AllSpaces(after) && (core != [] ==> !IsSpace(core[|core| - 1]))
    ensures TrimEnd(core + after) == core
  {
    if after == [] {
      assert core + after == core;
    } else {
      var all := core + after;
      assert all[..|all| - 1] == core + after[..|after| - 1];
      TrimEndOf(core, after[..|after| - 1]);
    }
  }

  lemma {:induction false} OnlySpacesTrimmed(s: string)
    requires AllSpaces(s)
    ensures TrimStart(s) == []
  {
    if s != [] {
      OnlySpacesTrimmed(s[1..]);
    }
  }

  /** Whatever is bare inside spaces is what trimming leaves. */
  lemma WrapsIsTrimmed(s: string, core: string)
    requires Wraps(s, core)
    ensures Trimmed(s) == core
  {
    var before, after :| AllSpaces(before) && AllSpaces(after) && s == before + core + after;
    if core == [] {
      assert s == before + after;
      OnlySpacesTrimmed(s);
    } else {
      assert s == before + (core + after);
      TrimStartOf(before, core + after);
      TrimEndOf(core, after);
    }
  }

  // ---------- lower case ----------

  lemma LowerLetters(a: string, b: string)
    ensures LowerCase(a) == LowerCase(b) <==> SameLetters(a, b)
  {
    if LowerCase(a) == LowerCase(b) {
      assert |LowerCase(a)| == |a| && |LowerCase(b)| == |b|;
      forall k | 0 <= k < |a| ensures SameLetter(a[k], b[k]) {
        assert LowerCase(a)[k] == LowerCase(b)[k];
      }
    }
  }

  lemma LowerSpaces(s: string, k: nat)
    requires k < |s|
    ensures IsSpace(LowerCase(s)[k]) <==> IsSpace(s[k])
  {}

  lemma LowerConcat(a: string, b: string)
    ensures LowerCase(a + b) == LowerCase(a) + LowerCase(b)
  {}

  lemma LowerWraps(s: string, core: string)
    requires Wraps(s, core)
    ensures Wraps(LowerCase(s), LowerCase(core))
  {
    var before, after :| AllSpaces(before) && AllSpaces(after) && s == before + core + after;
    LowerConcat(before + core, after);
    LowerConcat(before, core);
    LowerSpaceOnly(before);
    LowerSpaceOnly(after);
    if core != [] {
      LowerSpaces(core, 0);
      LowerSpaces(core, |core| - 1);
    }
    hide LowerCase, AllSpaces;
    assert |LowerCase(core)| == |core| by {
      LowerLength(core);
    }
  }

  lemma LowerLength(s: string)
    ensures |LowerCase(s)| == |s|
  {}

  lemma LowerSpaceOnly(s: string)
    requires AllSpaces(s)
    ensures AllSpaces(LowerCase(s))
  {}

  /** Lower-casing commutes with trimming. */
  lemma NormalIsLowerTrimmed(s: string)
    ensures Normal(s) == LowerCase(Trimmed(s))
  {
    hide TrimStart, TrimEnd, LowerCase, Wraps;
    TrimmedWraps(s);
    LowerWraps(s, Trimmed(s));
    WrapsIsTrimmed(LowerCase(s), LowerCase(Trimmed(s)));
  }

  /** Two texts are treated alike exactly when they differ in ASCII case and outer spaces only. */
  lemma NormalIffSameText(a: string, b: string)
    ensures Normal(a) == Normal(b) <==> SameText(a, b)
  {
    hide Normal, LowerCase, Wraps, Trimmed;
    NormalIsLowerTrimmed(a);
    NormalIsLowerTrimmed(b);
    TrimmedWraps(a);
    TrimmedWraps(b);
    LowerLetters(Trimmed(a), Trimmed(b));
    if SameText(a, b) {
      var x, y :| Wraps(a, x) && Wraps(b, y) && SameLetters(x, y);
      WrapsIsTrimmed(a, x);
      WrapsIsTrimmed(b, y);
    }
  }

  // ---------- what is right ----------

  /** The id chosen is that of the first option marked correct. */
  ghost predicate ChoosesFirstCorrect(options: seq<Choice>, selected: Option<Id>) {
    exists k :: 0 <= k < |options| && options[k].isCorrect && selected == Some(options[k].id)
                && forall j :: 0 <= j < k ==> !options[j].isCorrect
  }

  lemma {:induction false} FirstCorrectIsFirst(options: seq<Choice>, selected: Option<Id>)
    ensures FirstCorrect(options).Some? && selected == FirstCorrect(options) <==> ChoosesFirstCorrect(options, selected)
  {
    if options != [] {
      var rest := options[1..];
      FirstCorrectIsFirst(rest, selected);
      if options[0].isCorrect {
        assert selected == Some(options[0].id) ==> ChoosesFirstCorrect(options, selected);
      } else {
        if ChoosesFirstCorrect(rest, selected) {
          var k :| 0 <= k < |rest| && rest[k].isCorrect && selected == Some(rest[k].id)
            && forall j :: 0 <= j < k ==> !rest[j].isCorrect;
          assert options[k + 1] == rest[k];
          assert forall j :: 0 <= j < k + 1 ==> !options[j].isCorrect;
        }
        if ChoosesFirstCorrect(options, selected) {
          var k :| 0 <= k < |options| && options[k].isCorrect && selected == Some(options[k].id)
            && forall j :: 0 <= j < k ==> !options[j].isCorrect;
          assert rest[k - 1] == options[k];
        }
      }
    }
  }

  /** An accepted answer: one of the list, or the correct answer where there is no list. */
  predicate Accepted(q: Question, s: string) {
    if q.acceptedAnswers.Some? then s in q.acceptedAnswers.value else q.correctAnswer == Some(s)
  }

  ghost predicate MatchesAccepted(q: Question, a: Answer) {
    exists s :: Accepted(q, s) && SameText(s, a.text.GetOr(""))
  }

  /** Right: for choices and true or false, the first correct option; for blanks, an accepted text; else never. */
  ghost predicate Right(q: Question, a: Answer) {
    match q.kind
    case MULTIPLE_CHOICE => q.options.Some? && ChoosesFirstCorrect(q.options.value, a.selected)
    case TRUE_FALSE => q.options.Some? && ChoosesFirstCorrect(q.options.value, a.selected)
    case FILL_IN_THE_BLANK => MatchesAccepted(q, a)
    case ESSAY => false
    case SHORT_ANSWER => false
  }

  lemma IsRightIsRight(q: Question, a: Answer)
    requires IsRight(q, a).Some?
    ensures IsRight(q, a) == Some(Right(q, a))
  {
    hide Normal, FirstCorrect, SameText, ChoosesFirstCorrect;
    match q.kind
    case MULTIPLE_CHOICE => FirstCorrectIsFirst(q.options.value, a.selected);
    case TRUE_FALSE => FirstCorrectIsFirst(q.options.value, a.selected);
    case FILL_IN_THE_BLANK =>
      var accepted := AcceptedAnswers(q).value;
      var text := a.text.GetOr("");
      forall s ensures Normal(s) == Normal(text) <==> SameText(s, text) {
        NormalIffSameText(s, text);
      }
      assert forall s :: s in accepted <==> Accepted(q, s);
    case ESSAY =>
    case SHORT_ANSWER =>
  }

  // ---------- what the job writes ----------

  /** The answer after the job: marked if it is to a gradable question of the submission, else as it was. */
  ghost predicate MarkedByRule(t: Tables, submission: Id, a: Answer, after: Answer) {
    if a.submission == submission && a.question in t.questions && t.questions[a.question].isAutoGradable then
      var q := t.questions[a.question];
      && after == a.(marksAwarded := after.marksAwarded, isCorrect := after.isCorrect)
      && after.isCorrect == Some(Right(q, a))
      && after.marksAwarded == Some(if Right(q, a) then q.marks else 0.0)
    else after == a
  }

  /** Marks written into the auto-gradable answers of the submission. */
  function Awarded(t: Tables, answers: seq<Answer>, submission: Id): real {
    if answers == [] then 0.0
    else
      var a := answers[|answers| - 1];
      Awarded(t, answers[..|answers| - 1], submission)
      + (if a.submission == submission && a.question in t.questions && t.questions[a.question].isAutoGradable
         then a.marksAwarded.GetOr(0.0) else 0.0)
  }

  lemma {:induction false} AwardedIsCredited(t: Tables, answers: seq<Answer>, submission: Id)
    ensures Awarded(t, MarkedAll(t, answers, submission), submission)
      == SumBy(MarksOf, AutoCredits(t, answers, submission))
  {
    hide IsRight;
    if answers != [] {
      var rest, a := answers[..|answers| - 1], answers[|answers| - 1];
      AwardedIsCredited(t, rest, submission);
      var marked := MarkedAll(t, answers, submission);
      assert marked[..|marked| - 1] == MarkedAll(t, rest, submission);
      if AutoAnswer(t, a, submission) {
        SumByConcat(MarksOf, AutoCredits(t, rest, submission), [CreditFor(t, a)]);
        assert [CreditFor(t, a)][1..] == [];
      } else {
        assert AutoCredits(t, rest, submission) + [] == AutoCredits(t, rest, submission);
      }
    }
  }

  /**
   A job that goes through marks every auto-gradable answer of the submission by the rule, and no other,
   and stores the sum of those marks as the auto score.
   */
  lemma JobMarksByRule(t: Tables, submission: Id, k: nat)
    requires AutoGraded(t, submission).outcome == Graded
    ensures var after := AutoGraded(t, submission).tables;
            && |after.answers| == |t.answers|
            && (k < |t.answers| ==> MarkedByRule(t, submission, t.answers[k], after.answers[k]))
            && submission in after.submissions
            && after.submissions[submission].autoScore == Some(Awarded(t, after.answers, submission))
            && after.questions == t.questions && after.assessments == t.assessments
            && (forall s :: s in t.submissions && s != submission ==>
                s in after.submissions && after.submissions[s] == t.submissions[s])
  {
    hide IsRight, ScoreOf, Feed, HasManual, Right;
    AwardedIsCredited(t, t.answers, submission);
    if k < |t.answers| {
      var a := t.answers[k];
      assert Markable(t, a, submission);
      if AutoAnswer(t, a, submission) {
        IsRightIsRight(t.questions[a.question], a);
      }
    }
  }

  /** The job fails, changing nothing, without its submission, or when a gradable answer's question lacks its key. */
  lemma JobFailsIff(t: Tables, submission: Id)
    ensures var e := AutoGraded(t, submission);
            && (e.outcome == Graded <==>
                && submission in t.submissions && t.submissions[submission].assessment in t.assessments
                && forall a :: a in t.answers && AutoAnswer(t, a, submission) ==> HasKey(t.questions[a.question]))
            && (e.outcome != Graded ==> e.tables == t && e.feed == None)
  {
    hide ScoreOf, Feed, HasManual, Normal, FirstCorrect;
    forall a ensures Markable(t, a, submission) <==>
      (AutoAnswer(t, a, submission) ==> HasKey(t.questions[a.question])) {}
  }

  /** What the marking of a question reads: options for choices, an accepted answer for blanks. */
  predicate HasKey(q: Question) {
    match q.kind
    case MULTIPLE_CHOICE => q.options != None
    case TRUE_FALSE => q.options != None
    case FILL_IN_THE_BLANK => q.acceptedAnswers != None || q.correctAnswer != None
    case ESSAY => true
    case SHORT_ANSWER => true
  }
}
