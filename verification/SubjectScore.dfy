/** The final score of one subject (src/result-engine/result-engine.service.ts:42-60). */
module SubjectScore {
  import opened Basics
  import opened Rounding
  import opened Sums
  import opened Registrations

  function NonNull(scores: seq<Option<real>>): seq<real> {
    if scores == [] then []
    else if scores[0].Some? then [scores[0].value] + NonNull(scores[1..])
    else NonNull(scores[1..])
  }

  function Sum(s: seq<real>): real {
    if s == [] then 0.0 else s[0] + Sum(s[1..])
  }

  function CaRawAverage(ca: CaScores): real {
    var scores := NonNull(ca);
    if |scores| > 0 then Sum(scores) / |scores| as real else 0.0
  }

  /** A score out of 100 scaled to a weight. */
  function Share(score: real, weight: int): real {
    score / 100.0 * weight as real
  }

  function CaTotal(ca: CaScores, caWeight: int): real {
    Share(CaRawAverage(ca), caWeight)
  }

  function ExamPart(exam: Option<real>, examWeight: int): real {
    if exam.Some? then Share(exam.value, examWeight) else 0.0
  }

  function ExactScore(ca: CaScores, exam: Option<real>, caWeight: int, examWeight: int): real {
    CaTotal(ca, caWeight) + ExamPart(exam, examWeight)
  }

  function FinalScore(ca: CaScores, exam: Option<real>, caWeight: int, examWeight: int): real {
    Round2(ExactScore(ca, exam, caWeight, examWeight))
  }

  ghost predicate InRange(s: Option<real>) {
    s.Some? ==> 0.0 <= s.value <= 100.0
  }

  lemma {:induction false} SumInRange(scores: seq<Option<real>>)
    requires forall i :: 0 <= i < |scores| ==> InRange(scores[i])
    ensures 0.0 <= Sum(NonNull(scores)) <= 100.0 * |NonNull(scores)| as real
  {
    if scores != [] {
      SumInRange(scores[1..]);
      assert InRange(scores[0]);
      if scores[0].Some? {
        var rest := NonNull(scores[1..]);
        assert ([scores[0].value] + rest)[1..] == rest;
      }
    }
  }

  lemma AverageInRange(ca: CaScores)
    requires forall i :: 0 <= i < 5 ==> InRange(ca[i])
    ensures 0.0 <= CaRawAverage(ca) <= 100.0
  {
    SumInRange(ca);
    var n := |NonNull(ca)| as real;
    if n > 0.0 {
      QuotientBetween(Sum(NonNull(ca)), n, 0.0, 100.0);
    }
  }

  lemma ShareBounds(score: real, weight: int)
    requires 0.0 <= score <= 100.0 && 0 <= weight
    ensures 0.0 <= Share(score, weight) <= weight as real
  {
    var w := weight as real;
    assert score / 100.0 * w <= 1.0 * w;
  }

  /** Scores between 0 and 100 and weights adding up to 100 give a final score between 0 and 100. */
  lemma FinalScoreInRange(ca: CaScores, exam: Option<real>, caWeight: int, examWeight: int)
    requires 1 <= caWeight <= 99 && caWeight + examWeight == 100
    requires InRange(exam) && forall i :: 0 <= i < 5 ==> InRange(ca[i])
    ensures 0.0 <= FinalScore(ca, exam, caWeight, examWeight) <= 100.0
    ensures -0.005 <= FinalScore(ca, exam, caWeight, examWeight) - ExactScore(ca, exam, caWeight, examWeight) <= 0.005
  {
    var exact := ExactScore(ca, exam, caWeight, examWeight);
    AverageInRange(ca);
    ShareBounds(CaRawAverage(ca), caWeight);
    if exam.Some? {
      ShareBounds(exam.value, examWeight);
    }
    assert caWeight as real + examWeight as real == 100.0;
    RoundNear(exact);
    RoundMonotone(0.0, exact);
    RoundMonotone(exact, 100.0);
    RoundHundredths(0);
    RoundHundredths(10000);
  }

  /** `to` has a score wherever `from` has one, and none of them is lower. */
  ghost predicate Raised(from: seq<Option<real>>, to: seq<Option<real>>) {
    && |from| == |to|
    && forall i :: 0 <= i < |from| ==>
        (from[i].Some? <==> to[i].Some?) && (from[i].Some? ==> from[i].value <= to[i].value)
  }

  lemma {:induction false} RaisedSum(from: seq<Option<real>>, to: seq<Option<real>>)
    requires Raised(from, to)
    ensures |NonNull(from)| == |NonNull(to)| && Sum(NonNull(from)) <= Sum(NonNull(to))
  {
    if from != [] {
      RaisedSum(from[1..], to[1..]);
      if from[0].Some? {
        var f, t := NonNull(from[1..]), NonNull(to[1..]);
        assert ([from[0].value] + f)[1..] == f && ([to[0].value] + t)[1..] == t;
      }
    }
  }

  lemma ShareMonotone(a: real, b: real, weight: int)
    requires a <= b && 0 <= weight
    ensures Share(a, weight) <= Share(b, weight)
  {
    var w := weight as real;
    assert (b / 100.0 - a / 100.0) * w >= 0.0;
  }

  lemma AverageMonotone(from: CaScores, to: CaScores)
    requires Raised(from, to)
    ensures CaRawAverage(from) <= CaRawAverage(to)
  {
    RaisedSum(from, to);
    var n := |NonNull(from)| as real;
    if n > 0.0 {
      QuotientMonotone(Sum(NonNull(from)), Sum(NonNull(to)), n);
    }
  }

  lemma QuotientMonotone(a: real, b: real, n: real)
    requires a <= b && 0.0 < n
    ensures a / n <= b / n
  {
    assert a / n * n == a && b / n * n == b;
  }

  /**
   Raising scores that are present never lowers the final score, and neither does a first exam
   score. (A first CA score may: it enters the average.)
   */
  lemma FinalScoreMonotone(ca: CaScores, exam: Option<real>, ca': CaScores, exam': Option<real>,
                           caWeight: int, examWeight: int)
    requires 0 <= caWeight && 0 <= examWeight
    requires Raised(ca, ca')
    requires exam.Some? ==> exam'.Some? && exam.value <= exam'.value
    requires exam.None? && exam'.Some? ==> 0.0 <= exam'.value
    ensures FinalScore(ca, exam, caWeight, examWeight) <= FinalScore(ca', exam', caWeight, examWeight)
  {
    AverageMonotone(ca, ca');
    ShareMonotone(CaRawAverage(ca), CaRawAverage(ca'), caWeight);
    assert ExamPart(exam, examWeight) <= ExamPart(exam', examWeight) by {
      if exam'.Some? {
        ShareMonotone(if exam.Some? then exam.value else 0.0, exam'.value, examWeight);
        assert Share(0.0, examWeight) == 0.0;
      }
    }
    RoundMonotone(ExactScore(ca, exam, caWeight, examWeight), ExactScore(ca', exam', caWeight, examWeight));
  }
}
