/**
 is_passed compares the grade points of a subject with the pass mark, which is a percentage
 (src/result-engine/result-engine.service.ts:74-78): when that says what it seems to say.
 */
module PassMark {
  import opened Basics
  import opened Rounding
  import opened Sorting
  import opened GradeScale
  import opened SchoolConfig
  import opened Registrations
  import opened SubjectScore
  import opened ResultDb

  function Mark(config: Config): int {
    config.passMark.GetOr(40)
  }

  predicate Passed(r: Registration, config: Config) {
    SubjectResultOf(r, config).isPassed
  }

  // ---------- nobody passes ----------

  /** Where no band carries as many points as the pass mark, nobody passes, whatever the scores. */
  lemma PointsBelowMark(r: Registration, config: Config)
    requires 0 < Mark(config) && forall b :: b in config.gradingScale ==> b.points < Mark(config) as real
    ensures !Passed(r, config)
  {
    hide FinalScore, ApplyGradeScale, Sort;
    var total := FinalScore(r.ca, r.exam, config.caWeight, config.examWeight);
    if config.gradingScale == [] {
      NoScale(total);
    } else {
      var b := AwardedBand(total, config.gradingScale);
    }
  }

  lemma NoScale(p: real)
    ensures ApplyGradeScale(p, []) == Grading("F", 0.0, "Fail")
  {}

  /** Under the default configuration full marks are not enough: the best grade has 5 points, the pass mark is 40. */
  lemma NobodyPassesByDefault(r: Registration)
    ensures !Passed(r, DEFAULT_CONFIG)
  {
    hide SubjectResultOf, Passed;
    PointsBelowMark(r, DEFAULT_CONFIG);
  }

  // ---------- when is_passed means what it says ----------

  ghost predicate ScoresInRange(r: Registration) {
    InRange(r.exam) && forall k :: 0 <= k < 5 ==> InRange(r.ca[k])
  }

  /** A subject is passed exactly when its total reaches the pass mark, for all scores between 0 and 100. */
  ghost predicate PassedMeansMark(config: Config) {
    forall r :: ScoresInRange(r) ==>
      (Passed(r, config) <==> SubjectResultOf(r, config).total >= Mark(config) as real)
  }

  /**
   A band carries enough points exactly when it starts at or above the mark, and otherwise ends below it;
   and the gap above a band, which is graded like the lowest band, lies below a positive mark.
   */
  predicate BandLinesUp(b: Band, mark: int) {
    && (b.points >= mark as real ==> mark <= b.min)
    && (b.points < mark as real ==> b.max < mark)
    && (b.max < 100 && 0 < mark ==> b.max < mark)
  }

  predicate LinesUp(config: Config) {
    forall b :: b in config.gradingScale ==> BandLinesUp(b, Mark(config))
  }

  /** The grade of this percentage passes exactly when the percentage reaches the mark. */
  ghost predicate GradeMeansMark(config: Config, p: real) {
    ApplyGradeScale(p, config.gradingScale).points >= Mark(config) as real <==> p >= Mark(config) as real
  }

  lemma LinedUpGrade(config: Config, p: real)
    requires Tiles(config.gradingScale) && LinesUp(config) && 0.0 <= p <= 100.0
    ensures GradeMeansMark(config, p)
  {
    hide ApplyGradeScale, Tiles;
    var scale, mark := config.gradingScale, Mark(config);
    var i := ExactlyOneBand(scale, p.Floor);
    var b := scale[i];
    var lowest := LowestBand(scale);
    GradeOfPercentage(p, scale, b, lowest);
    assert BandLinesUp(b, mark) && BandLinesUp(lowest, mark);
    InBand(scale, b);
    InBand(scale, lowest);
  }

  /** The bounds of a band of a tiling. */
  lemma InBand(scale: seq<Band>, b: Band)
    requires Tiles(scale) && b in scale
    ensures 0 <= b.min <= b.max <= 100
  {
    var s :| TilesInOrder(s) && multiset(s) == multiset(scale);
    assert b in multiset(s);
    var k :| 0 <= k < |s| && s[k] == b;
    if 0 < k {
      TilesAscend(s, 0, k);
    }
    if k < |s| - 1 {
      TilesAscend(s, k, |s| - 1);
    }
  }

  /** The other way round, whole and half percentages are enough: the ends of a band and the gap above it. */
  lemma GradesLineUp(config: Config, b: Band)
    requires Tiles(config.gradingScale) && b in config.gradingScale
    requires GradeMeansMark(config, 0.0)
    requires GradeMeansMark(config, b.min as real) && GradeMeansMark(config, b.max as real)
    requires b.max < 100 ==> GradeMeansMark(config, b.max as real + 0.5)
    ensures BandLinesUp(b, Mark(config))
  {
    hide ApplyGradeScale, Tiles;
    var scale := config.gradingScale;
    var lowest := LowestBand(scale);
    InBand(scale, b);
    InBand(scale, lowest);
    GradeOfPercentage(0.0, scale, lowest, lowest);
    GradeOfPercentage(b.min as real, scale, b, lowest);
    GradeOfPercentage(b.max as real, scale, b, lowest);
    if b.max < 100 {
      assert (b.max as real + 0.5).Floor == b.max;
      GradeOfPercentage(b.max as real + 0.5, scale, b, lowest);
    }
  }

  // ---------- every hundredth is some subject's total ----------

  const NOBODY: Registration :=
    Registration("", "", "", "", "", "", "", 0, [None, None, None, None, None], None, None)

  /** The same score throughout is the total. */
  function Steady(score: real): Registration {
    NOBODY.(ca := [Some(score), None, None, None, None], exam := Some(score))
  }

  lemma {:induction false} AllNull(scores: seq<Option<real>>)
    requires forall k :: 0 <= k < |scores| ==> scores[k].None?
    ensures NonNull(scores) == []
  {
    if scores != [] {
      AllNull(scores[1..]);
    }
  }

  lemma SteadyTotal(k: int, caWeight: int, examWeight: int)
    requires caWeight + examWeight == 100
    ensures var r := Steady(k as real / 100.0);
            FinalScore(r.ca, r.exam, caWeight, examWeight) == k as real / 100.0
  {
    var score := k as real / 100.0;
    var r := Steady(score);
    AllNull(r.ca[1..]);
    assert NonNull(r.ca) == [score];
    assert Sum([score]) == score;
    assert CaRawAverage(r.ca) == score;
    SplitByWeights(score, caWeight, examWeight);
    RoundHundredths(k);
  }

  lemma SplitByWeights(score: real, a: int, b: int)
    requires a + b == 100
    ensures Share(score, a) + Share(score, b) == score
  {
    var x, y := a as real, b as real;
    assert score / 100.0 * x + score / 100.0 * y == score / 100.0 * (x + y);
  }

  lemma MarkedHundredth(config: Config, k: int)
    requires PassedMeansMark(config) && config.caWeight + config.examWeight == 100 && 0 <= k <= 10000
    ensures GradeMeansMark(config, k as real / 100.0)
  {
    hide FinalScore, ApplyGradeScale;
    var r := Steady(k as real / 100.0);
    SteadyTotal(k, config.caWeight, config.examWeight);
    assert ScoresInRange(r);
    assert Passed(r, config) <==> SubjectResultOf(r, config).total >= Mark(config) as real;
  }

  /**
   For every configuration whose bands tile 0..100: is_passed says that the total reaches the pass mark,
   for all scores, exactly when the bands line up with the mark.
   */
  lemma PassedMeansMarkIff(config: Config)
    requires Tiles(config.gradingScale)
    requires 1 <= config.caWeight <= 99 && config.caWeight + config.examWeight == 100
    ensures PassedMeansMark(config) <==> LinesUp(config)
  {
    hide FinalScore, ApplyGradeScale, Tiles, BandLinesUp, GradeMeansMark;
    if LinesUp(config) {
      forall r | ScoresInRange(r)
        ensures Passed(r, config) <==> SubjectResultOf(r, config).total >= Mark(config) as real
      {
        FinalScoreInRange(r.ca, r.exam, config.caWeight, config.examWeight);
        LinedUpPasses(r, config);
      }
    }
    if PassedMeansMark(config) {
      forall b | b in config.gradingScale ensures BandLinesUp(b, Mark(config)) {
        InBand(config.gradingScale, b);
        hide PassedMeansMark;
        MarkedHundredth(config, 0);
        MarkedHundredth(config, 100 * b.min);
        MarkedHundredth(config, 100 * b.max);
        if b.max < 100 {
          MarkedHundredth(config, 100 * b.max + 50);
        }
        GradesLineUp(config, b);
      }
    }
  }

  lemma LinedUpPasses(r: Registration, config: Config)
    requires Tiles(config.gradingScale) && LinesUp(config)
    requires 0.0 <= FinalScore(r.ca, r.exam, config.caWeight, config.examWeight) <= 100.0
    ensures Passed(r, config) <==> SubjectResultOf(r, config).total >= Mark(config) as real
  {
    hide FinalScore, ApplyGradeScale, Tiles, LinesUp;
    LinedUpGrade(config, FinalScore(r.ca, r.exam, config.caWeight, config.examWeight));
  }
}
