/** The grading part of a school's configuration (src/school-config/school-config.service.ts). */
module SchoolConfig {
  import opened Basics
  import opened Sorting
  import opened GradeScale

  const DEFAULT_GRADING_SCALE: seq<Band> := [
    Band("A", 70, 100, 5.0, "Excellent"),
    Band("B", 60, 69, 4.0, "Very Good"),
    Band("C", 50, 59, 3.0, "Good"),
    Band("D", 45, 49, 2.0, "Fair"),
    Band("E", 40, 44, 1.0, "Poor"),
    Band("F", 0, 39, 0.0, "Fail")
  ]

  datatype Config = Config(
    caWeight: int,
    examWeight: int,
    passMark: Option<int>,
    gradingScale: seq<Band>,
    requireExamApproval: bool)

  const DEFAULT_CONFIG: Config := Config(40, 60, Some(40), DEFAULT_GRADING_SCALE, true)

  function GetConfig(configs: map<Id, Config>, tenant: Id): Config {
    if tenant in configs then configs[tenant] else DEFAULT_CONFIG
  }

  function Reversed<T>(s: seq<T>): (r: seq<T>)
    ensures |r| == |s| && multiset(r) == multiset(s)
  {
    if s == [] then []
    else
      assert s == [s[0]] + s[1..];
      Reversed(s[1..]) + [s[0]]
  }

  lemma {:induction false} ReversedAt<T>(s: seq<T>, k: nat)
    requires k < |s|
    ensures Reversed(s)[k] == s[|s| - 1 - k]
  {
    if k < |s| - 1 {
      ReversedAt(s[1..], k);
    }
  }

  lemma DefaultScaleTiles()
    ensures Tiles(DEFAULT_GRADING_SCALE)
  {
    hide Reversed;
    var d := DEFAULT_GRADING_SCALE;
    var up := Reversed(d);
    forall k | 0 <= k < |d| ensures up[k] == d[|d| - 1 - k] {
      ReversedAt(d, k);
    }
    assert up[0] == d[5] && up[1] == d[4] && up[2] == d[3] && up[3] == d[2] && up[4] == d[1] && up[5] == d[0];
    assert TilesInOrder(up);
  }

  /** A percentage strictly between two bands of the default scale is graded F: 69.5 is, 69 is not. */
  lemma DefaultScaleDropsFractions()
    ensures ApplyGradeScale(69.5, DEFAULT_GRADING_SCALE) == Award(DEFAULT_GRADING_SCALE[5])
    ensures ApplyGradeScale(69.0, DEFAULT_GRADING_SCALE) == Award(DEFAULT_GRADING_SCALE[1])
    ensures Award(DEFAULT_GRADING_SCALE[5]).points == 0.0 && Award(DEFAULT_GRADING_SCALE[1]).points == 4.0
  {
    hide ApplyGradeScale, Tiles;
    DefaultScaleTiles();
    var d := DEFAULT_GRADING_SCALE;
    var b, f := d[1], d[5];
    assert b in d && f in d && b.min == 60 && b.max == 69 && f.min == 0;
    assert 69.5.Floor == 69 && 69.0.Floor == 69;
    GradeOfPercentage(69.5, d, b, f);
    GradeOfPercentage(69.0, d, b, f);
  }

  // ---------- validation of a submitted scale ----------

  /** TypeError: the check reads a property of `undefined` and so throws on its own account. */
  datatype Verdict = Accepted | Rejected | TypeError

  /** Array indexing that yields `undefined` outside the array. */
  function At(bands: seq<Band>, i: int): Option<Band> {
    if 0 <= i < |bands| then Some(bands[i]) else None
  }

  function ScanFrom(sorted: seq<Band>, i: nat): Verdict
    decreases |sorted| - i
  {
    if i >= |sorted| - 1 then Accepted
    else
      match At(sorted, i - 1)
      case None => TypeError
      case Some(prev) => if sorted[i].min != prev.max + 1 then Rejected else ScanFrom(sorted, i + 1)
  }

  function ValidateGradeScale(scale: seq<Band>): Verdict {
    var sorted := Sort(LowerMin, scale);
    if sorted == [] then TypeError
    else if sorted[0].min != 0 then Rejected
    else if sorted[|sorted| - 1].max != 100 then Rejected
    else ScanFrom(sorted, 0)
  }

  /** The scan starts one index too early: only a single band 0..100 is ever accepted. */
  lemma AcceptedIffSingleBand(scale: seq<Band>)
    ensures ValidateGradeScale(scale) == Accepted
            <==> |scale| == 1 && scale[0].min == 0 && scale[0].max == 100
  {
    SameElements(Sort(LowerMin, scale), scale);
    if |scale| == 1 {
      assert Sort(LowerMin, scale) == scale;
    }
  }

  lemma {:induction false} TopBand(s: seq<Band>, b: Band)
    requires TilesInOrder(s) && b in s && s[|s| - 1].min <= b.min
    ensures b.max == 100
  {
    var i :| 0 <= i < |s| && s[i] == b;
    if i < |s| - 1 {
      TilesAscend(s, i, |s| - 1);
    }
  }

  /** With two or more bands, a tiling makes the scan read before the start of the list. */
  lemma TilingMakesItThrow(scale: seq<Band>)
    requires Tiles(scale) && |scale| >= 2
    ensures ValidateGradeScale(scale) == TypeError
  {
    hide Sort;
    var s :| TilesInOrder(s) && multiset(s) == multiset(scale);
    var sorted := Sort(LowerMin, scale);
    SortOrdered(LowerMin, scale);
    SameElements(s, scale);
    SameElements(sorted, scale);
    var lowest := LowestBand(scale);
    var i :| 0 <= i < |sorted| && sorted[i] == lowest;
    assert i == 0 || LowerMin(sorted[0], sorted[i]);
    var top := s[|s| - 1];
    assert top in sorted;
    var j :| 0 <= j < |sorted| && sorted[j] == top;
    assert j == |sorted| - 1 || LowerMin(sorted[j], sorted[|sorted| - 1]);
    TopBand(s, sorted[|sorted| - 1]);
  }

  /**
   Every accepted scale tiles 0..100, but a tiling scale is accepted iff it has exactly one band:
   with two or more the check throws.
   */
  lemma ValidatorAgainstTiling(scale: seq<Band>)
    ensures ValidateGradeScale(scale) == Accepted ==> Tiles(scale)
    ensures Tiles(scale) ==> ValidateGradeScale(scale) == if |scale| == 1 then Accepted else TypeError
  {
    AcceptedIffSingleBand(scale);
    if |scale| == 1 && scale[0].min == 0 && scale[0].max == 100 {
      assert TilesInOrder(scale);
    }
    if Tiles(scale) {
      var s :| TilesInOrder(s) && multiset(s) == multiset(scale);
      SameElements(s, scale);
      if |scale| == 1 {
        assert s[0] in scale;
      } else {
        TilingMakesItThrow(scale);
      }
    }
  }

  /** The school's own default scale tiles 0..100 and would be refused. */
  lemma DefaultScaleRefused()
    ensures Tiles(DEFAULT_GRADING_SCALE)
    ensures ValidateGradeScale(DEFAULT_GRADING_SCALE) == TypeError
  {
    DefaultScaleTiles();
    TilingMakesItThrow(DEFAULT_GRADING_SCALE);
  }

  // ---------- what the verdict depends on ----------

  ghost predicate Lowest(scale: seq<Band>, b: Band) {
    b in scale && forall c :: c in scale ==> b.min <= c.min
  }

  ghost predicate Highest(scale: seq<Band>, b: Band) {
    b in scale && forall c :: c in scale ==> c.min <= b.min
  }

  lemma SortedEnds(scale: seq<Band>)
    requires scale != []
    ensures var sorted := Sort(LowerMin, scale);
            |sorted| == |scale| && Lowest(scale, sorted[0]) && Highest(scale, sorted[|sorted| - 1])
  {
    var sorted := Sort(LowerMin, scale);
    SameElements(sorted, scale);
    SortOrdered(LowerMin, scale);
    hide Sort;
    OrderedEnds(sorted);
    assert sorted[0] in scale && sorted[|sorted| - 1] in scale;
    forall c | c in scale ensures c in sorted {}
  }

  lemma OrderedEnds(sorted: seq<Band>)
    requires sorted != [] && Ordered(LowerMin, sorted)
    ensures forall c :: c in sorted ==> sorted[0].min <= c.min <= sorted[|sorted| - 1].min
  {
    forall c | c in sorted ensures sorted[0].min <= c.min <= sorted[|sorted| - 1].min {
      var k :| 0 <= k < |sorted| && sorted[k] == c;
      assert k == 0 || LowerMin(sorted[0], sorted[k]);
      assert k == |sorted| - 1 || LowerMin(sorted[k], sorted[|sorted| - 1]);
    }
  }

  /** Only the ends of the scale decide: a scale that does not start at 0, or does not end at 100, is rejected. */
  lemma VerdictByEnds(scale: seq<Band>)
    ensures scale == [] ==> ValidateGradeScale(scale) == TypeError
    ensures (forall b :: Lowest(scale, b) ==> b.min != 0) && scale != [] ==> ValidateGradeScale(scale) == Rejected
    ensures (forall b :: Highest(scale, b) ==> b.max != 100) && scale != [] ==> ValidateGradeScale(scale) == Rejected
    ensures scale != [] && (forall b :: Lowest(scale, b) ==> b.min == 0)
            && (forall b :: Highest(scale, b) ==> b.max == 100) ==>
              ValidateGradeScale(scale) == if |scale| == 1 then Accepted else TypeError
  {
    hide Sort, Lowest, Highest;
    if scale == [] {
      SameElements(Sort(LowerMin, scale), scale);
    } else {
      SortedEnds(scale);
    }
  }

  // ---------- a school without a configuration ----------

  /** The stored configuration, or weights 40 and 60, pass mark 40, the default scale, and approval of exams. */
  lemma ConfigOrDefault(configs: map<Id, Config>, tenant: Id)
    ensures tenant in configs ==> GetConfig(configs, tenant) == configs[tenant]
    ensures tenant !in configs ==>
      var c := GetConfig(configs, tenant);
      && c.caWeight == 40 && c.examWeight == 60 && c.passMark == Some(40) && c.requireExamApproval
      && c.gradingScale == DEFAULT_GRADING_SCALE
  {}

  /** The grade of each whole percentage under the default scale. */
  lemma DefaultGrades(p: int)
    requires 0 <= p <= 100
    ensures ApplyGradeScale(p as real, DEFAULT_GRADING_SCALE) ==
            if 70 <= p then Grading("A", 5.0, "Excellent")
            else if 60 <= p then Grading("B", 4.0, "Very Good")
            else if 50 <= p then Grading("C", 3.0, "Good")
            else if 45 <= p then Grading("D", 2.0, "Fair")
            else if 40 <= p then Grading("E", 1.0, "Poor")
            else Grading("F", 0.0, "Fail")
  {
    hide ApplyGradeScale, Tiles;
    DefaultScaleTiles();
    var scale := DEFAULT_GRADING_SCALE;
    var lowest := LowestBand(scale);
    var b := if 70 <= p then scale[0] else if 60 <= p then scale[1] else if 50 <= p then scale[2]
             else if 45 <= p then scale[3] else if 40 <= p then scale[4] else scale[5];
    assert b in scale && Contains(b, p as real) && (p as real).Floor == p;
    GradeOfPercentage(p as real, scale, b, lowest);
  }
}
