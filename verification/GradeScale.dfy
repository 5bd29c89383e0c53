/**
 Grading scales: lists of bands with integer bounds, and the band a percentage earns
 (src/assessment/gpa-calculator.service.ts, src/school-config/school-config.service.ts).
 */
module GradeScale {
  import opened Basics
  import opened Sorting

  datatype Band = Band(grade: string, min: int, max: int, points: real, remark: string)

  datatype Grading = Grading(grade: string, points: real, remark: string)

  predicate Contains(b: Band, p: real) {
    b.min as real <= p <= b.max as real
  }

  function Award(b: Band): Grading {
    Grading(b.grade, b.points, b.remark)
  }

  predicate HigherMin(a: Band, b: Band) {
    a.min >= b.min
  }

  predicate LowerMin(a: Band, b: Band) {
    a.min <= b.min
  }

  function FirstContaining(p: real, bands: seq<Band>): Option<Band> {
    if bands == [] then None
    else if Contains(bands[0], p) then Some(bands[0])
    else FirstContaining(p, bands[1..])
  }

  function ApplyGradeScale(p: real, scale: seq<Band>): Grading {
    if scale == [] then Grading("F", 0.0, "Fail")
    else
      var sorted := Sort(HigherMin, scale);
      SameElements(sorted, scale);
      match FirstContaining(p, sorted)
      case Some(b) => Award(b)
      case None => Award(sorted[|sorted| - 1])
  }

  /** What the scale owes to percentage p: the highest band around p, else the lowest band. */
  ghost predicate IsAwarded(p: real, scale: seq<Band>, b: Band) {
    && b in scale
    && if exists c :: c in scale && Contains(c, p)
       then Contains(b, p) && forall c :: c in scale && Contains(c, p) ==> c.min <= b.min
       else forall c :: c in scale ==> b.min <= c.min
  }

  lemma {:induction false} FirstContainingIsHighest(p: real, bands: seq<Band>)
    requires Ordered(HigherMin, bands)
    ensures match FirstContaining(p, bands)
            case None => forall c :: c in bands ==> !Contains(c, p)
            case Some(b) => b in bands && Contains(b, p)
                            && forall c :: c in bands && Contains(c, p) ==> c.min <= b.min
  {
    if bands != [] && !Contains(bands[0], p) {
      FirstContainingIsHighest(p, bands[1..]);
    } else if bands != [] {
      forall c | c in bands ensures c.min <= bands[0].min {
        var k :| 0 <= k < |bands| && bands[k] == c;
        assert k == 0 || HigherMin(bands[0], bands[k]);
      }
    }
  }

  lemma LastIsLowest(bands: seq<Band>)
    requires bands != [] && Ordered(HigherMin, bands)
    ensures forall c :: c in bands ==> bands[|bands| - 1].min <= c.min
  {
    forall c | c in bands ensures bands[|bands| - 1].min <= c.min {
      var k :| 0 <= k < |bands| && bands[k] == c;
      assert k == |bands| - 1 || HigherMin(bands[k], bands[|bands| - 1]);
    }
  }

  /** For every scale, in whatever order its bands are listed. */
  lemma AwardedBand(p: real, scale: seq<Band>) returns (b: Band)
    requires scale != []
    ensures IsAwarded(p, scale, b) && ApplyGradeScale(p, scale) == Award(b)
  {
    hide Sort, Contains, FirstContaining, Ordered;
    var sorted := Sort(HigherMin, scale);
    SameElements(sorted, scale);
    SortOrdered(HigherMin, scale);
    FirstContainingIsHighest(p, sorted);
    LastIsLowest(sorted);
    b := if FirstContaining(p, sorted).Some? then FirstContaining(p, sorted).value else sorted[|sorted| - 1];
  }

  // ---------- scales whose bands tile 0..100 ----------

  ghost predicate TilesInOrder(s: seq<Band>) {
    && s != [] && s[0].min == 0 && s[|s| - 1].max == 100
    && (forall i :: 0 <= i < |s| ==> s[i].min <= s[i].max)
    && (forall i :: 0 < i < |s| ==> s[i].min == s[i - 1].max + 1)
  }

  /** Some listing of the bands runs from 0 to 100 without gap or overlap. */
  ghost predicate Tiles(scale: seq<Band>) {
    exists s :: TilesInOrder(s) && multiset(s) == multiset(scale)
  }

  lemma {:induction false} TilesAscend(s: seq<Band>, i: nat, j: nat)
    requires TilesInOrder(s) && i < j < |s|
    ensures s[i].max < s[j].min
    decreases j
  {
    if i + 1 < j {
      TilesAscend(s, i, j - 1);
    }
  }

  /** Two bands of a tiling that touch the same unit interval are the same band. */
  lemma TilesApart(s: seq<Band>, b: Band, c: Band, p: real)
    requires TilesInOrder(s) && b in s && c in s
    requires b.min as real <= p < b.max as real + 1.0
    requires c.min as real <= p < c.max as real + 1.0
    ensures b == c
  {
    var i :| 0 <= i < |s| && s[i] == b;
    var j :| 0 <= j < |s| && s[j] == c;
    if i < j {
      TilesAscend(s, i, j);
    } else if j < i {
      TilesAscend(s, j, i);
    }
  }

  lemma {:induction false} TilesCover(s: seq<Band>, n: int, upTo: nat) returns (i: nat)
    requires TilesInOrder(s) && upTo < |s| && 0 <= n <= s[upTo].max
    ensures i <= upTo && s[i].min <= n <= s[i].max
    decreases upTo
  {
    if s[upTo].min <= n {
      i := upTo;
    } else {
      i := TilesCover(s, n, upTo - 1);
    }
  }

  lemma TilesDistinct(scale: seq<Band>)
    requires Tiles(scale)
    ensures Distinct(scale)
  {
    var s :| TilesInOrder(s) && multiset(s) == multiset(scale);
    forall i, j | 0 <= i < j < |s| ensures s[i] != s[j] {
      TilesAscend(s, i, j);
    }
    PermutationDistinct(s, scale);
  }

  /** Each integer percentage lies in exactly one band of the list. */
  lemma ExactlyOneBand(scale: seq<Band>, n: int) returns (i: nat)
    requires Tiles(scale) && 0 <= n <= 100
    ensures i < |scale| && Contains(scale[i], n as real)
    ensures forall j :: 0 <= j < |scale| && Contains(scale[j], n as real) ==> j == i
  {
    var s :| TilesInOrder(s) && multiset(s) == multiset(scale);
    SameElements(s, scale);
    var k := TilesCover(s, n, |s| - 1);
    assert s[k] in scale;
    i :| 0 <= i < |scale| && scale[i] == s[k];
    TilesDistinct(scale);
    forall j | 0 <= j < |scale| && Contains(scale[j], n as real) ensures j == i {
      TilesApart(s, scale[i], scale[j], n as real);
    }
  }

  /** The band that starts at 0 is the only lowest one. */
  lemma LowestBand(scale: seq<Band>) returns (lowest: Band)
    requires Tiles(scale)
    ensures lowest in scale && lowest.min == 0
    ensures forall c :: c in scale && c.min <= 0 ==> c == lowest
    ensures forall c :: c in scale ==> 0 <= c.min
  {
    var s :| TilesInOrder(s) && multiset(s) == multiset(scale);
    SameElements(s, scale);
    lowest := s[0];
    forall c | c in scale ensures 0 <= c.min && (c.min <= 0 ==> c == lowest) {
      var k :| 0 <= k < |s| && s[k] == c;
      if k > 0 {
        TilesAscend(s, 0, k);
      }
    }
  }

  /**
   The grade of any percentage between 0 and 100, exactly: the band of its integer part if the
   percentage is still inside that band, else (strictly between two bands) the lowest band.
   */
  lemma GradeOfPercentage(p: real, scale: seq<Band>, b: Band, lowest: Band)
    requires Tiles(scale) && 0.0 <= p <= 100.0
    requires b in scale && Contains(b, p.Floor as real)
    requires lowest in scale && lowest.min == 0
    ensures ApplyGradeScale(p, scale) == if p <= b.max as real then Award(b) else Award(lowest)
  {
    var s :| TilesInOrder(s) && multiset(s) == multiset(scale);
    SameElements(s, scale);
    var w := AwardedBand(p, scale);
    var l := LowestBand(scale);
    assert l == lowest;
    forall c | c in scale && Contains(c, p) ensures c == b {
      TilesApart(s, c, b, p);
    }
    if p <= b.max as real {
      assert Contains(b, p);
    } else {
      assert forall c :: c in scale && Contains(c, p) ==> c == b;
      assert forall c :: c in scale ==> !Contains(c, p);
      assert w.min <= l.min;
    }
  }

  /** Outside every band (in a gap, below 0 or above 100) the lowest band is given. */
  lemma NoBandGivesLowest(p: real, scale: seq<Band>, lowest: Band)
    requires Tiles(scale) && lowest in scale && lowest.min == 0
    requires forall c :: c in scale ==> !Contains(c, p)
    ensures ApplyGradeScale(p, scale) == Award(lowest)
  {
    var w := AwardedBand(p, scale);
    var l := LowestBand(scale);
    assert w.min <= l.min && l == lowest;
  }

  /** The grade does not depend on the order in which the bands are listed. */
  lemma GradeIgnoresListOrder(p: real, scale: seq<Band>, other: seq<Band>)
    requires Tiles(scale) && multiset(scale) == multiset(other)
    ensures Tiles(other) && ApplyGradeScale(p, other) == ApplyGradeScale(p, scale)
  {
    var s :| TilesInOrder(s) && multiset(s) == multiset(scale);
    assert multiset(s) == multiset(other);
    SameElements(scale, other);
    SameElements(s, scale);
    var b := AwardedBand(p, scale);
    var c := AwardedBand(p, other);
    if Contains(b, p) && Contains(c, p) {
      TilesApart(s, b, c, p);
    } else {
      var lowest := LowestBand(scale);
      assert b.min <= lowest.min && c.min <= lowest.min;
    }
  }
}
