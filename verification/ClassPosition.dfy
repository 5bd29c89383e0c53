/** A student's position in class (src/result-engine/result-engine.service.ts:256-270). */
module ClassPosition {
  import opened Basics
  import opened Counting
  import opened Sorting

  datatype ClassResult = ClassResult(student: Id, average: real)

  predicate HigherAverage(a: ClassResult, b: ClassResult) {
    a.average >= b.average
  }

  /** The index of the student's entry, or -1. */
  function FindIndex(results: seq<ClassResult>, student: Id): (i: int)
    ensures -1 <= i < |results|
    ensures 0 <= i ==> results[i].student == student
    ensures i == -1 ==> forall r :: r in results ==> r.student != student
    ensures 0 <= i ==> forall k :: 0 <= k < i ==> results[k].student != student
  {
    if results == [] then -1
    else if results[0].student == student then 0
    else
      var i := FindIndex(results[1..], student);
      if i == -1 then -1 else i + 1
  }

  /** Rank and class size; a student without a result is ranked last. */
  function Position(results: seq<ClassResult>, student: Id): (nat, nat) {
    var sorted := Sort(HigherAverage, results);
    var rank := FindIndex(sorted, student) + 1;
    (if rank == 0 then |sorted| else rank, |sorted|)
  }

  function Rank(results: seq<ClassResult>, student: Id): nat {
    Position(results, student).0
  }

  ghost predicate OneResultEach(results: seq<ClassResult>) {
    forall i, j :: 0 <= i < j < |results| ==> results[i].student != results[j].student
  }

  lemma SortedOneResultEach(results: seq<ClassResult>)
    requires OneResultEach(results)
    ensures OneResultEach(Sort(HigherAverage, results))
  {
    var sorted := Sort(HigherAverage, results);
    SameElements(sorted, results);
    assert Distinct(results) by {
      forall i, j | 0 <= i < j < |results| ensures results[i] != results[j] {
        assert results[i].student != results[j].student;
      }
    }
    PermutationDistinct(results, sorted);
    forall i, j | 0 <= i < j < |sorted| ensures sorted[i].student != sorted[j].student {
      assert sorted[i] in results && sorted[j] in results;
      var a :| 0 <= a < |results| && results[a] == sorted[i];
      var b :| 0 <= b < |results| && results[b] == sorted[j];
      assert a != b;
      assert a < b || b < a;
    }
  }

  /** The entry at place k of the sorted list is the one ranked k + 1. */
  lemma PlaceIsRank(results: seq<ClassResult>, k: nat)
    requires OneResultEach(results) && k < |results|
    ensures |Sort(HigherAverage, results)| == |results|
    ensures Rank(results, Sort(HigherAverage, results)[k].student) == k + 1
  {
    var sorted := Sort(HigherAverage, results);
    SameElements(sorted, results);
    SortedOneResultEach(results);
    var i := FindIndex(sorted, sorted[k].student);
    assert sorted[k] in sorted;
  }

  /** The rank of an entry is its place in the sorted list. */
  lemma RankIsPlace(results: seq<ClassResult>, r: ClassResult)
    requires OneResultEach(results) && r in results
    ensures |Sort(HigherAverage, results)| == |results|
    ensures 1 <= Rank(results, r.student) <= |results|
    ensures Sort(HigherAverage, results)[Rank(results, r.student) - 1] == r
  {
    hide OneResultEach, Rank, Sort, HigherAverage;
    var sorted := Sort(HigherAverage, results);
    SameElements(sorted, results);
    assert r in sorted;
    var k :| 0 <= k < |sorted| && sorted[k] == r;
    PlaceIsRank(results, k);
  }

  ghost predicate RankHeld(results: seq<ClassResult>, k: nat) {
    exists r :: r in results && Rank(results, r.student) == k
  }

  lemma EveryRankHeld(results: seq<ClassResult>, k: nat)
    requires OneResultEach(results) && 1 <= k <= |results|
    ensures RankHeld(results, k)
  {
    PlaceIsRank(results, k - 1);
    SameElements(Sort(HigherAverage, results), results);
    var r := Sort(HigherAverage, results)[k - 1];
    assert r in results;
  }

  /** No two entries share a rank. */
  lemma SameRankSameEntry(results: seq<ClassResult>, r: ClassResult, q: ClassResult)
    requires OneResultEach(results) && r in results && q in results
    requires Rank(results, r.student) == Rank(results, q.student)
    ensures r == q
  {
    RankIsPlace(results, r);
    RankIsPlace(results, q);
  }

  /** Ranks are a bijection onto 1..total: each is held, and SameRankSameEntry says by one entry. */
  lemma RanksAreOnto(results: seq<ClassResult>)
    requires OneResultEach(results)
    ensures forall r :: r in results ==> 1 <= Rank(results, r.student) <= |results|
    ensures forall k :: 1 <= k <= |results| ==> RankHeld(results, k)
  {
    forall r | r in results ensures 1 <= Rank(results, r.student) <= |results| {
      RankIsPlace(results, r);
    }
    forall k | 1 <= k <= |results| ensures RankHeld(results, k) {
      EveryRankHeld(results, k);
    }
  }

  ghost function StrictlyAbove(results: seq<ClassResult>, average: real): set<ClassResult> {
    set r | r in results && r.average > average
  }

  ghost function AtLeast(results: seq<ClassResult>, average: real): set<ClassResult> {
    set r | r in results && r.average >= average
  }

  /** In a descending list, entry k comes after everyone above it and no later than its equals. */
  lemma PlaceBounds(sorted: seq<ClassResult>, k: nat)
    requires Ordered(HigherAverage, sorted) && OneResultEach(sorted) && k < |sorted|
    ensures |StrictlyAbove(sorted, sorted[k].average)| <= k < |AtLeast(sorted, sorted[k].average)|
  {
    var above, atLeast := StrictlyAbove(sorted, sorted[k].average), AtLeast(sorted, sorted[k].average);
    forall x | x in above ensures x in Elements(sorted[..k]) {
      var i :| 0 <= i < |sorted| && sorted[i] == x;
      assert i <= k || HigherAverage(sorted[k], sorted[i]);
      assert sorted[..k][i] == x;
    }
    SubsetCount(above, Elements(sorted[..k]));
    ElementsCount(sorted[..k]);
    var upTo := sorted[..k + 1];
    forall x | x in Elements(upTo) ensures x in atLeast {
      var i :| 0 <= i < k + 1 && sorted[i] == x;
      assert i == k || HigherAverage(sorted[i], sorted[k]);
    }
    assert Distinct(upTo) by {
      forall i, j | 0 <= i < j < |upTo| ensures upTo[i] != upTo[j] {
        assert sorted[i].student != sorted[j].student;
      }
    }
    ElementsCount(upTo);
    SubsetCount(Elements(upTo), atLeast);
  }

  /** More than those strictly above, at most those at least as good: ties share a range of ranks. */
  lemma RankBounds(results: seq<ClassResult>, r: ClassResult)
    requires OneResultEach(results) && r in results
    ensures |StrictlyAbove(results, r.average)| < Rank(results, r.student) <= |AtLeast(results, r.average)|
  {
    var sorted := Sort(HigherAverage, results);
    SameElements(sorted, results);
    SortOrdered(HigherAverage, results);
    SortedOneResultEach(results);
    RankIsPlace(results, r);
    PlaceBounds(sorted, Rank(results, r.student) - 1);
    assert StrictlyAbove(sorted, r.average) == StrictlyAbove(results, r.average);
    assert AtLeast(sorted, r.average) == AtLeast(results, r.average);
  }
}
