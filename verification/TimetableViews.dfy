/** What a class or a teacher sees: the rows sorted by the database, split by day. */
module TimetableViews {
  import opened Basics
  import opened Sorting
  import opened Clock
  import opened Timetable
  import opened TimetableSafety

  lemma DayThenStartIsPreorder()
    ensures TotalPreorder(DayThenStart)
  {
    hide TimeToMinutes, StringLe;
    forall a, b ensures DayThenStart(a, b) || DayThenStart(b, a) {
      StringOrderIsTimeOrder(a.start, b.start);
      StringOrderIsTimeOrder(b.start, a.start);
      SameIndexSameDay(a.day, b.day);
    }
    forall a, b, c | DayThenStart(a, b) && DayThenStart(b, c) ensures DayThenStart(a, c) {
      StringOrderIsTimeOrder(a.start, b.start);
      StringOrderIsTimeOrder(b.start, c.start);
      StringOrderIsTimeOrder(a.start, c.start);
    }
  }

  lemma SameIndexSameDay(a: Day, b: Day)
    ensures DayIndex(a) == DayIndex(b) ==> a == b
  {}

  // ---------- splitting by day loses and reorders nothing ----------

  function DayAt(k: nat): (d: Day)
    requires k < 7
    ensures DayIndex(d) == k
  {
    DAYS[k]
  }

  /** The day lists one after the other, up to day n. */
  function Concatenated(slots: seq<Slot>, n: nat): seq<Slot>
    requires n <= 7
  {
    if n == 0 then [] else Concatenated(slots, n - 1) + SlotsOn(slots, DayAt(n - 1))
  }

  lemma ConcatenatedLast(slots: seq<Slot>, n: nat)
    requires 0 < n <= 7
    ensures Concatenated(slots, n) == Concatenated(slots, n - 1) + SlotsOn(slots, DayAt(n - 1))
  {}

  /** The days up to n of a list whose first row is no later than the others: before that row's day, */
  lemma BeforeFirstDay(s: Slot, rest: seq<Slot>, n: nat)
    requires n <= DayIndex(s.day) && forall r :: r in rest ==> DayIndex(s.day) <= DayIndex(r.day)
    ensures Concatenated([s] + rest, n) == []
  {
    hide DayIndex, Concatenated;
    NothingBefore([s] + rest, n, DayIndex(s.day));
  }

  /** on that day, */
  lemma OnFirstDay(s: Slot, rest: seq<Slot>, n: nat)
    requires n == DayIndex(s.day) + 1 && forall r :: r in rest ==> DayIndex(s.day) <= DayIndex(r.day)
    ensures Concatenated([s] + rest, n) == [s] + Concatenated(rest, n)
  {
    hide DayIndex, Concatenated, SlotsOn;
    var day := DayAt(n - 1);
    SameIndexSameDay(s.day, day);
    ConcatenatedLast([s] + rest, n);
    ConcatenatedLast(rest, n);
    BeforeFirstDay(s, rest, n - 1);
    NothingBefore(rest, n - 1, n - 1);
    OnDayCons(s, rest, day);
  }

  /** and after it. */
  lemma AfterFirstDay(s: Slot, rest: seq<Slot>, n: nat)
    requires DayIndex(s.day) + 1 < n <= 7
    requires Concatenated([s] + rest, n - 1) == [s] + Concatenated(rest, n - 1)
    ensures Concatenated([s] + rest, n) == [s] + Concatenated(rest, n)
  {
    hide DayIndex, Concatenated, SlotsOn;
    var day := DayAt(n - 1);
    assert s.day != day;
    ConcatenatedLast([s] + rest, n);
    ConcatenatedLast(rest, n);
    OnDayCons(s, rest, day);
    var before, on := Concatenated(rest, n - 1), SlotsOn(rest, day);
    assert ([s] + before) + ([] + on) == [s] + (before + on);
  }

  lemma {:induction false} ConcatenatedCons(s: Slot, rest: seq<Slot>, n: nat)
    requires DayIndex(s.day) < n <= 7
    requires forall r :: r in rest ==> DayIndex(s.day) <= DayIndex(r.day)
    ensures Concatenated([s] + rest, n) == [s] + Concatenated(rest, n)
  {
    hide DayIndex, Concatenated;
    if n == DayIndex(s.day) + 1 {
      OnFirstDay(s, rest, n);
    } else {
      ConcatenatedCons(s, rest, n - 1);
      AfterFirstDay(s, rest, n);
    }
  }

  lemma OnDayCons(s: Slot, rest: seq<Slot>, day: Day)
    ensures SlotsOn([s] + rest, day) == (if s.day == day then [s] else []) + SlotsOn(rest, day)
  {
    assert ([s] + rest)[1..] == rest;
  }

  lemma {:induction false} NothingOn(slots: seq<Slot>, day: Day)
    requires forall s :: s in slots ==> s.day != day
    ensures SlotsOn(slots, day) == []
  {
    if slots != [] {
      assert slots[0] in slots;
      NothingOn(slots[1..], day);
    }
  }

  lemma {:induction false} NothingBefore(slots: seq<Slot>, n: nat, first: nat)
    requires n <= first <= 7 && forall s :: s in slots ==> first <= DayIndex(s.day)
    ensures Concatenated(slots, n) == []
  {
    if n > 0 {
      NothingBefore(slots, n - 1, first);
      NothingOn(slots, DayAt(n - 1));
    }
  }

  lemma {:induction false} SplitByDay(slots: seq<Slot>)
    requires Ordered(DayThenStart, slots)
    ensures Concatenated(slots, 7) == slots
  {
    if slots == [] {
      NothingBefore(slots, 7, 7);
    } else {
      var rest := slots[1..];
      forall r | r in rest ensures DayIndex(slots[0].day) <= DayIndex(r.day) {
        var k :| 0 <= k < |rest| && rest[k] == r;
        assert DayThenStart(slots[0], slots[k + 1]);
      }
      assert Ordered(DayThenStart, rest) by {
        forall i, j | 0 <= i < j < |rest| ensures DayThenStart(rest[i], rest[j]) {
          assert DayThenStart(slots[i + 1], slots[j + 1]);
        }
      }
      SplitByDay(rest);
      ConcatenatedCons(slots[0], rest, 7);
      assert slots == [slots[0]] + rest;
    }
  }

  // ---------- a day's list is a schedule ----------

  /** Rows no two of which overlap on the same day. */
  ghost predicate OneAtATime(rows: seq<Slot>) {
    && Distinct(rows)
    && (forall s :: s in rows ==> ValidTimeRange(s.start, s.end))
    && (forall a, b :: a in rows && b in rows && a != b && a.day == b.day ==>
      !TimesOverlap(a.start, a.end, b.start, b.end))
  }

  lemma {:induction false} OnDayMembers(slots: seq<Slot>, day: Day)
    ensures forall s :: s in SlotsOn(slots, day) <==> s in slots && s.day == day
  {
    if slots != [] {
      assert slots == [slots[0]] + slots[1..];
      OnDayMembers(slots[1..], day);
    }
  }

  /** The first row differs from all later ones and does not come after them. */
  lemma FirstBeforeRest(sorted: seq<Slot>)
    requires sorted != [] && Distinct(sorted) && Ordered(DayThenStart, sorted)
    ensures Distinct(sorted[1..]) && Ordered(DayThenStart, sorted[1..])
    ensures forall s :: s in sorted[1..] ==> s != sorted[0] && DayThenStart(sorted[0], s)
  {
    hide DayThenStart;
    var rest := sorted[1..];
    forall i, j | 0 <= i < j < |rest| ensures rest[i] != rest[j] && DayThenStart(rest[i], rest[j]) {
      assert sorted[i + 1] != sorted[j + 1] && DayThenStart(sorted[i + 1], sorted[j + 1]);
    }
    forall s | s in rest ensures s != sorted[0] && DayThenStart(sorted[0], s) {
      var k :| 0 <= k < |rest| && rest[k] == s;
      assert s == sorted[k + 1] && DayThenStart(sorted[0], sorted[k + 1]);
    }
  }

  lemma {:induction false} OnDayOf(sorted: seq<Slot>, day: Day)
    requires Distinct(sorted) && Ordered(DayThenStart, sorted)
    ensures Distinct(SlotsOn(sorted, day)) && Ordered(DayThenStart, SlotsOn(sorted, day))
  {
    hide DayThenStart;
    if sorted != [] {
      FirstBeforeRest(sorted);
      OnDayOf(sorted[1..], day);
      OnDayMembers(sorted[1..], day);
    }
  }

  lemma EarlierEndsFirst(a: Slot, b: Slot)
    requires DayThenStart(a, b) && a.day == b.day
    requires ValidTimeRange(a.start, a.end) && ValidTimeRange(b.start, b.end)
    requires !TimesOverlap(a.start, a.end, b.start, b.end)
    ensures TimeToMinutes(a.end) <= TimeToMinutes(b.start) && StringLe(a.end, b.start)
  {
    hide TimeToMinutes, StringLe;
    StringOrderIsTimeOrder(a.start, b.start);
    StringOrderIsTimeOrder(a.end, b.start);
  }

  /**
   The view of any rows that never overlap: the days together are exactly the sorted rows, in order,
   and on each day every slot ends no later than any later one starts.
   */
  lemma ViewIsSchedule(rows: seq<Slot>, day: Day, i: nat, j: nat)
    requires OneAtATime(rows)
    ensures var sorted := Sort(DayThenStart, rows);
            && multiset(sorted) == multiset(rows)
            && Concatenated(sorted, 7) == sorted
            && (i < j < |SlotsOn(sorted, day)| ==>
                StringLe(SlotsOn(sorted, day)[i].end, SlotsOn(sorted, day)[j].start)
                && TimeToMinutes(SlotsOn(sorted, day)[i].end) <= TimeToMinutes(SlotsOn(sorted, day)[j].start))
  {
    hide TimeToMinutes, StringLe, DayThenStart;
    var sorted := Sort(DayThenStart, rows);
    DayThenStartIsPreorder();
    SortOrdered(DayThenStart, rows);
    SplitByDay(sorted);
    SameElements(sorted, rows);
    PermutationDistinct(rows, sorted);
    OnDayOf(sorted, day);
    OnDayMembers(sorted, day);
    var on := SlotsOn(sorted, day);
    if i < j < |on| {
      assert on[i] in on && on[j] in on && on[i] != on[j];
      EarlierEndsFirst(on[i], on[j]);
    }
  }

  lemma OneMoreRow(s: Slot, rest: seq<Slot>)
    requires OneAtATime(rest) && ValidTimeRange(s.start, s.end)
    requires s !in rest
    requires forall r :: r in rest && r.day == s.day ==>
      !TimesOverlap(r.start, r.end, s.start, s.end) && !TimesOverlap(s.start, s.end, r.start, r.end)
    ensures OneAtATime([s] + rest)
  {
    hide TimesOverlap, ValidTimeRange;
    var rows := [s] + rest;
    forall a | a in rows ensures a == s || a in rest {}
    assert Distinct(rows);
  }

  lemma {:induction false} ClassRowsOneAtATime(slots: seq<Slot>, tenant: Id, classId: Id, term: Id)
    requires Safe(slots)
    ensures OneAtATime(ClassSlots(slots, tenant, classId, term))
    ensures forall s :: s in ClassSlots(slots, tenant, classId, term) <==>
      s in slots && s.tenant == tenant && s.classId == classId && s.term == term && s.active
  {
    hide TimesOverlap, InSchoolHours, ValidTimeRange;
    if slots != [] {
      var rows, rest := ClassSlots(slots, tenant, classId, term), ClassSlots(slots[1..], tenant, classId, term);
      ClassRowsOneAtATime(slots[1..], tenant, classId, term);
      assert slots == [slots[0]] + slots[1..];
      forall s | s in rest ensures s != slots[0] && !Clash(slots[0], s) && !Clash(s, slots[0]) {
        var k :| 0 <= k < |slots[1..]| && slots[1..][k] == s;
        assert s == slots[k + 1] && WellPlaced(slots[0]) && WellPlaced(s);
        ClashSymmetric(slots[0], s);
      }
      assert slots[0] in slots && WellPlaced(slots[0]);
      if rows != rest {
        OneMoreRow(slots[0], rest);
      }
    }
  }

  lemma {:induction false} TeacherRowsOneAtATime(slots: seq<Slot>, tenant: Id, teacher: Id, term: Id)
    requires Safe(slots)
    ensures OneAtATime(TeacherSlots(slots, tenant, teacher, term))
    ensures forall s :: s in TeacherSlots(slots, tenant, teacher, term) <==>
      s in slots && s.tenant == tenant && s.teacher == teacher && s.term == term && s.active
  {
    hide TimesOverlap, InSchoolHours, ValidTimeRange;
    if slots != [] {
      var rows, rest := TeacherSlots(slots, tenant, teacher, term), TeacherSlots(slots[1..], tenant, teacher, term);
      TeacherRowsOneAtATime(slots[1..], tenant, teacher, term);
      assert slots == [slots[0]] + slots[1..];
      forall s | s in rest ensures s != slots[0] && !Clash(slots[0], s) && !Clash(s, slots[0]) {
        var k :| 0 <= k < |slots[1..]| && slots[1..][k] == s;
        assert s == slots[k + 1] && WellPlaced(slots[0]) && WellPlaced(s);
        ClashSymmetric(slots[0], s);
      }
      assert slots[0] in slots && WellPlaced(slots[0]);
      if rows != rest {
        OneMoreRow(slots[0], rest);
      }
    }
  }

  /** On any day of a class's or a teacher's timetable, slot i ends no later than a later slot j starts. */
  lemma TimetablesAreSchedules(slots: seq<Slot>, tenant: Id, who: Id, term: Id, day: Day, i: nat, j: nat)
    requires Safe(slots) && i < j
    ensures var on := SlotsOn(Sort(DayThenStart, ClassSlots(slots, tenant, who, term)), day);
            j < |on| ==> TimeToMinutes(on[i].end) <= TimeToMinutes(on[j].start)
    ensures var on := SlotsOn(Sort(DayThenStart, TeacherSlots(slots, tenant, who, term)), day);
            j < |on| ==> TimeToMinutes(on[i].end) <= TimeToMinutes(on[j].start)
  {
    hide TimeToMinutes, StringLe;
    ClassRowsOneAtATime(slots, tenant, who, term);
    ViewIsSchedule(ClassSlots(slots, tenant, who, term), day, i, j);
    TeacherRowsOneAtATime(slots, tenant, who, term);
    ViewIsSchedule(TeacherSlots(slots, tenant, who, term), day, i, j);
  }
}
