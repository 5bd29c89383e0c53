/**
 No teacher and no class is ever in two places at once, exactly as far as the checks reach; and what
 follows from it: a day's load fits the school day, and the views are ordered partitions.
 */
module TimetableSafety {
  import opened Basics
  import opened Counting
  import opened Sums
  import opened Clock
  import opened Timetable

  // ---------- the invariant ----------

  /** Every slot, active or not, is a non-empty interval within school hours. */
  ghost predicate WellPlaced(s: Slot) {
    ValidTimeRange(s.start, s.end) && InSchoolHours(s.start, s.end)
  }

  ghost predicate Meet(a: Slot, b: Slot) {
    a.term == b.term && a.day == b.day && TimesOverlap(a.start, a.end, b.start, b.end)
  }

  /** Both slots are active and put one teacher or one class in two places at once. */
  ghost predicate Clash(a: Slot, b: Slot) {
    a.active && b.active && (a.teacher == b.teacher || a.classId == b.classId) && Meet(a, b)
  }

  ghost predicate UniqueIds(slots: seq<Slot>) {
    forall i, j :: 0 <= i < j < |slots| ==> slots[i].id != slots[j].id
  }

  ghost predicate NoClash(slots: seq<Slot>) {
    forall i, j :: 0 <= i < j < |slots| ==> !Clash(slots[i], slots[j])
  }

  ghost predicate Safe(slots: seq<Slot>) {
    UniqueIds(slots) && NoClash(slots) && forall s :: s in slots ==> WellPlaced(s)
  }

  ghost predicate FreshId(slots: seq<Slot>, id: Id) {
    forall s :: s in slots ==> s.id != id
  }

  /** Overlap of well-placed slots is symmetric. */
  lemma ClashSymmetric(a: Slot, b: Slot)
    requires WellPlaced(a) && WellPlaced(b)
    ensures Clash(a, b) <==> Clash(b, a)
  {}

  // ---------- create and delete ----------

  lemma CreateKeepsSafe(school: School, slots: seq<Slot>, tenant: Id, dto: CreateRequest, id: Id)
    requires Safe(slots) && FreshId(slots, id)
    ensures Safe(AfterCreate(school, slots, tenant, dto, id).0)
  {
    hide TimeToMinutes;
    var (after, outcome) := AfterCreate(school, slots, tenant, dto, id);
    if outcome == Done {
      var n := |slots|;
      assert forall k :: 0 <= k < n ==> after[k] == slots[k];
      forall i, j | 0 <= i < j < |after| ensures !Clash(after[i], after[j]) {
        if j == n {
          assert slots[i] in slots;
        }
      }
    }
  }

  lemma DeleteKeepsSafe(slots: seq<Slot>, tenant: Id, id: Id)
    requires Safe(slots)
    ensures Safe(AfterDelete(slots, tenant, id).0)
  {
    hide TimeToMinutes;
    var after := AfterDelete(slots, tenant, id).0;
    var i := IndexOf(slots, id, tenant);
    if i != -1 {
      assert forall k :: 0 <= k < |after| ==> after[k] == slots[if k < i then k else k + 1];
    }
  }

  // ---------- update ----------

  /** The written row would put its teacher or class in two places at once. */
  ghost predicate ClashesElsewhere(slots: seq<Slot>, i: nat, w: Slot) {
    exists j :: 0 <= j < |slots| && j != i && Clash(w, slots[j])
  }

  lemma WrittenWellPlaced(slots: seq<Slot>, i: nat, dto: UpdateRequest)
    requires Safe(slots) && i < |slots| && UpdateVerdict(slots, slots[i], dto) == Done
    ensures WellPlaced(Written(slots[i], dto))
  {
    assert slots[i] in slots;
  }

  lemma ReplaceSafeIff(slots: seq<Slot>, i: nat, w: Slot)
    requires Safe(slots) && i < |slots| && WellPlaced(w) && w.id == slots[i].id
    ensures Safe(slots[i := w]) <==> !ClashesElsewhere(slots, i, w)
  {
    hide Clash, WellPlaced;
    var after := slots[i := w];
    forall j | 0 <= j < |slots| && j != i ensures Clash(w, slots[j]) <==> Clash(slots[j], w) {
      assert slots[j] in slots;
      ClashSymmetric(w, slots[j]);
    }
    if ClashesElsewhere(slots, i, w) {
      var j :| 0 <= j < |slots| && j != i && Clash(w, slots[j]);
      assert after[i] == w && after[j] == slots[j];
      assert !NoClash(after);
    } else {
      forall s | s in after ensures WellPlaced(s) {
        assert s == w || s in slots;
      }
    }
  }

  /** An accepted update keeps the timetable safe if and only if the row it writes clashes with no other. */
  lemma UpdateSafeIffNoClash(slots: seq<Slot>, tenant: Id, id: Id, dto: UpdateRequest)
    requires Safe(slots) && AfterUpdate(slots, tenant, id, dto).1 == Done
    ensures var i := IndexOf(slots, id, tenant);
            Safe(AfterUpdate(slots, tenant, id, dto).0) <==> !ClashesElsewhere(slots, i, Written(slots[i], dto))
  {
    hide Clash, WellPlaced, ValidTimeRange, InSchoolHours;
    var i := IndexOf(slots, id, tenant);
    WrittenWellPlaced(slots, i, dto);
    ReplaceSafeIff(slots, i, Written(slots[i], dto));
  }

  /** The written interval lies inside the one that the slot already takes. */
  predicate Inside(s: Slot, w: Slot) {
    && s.active && w.day == s.day
    && TimeToMinutes(s.start) <= TimeToMinutes(w.start) && TimeToMinutes(w.end) <= TimeToMinutes(s.end)
  }

  /** Sent empty, an identifier is checked as it stands, but the old one is kept in the row. */
  predicate CheckMissed(sent: Option<Id>, kept: Id) {
    sent == Some("") && kept != ""
  }

  /**
   The guard, on the slot and the request. It shuts out two families: requests that only reactivate a
   slot, and those that send an empty teacher or class identifier beside a placement, unless the slot
   stays within the time that it takes already.
   */
  predicate Harmless(s: Slot, dto: UpdateRequest) {
    var w := Written(s, dto);
    || !w.active
    || (!SendsPlacement(dto) && s.active)
    || (SendsPlacement(dto) &&
        (CheckMissed(dto.teacher, s.teacher) || CheckMissed(dto.classId, s.classId) ==> Inside(s, w)))
  }

  /** A harmless row that clashes with another was already clashing, or its check would have failed. */
  lemma HarmlessRowClashesNowhere(slots: seq<Slot>, i: nat, dto: UpdateRequest)
    requires Safe(slots) && i < |slots| && Harmless(slots[i], dto) && UpdateVerdict(slots, slots[i], dto) == Done
    ensures !ClashesElsewhere(slots, i, Written(slots[i], dto))
  {
    hide ValidTimeRange, InSchoolHours, TimeToMinutes;
    var s, w := slots[i], Written(slots[i], dto);
    forall j | 0 <= j < |slots| && j != i ensures !Clash(w, slots[j]) {
      var o := slots[j];
      assert s in slots && o in slots;
      assert o.id != s.id && !Clash(s, o) by {
        ClashSymmetric(s, o);
        assert i < j || j < i;
      }
      if SendsPlacement(dto) {
        assert Meet(w, o) && o.active ==> Takes(o, PlaceOf(w), Some(s.id));
      }
    }
  }

  ghost predicate UpdateHarmless(slots: seq<Slot>, tenant: Id, id: Id, dto: UpdateRequest) {
    var i := IndexOf(slots, id, tenant);
    i == -1 || Harmless(slots[i], dto)
  }

  lemma HarmlessUpdateKeepsSafe(slots: seq<Slot>, tenant: Id, id: Id, dto: UpdateRequest)
    requires Safe(slots) && UpdateHarmless(slots, tenant, id, dto)
    ensures Safe(AfterUpdate(slots, tenant, id, dto).0)
  {
    hide UpdateVerdict, ClashesElsewhere, Harmless;
    if AfterUpdate(slots, tenant, id, dto).1 == Done {
      UpdateSafeIffNoClash(slots, tenant, id, dto);
      HarmlessRowClashesNowhere(slots, IndexOf(slots, id, tenant), dto);
    }
  }

  // ---------- the guard is exact ----------

  /** No matter what else is scheduled: applied to this slot, the request is refused or keeps the timetable safe. */
  ghost predicate NeverBreaks(s: Slot, dto: UpdateRequest) {
    forall slots: seq<Slot>, i: nat ::
      i < |slots| && slots[i] == s && Safe(slots) && UpdateVerdict(slots, s, dto) == Done ==>
        Safe(slots[i := Written(s, dto)])
  }

  /** A slot in the written time, but clear of the old one. */
  ghost predicate Clear(s: Slot, w: Slot, o: Slot) {
    WellPlaced(o) && o.active && Meet(w, o) && !(s.active && Meet(s, o)) && o.id != s.id
  }

  /** A time that another slot may take: the written one, cut off where the old one begins or ends. */
  lemma ClearTime(s: Slot, dto: UpdateRequest) returns (o: Slot)
    requires WellPlaced(s) && WellPlaced(Written(s, dto)) && !Inside(s, Written(s, dto))
    ensures Clear(s, Written(s, dto), o)
  {
    hide TimeToMinutes;
    var w := Written(s, dto);
    o := w.(id := s.id + "'", active := true);
    assert |o.id| > |s.id|;
    if s.active && w.day == s.day {
      if TimeToMinutes(w.start) < TimeToMinutes(s.start) {
        o := o.(end := if TimeToMinutes(w.end) <= TimeToMinutes(s.start) then w.end else s.start);
      } else {
        o := o.(start := if TimeToMinutes(s.end) <= TimeToMinutes(w.start) then w.start else s.end);
      }
    }
  }

  /** An identifier that neither the slot nor the request mentions. */
  function Unused(a: Id, b: Option<Id>): (r: Id)
    ensures r != a && r != "" && Some(r) != b
  {
    var r := a + b.GetOr("") + "'";
    assert |r| > |a| && |r| > |b.GetOr("")|;
    r
  }

  lemma PairSafe(a: Slot, b: Slot)
    requires a.id != b.id && WellPlaced(a) && WellPlaced(b)
    ensures Safe([a, b]) <==> !Clash(a, b)
  {
    hide WellPlaced, Clash;
    var pair := [a, b];
    assert pair[0] == a && pair[1] == b;
    forall s | s in pair ensures WellPlaced(s) {
      assert s == a || s == b;
    }
  }

  /** Another slot with which the update is accepted and clashes. */
  ghost predicate Breaks(s: Slot, dto: UpdateRequest, o: Slot) {
    && Safe([s, o]) && UpdateVerdict([s, o], s, dto) == Done
    && !Safe([Written(s, dto), o])
  }

  lemma ClashBreaks(s: Slot, dto: UpdateRequest, o: Slot)
    requires WellPlaced(s) && WellPlaced(Written(s, dto)) && WellPlaced(o) && o.id != s.id && dto.active != Null
    requires !Clash(s, o) && Clash(Written(s, dto), o)
    requires SendsPlacement(dto) ==>
      o.teacher != dto.teacher.GetOr(s.teacher) && o.classId != dto.classId.GetOr(s.classId)
    ensures Breaks(s, dto, o)
  {
    hide WellPlaced, Clash, TimeToMinutes;
    PairSafe(s, o);
    PairSafe(Written(s, dto), o);
    assert forall x :: x in [s, o] ==> x == s || x == o;
    assert WellPlaced(Written(s, dto)) ==> UpdateVerdict([s, o], s, dto) == Done by {
      PlacedPasses(s, dto);
    }
  }

  lemma PlacedPasses(s: Slot, dto: UpdateRequest)
    requires WellPlaced(Written(s, dto))
    ensures ValidTimeRange(Written(s, dto).start, Written(s, dto).end)
    ensures InSchoolHours(Written(s, dto).start, Written(s, dto).end)
  {}

  /** Every request outside the guard that could be accepted breaks some timetable of two slots. */
  lemma HarmfulBreaks(s: Slot, dto: UpdateRequest) returns (o: Slot)
    requires WellPlaced(s) && WellPlaced(Written(s, dto)) && dto.active != Null && !Harmless(s, dto)
    ensures Breaks(s, dto, o)
  {
    hide TimeToMinutes, Breaks;
    var w := Written(s, dto);
    if !SendsPlacement(dto) {
      o := s.(id := s.id + "'", active := true);
      assert |o.id| > |s.id|;
    } else {
      o := ClearTime(s, dto);
      if CheckMissed(dto.teacher, s.teacher) {
        o := o.(teacher := s.teacher, classId := Unused(s.classId, dto.classId));
      } else {
        o := o.(classId := s.classId, teacher := Unused(s.teacher, dto.teacher));
      }
    }
    ClashBreaks(s, dto, o);
  }

  /**
   Harmless is the exact condition: such a request never breaks a safe timetable, and every other one
   that the checks can accept at all breaks some.
   */
  lemma HarmlessIffNeverBreaks(s: Slot, dto: UpdateRequest)
    requires WellPlaced(s)
    ensures NeverBreaks(s, dto) <==> Harmless(s, dto) || dto.active == Null || !WellPlaced(Written(s, dto))
  {
    hide WellPlaced, Harmless, Clash;
    var w := Written(s, dto);
    if Harmless(s, dto) || dto.active == Null || !WellPlaced(w) {
      forall slots: seq<Slot>, i: nat |
        i < |slots| && slots[i] == s && Safe(slots) && UpdateVerdict(slots, s, dto) == Done
        ensures Safe(slots[i := w])
      {
        WrittenWellPlaced(slots, i, dto);
        HarmlessRowClashesNowhere(slots, i, dto);
        ReplaceSafeIff(slots, i, w);
      }
    } else {
      var o := HarmfulBreaks(s, dto);
      assert [s, o][0] == s && [s, o][0 := w] == [w, o];
    }
  }

  // ---------- runs ----------

  datatype Request =
    | Create(tenant: Id, dto: CreateRequest, id: Id)
    | Update(tenant: Id, id: Id, change: UpdateRequest)
    | Delete(tenant: Id, id: Id)

  function After(school: School, slots: seq<Slot>, r: Request): seq<Slot> {
    match r
    case Create(tenant, dto, id) => AfterCreate(school, slots, tenant, dto, id).0
    case Update(tenant, id, change) => AfterUpdate(slots, tenant, id, change).0
    case Delete(tenant, id) => AfterDelete(slots, tenant, id).0
  }

  /** New rows get new ids, and updates are harmless. */
  ghost predicate Admissible(slots: seq<Slot>, r: Request) {
    match r
    case Create(_, _, id) => FreshId(slots, id)
    case Update(tenant, id, change) => UpdateHarmless(slots, tenant, id, change)
    case Delete(_, _) => true
  }

  ghost predicate AdmissibleRun(school: School, slots: seq<Slot>, rs: seq<Request>)
    decreases |rs|
  {
    rs != [] ==> Admissible(slots, rs[0]) && AdmissibleRun(school, After(school, slots, rs[0]), rs[1..])
  }

  function Run(school: School, slots: seq<Slot>, rs: seq<Request>): seq<Slot>
    decreases |rs|
  {
    if rs == [] then slots else Run(school, After(school, slots, rs[0]), rs[1..])
  }

  lemma {:induction false} RunKeepsSafe(school: School, slots: seq<Slot>, rs: seq<Request>)
    requires Safe(slots) && AdmissibleRun(school, slots, rs)
    ensures Safe(Run(school, slots, rs))
    decreases |rs|
  {
    if rs != [] {
      match rs[0] {
        case Create(tenant, dto, id) => CreateKeepsSafe(school, slots, tenant, dto, id);
        case Update(tenant, id, change) => HarmlessUpdateKeepsSafe(slots, tenant, id, change);
        case Delete(tenant, id) => DeleteKeepsSafe(slots, tenant, id);
      }
      RunKeepsSafe(school, After(school, slots, rs[0]), rs[1..]);
    }
  }

  // ---------- requests outside the guard ----------

  lemma SchoolHours()
    ensures TimeToMinutes(SCHOOL_OPEN) == 480 && TimeToMinutes(SCHOOL_CLOSE) == 960
  {
    MinutesByDigits(SCHOOL_OPEN);
    MinutesByDigits(SCHOOL_CLOSE);
  }

  const NOTHING: UpdateRequest := UpdateRequest(None, None, None, None, None, None, Absent, Absent)

  const NINE: Time := "09:00"
  const TEN: Time := "10:00"
  const ELEVEN: Time := "11:00"

  function Sample(id: Id, classId: Id, start: Time, end: Time, active: bool): Slot {
    Slot(id, "school", classId, "maths", "teacher", "term", MONDAY, start, end, None, active)
  }

  lemma SampleTimes()
    ensures TimeToMinutes(NINE) == 540 && TimeToMinutes(TEN) == 600 && TimeToMinutes(ELEVEN) == 660
  {
    MinutesByDigits(NINE);
    MinutesByDigits(TEN);
    MinutesByDigits(ELEVEN);
  }

  lemma SecondOfTwo(a: Slot, b: Slot)
    requires a.id != b.id
    ensures IndexOf([a, b], b.id, b.tenant) == 1
  {
    assert [a, b][1..] == [b];
  }

  /** Switching an inactive slot back on is not checked at all. */
  lemma ReactivationCanClash()
    ensures var slots := [Sample("a", "1A", NINE, TEN, true), Sample("b", "1B", NINE, TEN, false)];
            var dto := NOTHING.(active := Value(true));
            Safe(slots) && AfterUpdate(slots, "school", "b", dto).1 == Done
              && !Safe(AfterUpdate(slots, "school", "b", dto).0)
  {
    hide TimeToMinutes;
    SchoolHours();
    SampleTimes();
    var a, b := Sample("a", "1A", NINE, TEN, true), Sample("b", "1B", NINE, TEN, false);
    var dto := NOTHING.(active := Value(true));
    SecondOfTwo(a, b);
    assert Clash(Written(b, dto), a);
    UpdateSafeIffNoClash([a, b], "school", "b", dto);
  }

  /** An empty teacher identifier is checked as it stands but not written: the old teacher is never checked. */
  lemma EmptyTeacherCanClash()
    ensures var slots := [Sample("a", "1A", NINE, TEN, true), Sample("b", "1B", TEN, ELEVEN, true)];
            var dto := NOTHING.(teacher := Some(""), start := Some(NINE), end := Some(TEN));
            Safe(slots) && AfterUpdate(slots, "school", "b", dto).1 == Done
              && !Safe(AfterUpdate(slots, "school", "b", dto).0)
  {
    hide TimeToMinutes;
    SchoolHours();
    SampleTimes();
    var a, b := Sample("a", "1A", NINE, TEN, true), Sample("b", "1B", TEN, ELEVEN, true);
    var dto := NOTHING.(teacher := Some(""), start := Some(NINE), end := Some(TEN));
    SecondOfTwo(a, b);
    assert Clash(Written(b, dto), a);
    UpdateSafeIffNoClash([a, b], "school", "b", dto);
  }

  // ---------- packing ----------

  function Length(s: Slot): nat {
    if ValidTimeRange(s.start, s.end) then TimeToMinutes(s.end) - TimeToMinutes(s.start) else 0
  }

  ghost function Interval(lo: int, hi: int): (r: set<int>)
    requires lo <= hi
    ensures forall m :: m in r <==> lo <= m < hi
    ensures |r| == hi - lo
    decreases hi - lo
  {
    if lo == hi then {} else Interval(lo, hi - 1) + {hi - 1}
  }

  ghost function MinutesOf(s: Slot): set<int>
    requires WellPlaced(s)
  {
    Interval(TimeToMinutes(s.start), TimeToMinutes(s.end))
  }

  ghost function MinutesTaken(slots: seq<Slot>): set<int>
    requires forall s :: s in slots ==> WellPlaced(s)
  {
    if slots == [] then {} else MinutesOf(slots[0]) + MinutesTaken(slots[1..])
  }

  /** Slots that never overlap: as pairs of places in the list. */
  ghost predicate Disjoint(slots: seq<Slot>) {
    forall i, j :: 0 <= i < j < |slots| ==> !TimesOverlap(slots[i].start, slots[i].end, slots[j].start, slots[j].end)
  }

  ghost predicate SomeoneTakes(slots: seq<Slot>, m: int) {
    exists k :: 0 <= k < |slots| && TimeToMinutes(slots[k].start) <= m < TimeToMinutes(slots[k].end)
  }

  lemma {:induction false} TakenBySomeone(slots: seq<Slot>, m: int)
    requires forall s :: s in slots ==> WellPlaced(s)
    requires m in MinutesTaken(slots)
    ensures SomeoneTakes(slots, m)
  {
    hide TimeToMinutes;
    if m in MinutesOf(slots[0]) {
      assert TimeToMinutes(slots[0].start) <= m < TimeToMinutes(slots[0].end);
    } else {
      TakenBySomeone(slots[1..], m);
      var k :| 0 <= k < |slots[1..]| && TimeToMinutes(slots[1..][k].start) <= m < TimeToMinutes(slots[1..][k].end);
      assert slots[k + 1] == slots[1..][k];
    }
  }

  lemma NobodyElse(slots: seq<Slot>, m: int)
    requires slots != [] && Disjoint(slots) && TimeToMinutes(slots[0].start) <= m < TimeToMinutes(slots[0].end)
    ensures !SomeoneTakes(slots[1..], m)
  {
    hide TimeToMinutes;
    forall k | 0 <= k < |slots[1..]|
      ensures !(TimeToMinutes(slots[1..][k].start) <= m < TimeToMinutes(slots[1..][k].end))
    {
      assert slots[1..][k] == slots[k + 1];
      assert !TimesOverlap(slots[0].start, slots[0].end, slots[k + 1].start, slots[k + 1].end);
    }
  }

  lemma {:induction false} TakenMinutes(slots: seq<Slot>)
    requires Disjoint(slots) && forall s :: s in slots ==> WellPlaced(s)
    ensures |MinutesTaken(slots)| == TotalBy(Length, slots)
  {
    hide TimeToMinutes, InSchoolHours, SomeoneTakes;
    if slots != [] {
      var s, rest := slots[0], slots[1..];
      TakenMinutes(rest);
      forall m | m in MinutesOf(s) ensures m !in MinutesTaken(rest) {
        NobodyElse(slots, m);
        if m in MinutesTaken(rest) {
          TakenBySomeone(rest, m);
        }
      }
      assert MinutesOf(s) !! MinutesTaken(rest);
    }
  }

  /** However many there are, slots that never overlap fit into the eight hours of the school day. */
  lemma DisjointSlotsFit(slots: seq<Slot>)
    requires Disjoint(slots) && forall s :: s in slots ==> WellPlaced(s)
    ensures TotalBy(Length, slots) <= 480
  {
    hide TimeToMinutes;
    TakenMinutes(slots);
    SchoolHours();
    forall m | m in MinutesTaken(slots) ensures m in Interval(480, 960) {
      TakenBySomeone(slots, m);
      var k :| 0 <= k < |slots| && TimeToMinutes(slots[k].start) <= m < TimeToMinutes(slots[k].end);
      assert slots[k] in slots && WellPlaced(slots[k]);
    }
    SubsetCount(MinutesTaken(slots), Interval(480, 960));
  }

  /** The active slots of one teacher, or of one class, in a term on a day. */
  function LoadOfTeacher(slots: seq<Slot>, teacher: Id, term: Id, day: Day): seq<Slot> {
    if slots == [] then []
    else
      var s, rest := slots[0], LoadOfTeacher(slots[1..], teacher, term, day);
      if s.active && s.teacher == teacher && s.term == term && s.day == day then [s] + rest else rest
  }

  function LoadOfClass(slots: seq<Slot>, classId: Id, term: Id, day: Day): seq<Slot> {
    if slots == [] then []
    else
      var s, rest := slots[0], LoadOfClass(slots[1..], classId, term, day);
      if s.active && s.classId == classId && s.term == term && s.day == day then [s] + rest else rest
  }

  lemma {:induction false} TeacherLoadDisjoint(slots: seq<Slot>, teacher: Id, term: Id, day: Day)
    requires Safe(slots)
    ensures Disjoint(LoadOfTeacher(slots, teacher, term, day))
    ensures forall s :: s in LoadOfTeacher(slots, teacher, term, day) ==>
      s in slots && s.active && s.teacher == teacher && s.term == term && s.day == day
  {
    hide TimeToMinutes, WellPlaced;
    if slots != [] {
      var rest := LoadOfTeacher(slots[1..], teacher, term, day);
      TeacherLoadDisjoint(slots[1..], teacher, term, day);
      forall s | s in rest ensures !Clash(slots[0], s) {
        var j :| 0 <= j < |slots[1..]| && slots[1..][j] == s;
        assert slots[j + 1] == s;
      }
    }
  }

  lemma {:induction false} ClassLoadDisjoint(slots: seq<Slot>, classId: Id, term: Id, day: Day)
    requires Safe(slots)
    ensures Disjoint(LoadOfClass(slots, classId, term, day))
    ensures forall s :: s in LoadOfClass(slots, classId, term, day) ==>
      s in slots && s.active && s.classId == classId && s.term == term && s.day == day
  {
    hide TimeToMinutes, WellPlaced;
    if slots != [] {
      var rest := LoadOfClass(slots[1..], classId, term, day);
      ClassLoadDisjoint(slots[1..], classId, term, day);
      forall s | s in rest ensures !Clash(slots[0], s) {
        var j :| 0 <= j < |slots[1..]| && slots[1..][j] == s;
        assert slots[j + 1] == s;
      }
    }
  }

  /** No teacher and no class is ever scheduled for more than 480 minutes a day. */
  lemma DayLoadBound(slots: seq<Slot>, who: Id, term: Id, day: Day)
    requires Safe(slots)
    ensures TotalBy(Length, LoadOfTeacher(slots, who, term, day)) <= 480
    ensures TotalBy(Length, LoadOfClass(slots, who, term, day)) <= 480
  {
    TeacherLoadDisjoint(slots, who, term, day);
    DisjointSlotsFit(LoadOfTeacher(slots, who, term, day));
    ClassLoadDisjoint(slots, who, term, day);
    DisjointSlotsFit(LoadOfClass(slots, who, term, day));
  }
}
