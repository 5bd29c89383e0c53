/**
 Which request is accepted and what it leaves, said in minutes and columns: a created slot is active and
 seen, a second one in its place is refused, and a request without a conflict goes through.
 */
module TimetableEffects {
  import opened Basics
  import opened Clock
  import opened Timetable
  import opened TimetableSafety

  /** Another active slot of the term and day takes some of these minutes. */
  predicate TakenAt(s: Slot, term: Id, day: Day, start: Time, end: Time) {
    && s.active && s.term == term && s.day == day
    && TimeToMinutes(start) < TimeToMinutes(s.end) && TimeToMinutes(s.start) < TimeToMinutes(end)
  }

  ghost predicate TeacherTaken(slots: seq<Slot>, teacher: Id, term: Id, day: Day, start: Time, end: Time) {
    exists s :: s in slots && s.teacher == teacher && TakenAt(s, term, day, start, end)
  }

  ghost predicate ClassTaken(slots: seq<Slot>, classId: Id, term: Id, day: Day, start: Time, end: Time) {
    exists s :: s in slots && s.classId == classId && TakenAt(s, term, day, start, end)
  }

  /** A current term, a class and a teacher of the school, a subject of the class, a time between 08:00 and 16:00. */
  ghost predicate Plausible(school: School, tenant: Id, dto: CreateRequest) {
    && tenant in school.currentTerm
    && dto.classId in school.classes && school.classes[dto.classId] == tenant
    && dto.teacher in school.teachers && school.teachers[dto.teacher] == tenant
    && (dto.classId, dto.subject) in school.classSubjects
    && 480 <= TimeToMinutes(dto.start) < TimeToMinutes(dto.end) <= 960
  }

  // ---------- creating ----------

  /** What a creation answers: the first thing amiss, in the order in which the service looks. */
  lemma CreateAnswers(school: School, slots: seq<Slot>, tenant: Id, dto: CreateRequest, id: Id)
    ensures var outcome := AfterCreate(school, slots, tenant, dto, id).1;
            && (outcome == ActiveTermRequired <==> tenant !in school.currentTerm)
            && (Plausible(school, tenant, dto) ==>
                var term := school.currentTerm[tenant];
                outcome == if TeacherTaken(slots, dto.teacher, term, dto.day, dto.start, dto.end) then TeacherConflict
                           else if ClassTaken(slots, dto.classId, term, dto.day, dto.start, dto.end) then ClassConflict
                           else Done)
            && (!Plausible(school, tenant, dto) ==>
                || outcome == ActiveTermRequired
                || (outcome == ClassNotFound
                    && !(dto.classId in school.classes && school.classes[dto.classId] == tenant))
                || (outcome == UserNotFound
                    && !(dto.teacher in school.teachers && school.teachers[dto.teacher] == tenant))
                || (outcome == SubjectNotAssigned && (dto.classId, dto.subject) !in school.classSubjects)
                || (outcome == InvalidTimeRange && TimeToMinutes(dto.end) <= TimeToMinutes(dto.start))
                || (outcome == OutsideSchoolHours
                    && (TimeToMinutes(dto.start) < 480 || 960 < TimeToMinutes(dto.end))))
  {
    hide TimeToMinutes;
    SchoolHours();
    if tenant in school.currentTerm {
      var term := school.currentTerm[tenant];
      var p := Place(term, dto.day, dto.start, dto.end);
      BusyIsTaken(slots, dto.teacher, dto.classId, p);
    }
  }

  lemma BusyIsTaken(slots: seq<Slot>, teacher: Id, classId: Id, p: Place)
    ensures TeacherBusy(slots, teacher, p, None) <==> TeacherTaken(slots, teacher, p.term, p.day, p.start, p.end)
    ensures ClassBusy(slots, classId, p, None) <==> ClassTaken(slots, classId, p.term, p.day, p.start, p.end)
  {
    hide TimeToMinutes;
    forall s ensures Takes(s, p, None) <==> TakenAt(s, p.term, p.day, p.start, p.end) {}
  }

  /** An accepted creation leaves every row in place and adds one active row, as requested, in the current term. */
  lemma CreateAddsActiveSlot(school: School, slots: seq<Slot>, tenant: Id, dto: CreateRequest, id: Id)
    ensures var (after, outcome) := AfterCreate(school, slots, tenant, dto, id);
            if outcome != Done then after == slots
            else
              && tenant in school.currentTerm
              && |after| == |slots| + 1 && after[..|slots|] == slots
              && var s := after[|slots|];
              && s.active && s.id == id && s.tenant == tenant && s.term == school.currentTerm[tenant]
              && s.classId == dto.classId && s.subject == dto.subject && s.teacher == dto.teacher
              && s.day == dto.day && s.start == dto.start && s.end == dto.end && s.venue == dto.venue
  {
    hide TimeToMinutes, TeacherBusy, ClassBusy;
  }

  lemma {:induction false} SlotsSeen(slots: seq<Slot>, tenant: Id, who: Id, term: Id, s: Slot)
    ensures s in ClassSlots(slots, tenant, who, term) <==>
      s in slots && s.active && s.tenant == tenant && s.classId == who && s.term == term
    ensures s in TeacherSlots(slots, tenant, who, term) <==>
      s in slots && s.active && s.tenant == tenant && s.teacher == who && s.term == term
  {
    if slots != [] {
      SlotsSeen(slots[1..], tenant, who, term, s);
      assert slots == [slots[0]] + slots[1..];
    }
  }

  /** The new slot is in the timetables of its class and of its teacher. */
  lemma CreatedSlotIsSeen(school: School, slots: seq<Slot>, tenant: Id, dto: CreateRequest, id: Id)
    requires AfterCreate(school, slots, tenant, dto, id).1 == Done
    ensures tenant in school.currentTerm
    ensures var after := AfterCreate(school, slots, tenant, dto, id).0;
            var term := school.currentTerm[tenant];
            && |after| > |slots|
            && after[|slots|] in ClassSlots(after, tenant, dto.classId, term)
            && after[|slots|] in TeacherSlots(after, tenant, dto.teacher, term)
  {
    hide AfterCreate;
    CreateAddsActiveSlot(school, slots, tenant, dto, id);
    var after := AfterCreate(school, slots, tenant, dto, id).0;
    SlotsSeen(after, tenant, dto.classId, school.currentTerm[tenant], after[|slots|]);
    SlotsSeen(after, tenant, dto.teacher, school.currentTerm[tenant], after[|slots|]);
  }

  /** From then on another slot for the teacher or the class that overlaps it is refused. */
  lemma SecondSlotIsRefused(school: School, slots: seq<Slot>, tenant: Id, first: CreateRequest, id: Id,
      second: CreateRequest, newId: Id)
    requires AfterCreate(school, slots, tenant, first, id).1 == Done && Plausible(school, tenant, second)
    requires second.day == first.day && (second.teacher == first.teacher || second.classId == first.classId)
    requires TimeToMinutes(second.start) < TimeToMinutes(first.end)
    requires TimeToMinutes(first.start) < TimeToMinutes(second.end)
    ensures var after := AfterCreate(school, slots, tenant, first, id).0;
            var outcome := AfterCreate(school, after, tenant, second, newId).1;
            && (second.teacher == first.teacher ==> outcome == TeacherConflict)
            && (outcome == TeacherConflict || outcome == ClassConflict)
  {
    hide AfterCreate, TimeToMinutes;
    CreateAddsActiveSlot(school, slots, tenant, first, id);
    var after := AfterCreate(school, slots, tenant, first, id).0;
    var s := after[|slots|];
    assert s in after && TakenAt(s, school.currentTerm[tenant], second.day, second.start, second.end);
    CreateAnswers(school, after, tenant, second, newId);
  }

  // ---------- updating ----------

  /** A column whose field is not sent keeps what it holds, and one whose field is sent takes it, unless an empty id. */
  lemma UpdateWritesSentFields(slots: seq<Slot>, tenant: Id, id: Id, dto: UpdateRequest)
    ensures var (after, outcome) := AfterUpdate(slots, tenant, id, dto);
            && (outcome != Done ==> after == slots)
            && (outcome == SlotNotFound <==> forall s :: s in slots ==> s.id != id || s.tenant != tenant)
            && (outcome == Done ==>
                exists i :: 0 <= i < |slots| && slots[i].id == id && slots[i].tenant == tenant
                            && |after| == |slots| && after == slots[i := after[i]]
                            && WrittenAs(slots[i], dto, after[i]))
  {
    hide TimeToMinutes, TeacherBusy, ClassBusy;
    var i := IndexOf(slots, id, tenant);
    if i != -1 {
      assert slots[i] in slots;
      var (after, outcome) := AfterUpdate(slots, tenant, id, dto);
      if outcome == Done {
        assert WrittenAs(slots[i], dto, after[i]);
      }
    }
  }

  ghost predicate WrittenAs(s: Slot, dto: UpdateRequest, w: Slot) {
    && w.id == s.id && w.tenant == s.tenant && w.term == s.term
    && (dto.day == None ==> w.day == s.day) && (dto.day != None ==> dto.day == Some(w.day))
    && (dto.start == None ==> w.start == s.start) && (dto.start != None ==> dto.start == Some(w.start))
    && (dto.end == None ==> w.end == s.end) && (dto.end != None ==> dto.end == Some(w.end))
    && IdWritten(s.teacher, dto.teacher, w.teacher) && IdWritten(s.classId, dto.classId, w.classId)
    && IdWritten(s.subject, dto.subject, w.subject)
    && (dto.venue == Absent ==> w.venue == s.venue) && (dto.venue == Null ==> w.venue == None)
    && (dto.venue != Absent && dto.venue != Null ==> w.venue != None && dto.venue == Value(w.venue.value))
    && (dto.active == Absent ==> w.active == s.active) && (dto.active != Absent ==> dto.active == Value(w.active))
  }

  predicate IdWritten(before: Id, sent: Option<Id>, after: Id) {
    if sent == None || sent == Some("") then after == before else sent == Some(after)
  }

  /** A slot other than this one takes some of the minutes. */
  ghost predicate TakenByOther(slots: seq<Slot>, own: Slot, w: Slot, teacher: Option<Id>, classId: Option<Id>) {
    exists s :: s in slots && s.id != own.id && TakenAt(s, w.term, w.day, w.start, w.end)
                && (teacher == Some(s.teacher) || classId == Some(s.classId))
  }

  /**
   What an update of a row answers: times are checked when one is sent, conflicts when day, time or a
   non-empty identifier is, for the teacher and the class as sent.
   */
  lemma UpdateAnswers(slots: seq<Slot>, s: Slot, dto: UpdateRequest, w: Slot)
    requires WrittenAs(s, dto, w) || dto.active == Null
    requires dto.active == Null ==> WrittenAs(s, dto.(active := Absent), w)
    ensures var outcome := UpdateVerdict(slots, s, dto);
            var timed := dto.start != None || dto.end != None;
            var placed := timed || dto.day != None || NonEmpty(dto.teacher) || NonEmpty(dto.classId)
              || NonEmpty(dto.subject);
            var teacher := if dto.teacher == None then Some(s.teacher) else dto.teacher;
            var classId := if dto.classId == None then Some(s.classId) else dto.classId;
            outcome ==
              if timed && TimeToMinutes(w.end) <= TimeToMinutes(w.start) then InvalidTimeRange
              else if timed && (TimeToMinutes(w.start) < 480 || 960 < TimeToMinutes(w.end)) then OutsideSchoolHours
              else if placed && TakenByOther(slots, s, w, teacher, None) then TeacherConflict
              else if placed && TakenByOther(slots, s, w, None, classId) then ClassConflict
              else if dto.active == Null then NullRefused
              else Done
  {
    hide TimeToMinutes;
    SchoolHours();
    var p := PlaceOf(Written(s, dto));
    assert p == Place(w.term, w.day, w.start, w.end);
    forall o ensures Takes(o, p, Some(s.id)) <==> o.id != s.id && TakenAt(o, w.term, w.day, w.start, w.end) {}
  }

  predicate NonEmpty(field: Option<Id>) {
    field != None && field != Some("")
  }

  // ---------- deleting ----------

  /** The first row with this id and school goes; all others stay as they are. */
  lemma DeleteRemovesSlot(slots: seq<Slot>, tenant: Id, id: Id)
    ensures var (after, outcome) := AfterDelete(slots, tenant, id);
            if forall s :: s in slots ==> s.id != id || s.tenant != tenant
            then outcome == SlotNotFound && after == slots
            else
              outcome == Done
              && exists i :: 0 <= i < |slots| && slots[i].id == id && slots[i].tenant == tenant
                             && after == slots[..i] + slots[i + 1..]
  {
    var i := IndexOf(slots, id, tenant);
    if i != -1 {
      assert slots[i] in slots;
    }
  }
}
