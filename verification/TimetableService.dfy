/** The timetable service as it runs: conflict checks that loop over rows, rows written, rows filed by day. */
module TimetableService {
  import opened Basics
  import opened Sorting
  import opened Timetable
  import opened TimetableSafety

  class TimetableService {
    const school: School
    var slots: seq<Slot>

    constructor (school: School)
      ensures this.school == school && slots == []
    {
      this.school := school;
      slots := [];
    }

    method CheckTeacherConflict(teacher: Id, p: Place, exclude: Option<Id>) returns (conflict: bool)
      ensures conflict <==> TeacherBusy(slots, teacher, p, exclude)
    {
      for i := 0 to |slots|
        invariant !TeacherBusy(slots[..i], teacher, p, exclude)
      {
        var s := slots[i];
        if s.teacher == teacher && Takes(s, p, exclude) {
          return true;
        }
      }
      assert slots[..|slots|] == slots;
      conflict := false;
    }

    method CheckClassConflict(classId: Id, p: Place, exclude: Option<Id>) returns (conflict: bool)
      ensures conflict <==> ClassBusy(slots, classId, p, exclude)
    {
      for i := 0 to |slots|
        invariant !ClassBusy(slots[..i], classId, p, exclude)
      {
        var s := slots[i];
        if s.classId == classId && Takes(s, p, exclude) {
          return true;
        }
      }
      assert slots[..|slots|] == slots;
      conflict := false;
    }

    method CreateTimetableSlot(tenant: Id, dto: CreateRequest, id: Id) returns (outcome: Outcome)
      modifies this
      ensures (slots, outcome) == AfterCreate(school, old(slots), tenant, dto, id)
      ensures old(Safe(slots) && FreshId(slots, id)) ==> Safe(slots)
    {
      if Safe(slots) && FreshId(slots, id) {
        CreateKeepsSafe(school, slots, tenant, dto, id);
      }
      if tenant !in school.currentTerm {
        return ActiveTermRequired;
      }
      var term := school.currentTerm[tenant];
      if dto.classId !in school.classes || school.classes[dto.classId] != tenant {
        return ClassNotFound;
      }
      if dto.teacher !in school.teachers || school.teachers[dto.teacher] != tenant {
        return UserNotFound;
      }
      if (dto.classId, dto.subject) !in school.classSubjects {
        return SubjectNotAssigned;
      }
      if !ValidTimeRange(dto.start, dto.end) {
        return InvalidTimeRange;
      }
      if !InSchoolHours(dto.start, dto.end) {
        return OutsideSchoolHours;
      }
      var p := Place(term, dto.day, dto.start, dto.end);
      var conflict := CheckTeacherConflict(dto.teacher, p, None);
      if conflict {
        return TeacherConflict;
      }
      conflict := CheckClassConflict(dto.classId, p, None);
      if conflict {
        return ClassConflict;
      }
      slots := slots
        + [Slot(id, tenant, dto.classId, dto.subject, dto.teacher, term, dto.day, dto.start, dto.end, dto.venue, true)];
      outcome := Done;
    }

    method UpdateTimetableSlot(tenant: Id, id: Id, dto: UpdateRequest) returns (outcome: Outcome)
      modifies this
      ensures (slots, outcome) == AfterUpdate(old(slots), tenant, id, dto)
      ensures old(Safe(slots) && UpdateHarmless(slots, tenant, id, dto)) ==> Safe(slots)
    {
      if Safe(slots) && UpdateHarmless(slots, tenant, id, dto) {
        HarmlessUpdateKeepsSafe(slots, tenant, id, dto);
      }
      var i := IndexOf(slots, id, tenant);
      if i == -1 {
        return SlotNotFound;
      }
      var existing := slots[i];
      var p := Place(existing.term, dto.day.GetOr(existing.day), dto.start.GetOr(existing.start),
        dto.end.GetOr(existing.end));
      if dto.start.Some? || dto.end.Some? {
        if !ValidTimeRange(p.start, p.end) {
          return InvalidTimeRange;
        }
        if !InSchoolHours(p.start, p.end) {
          return OutsideSchoolHours;
        }
      }
      if SendsPlacement(dto) {
        var conflict := CheckTeacherConflict(dto.teacher.GetOr(existing.teacher), p, Some(id));
        if conflict {
          return TeacherConflict;
        }
        conflict := CheckClassConflict(dto.classId.GetOr(existing.classId), p, Some(id));
        if conflict {
          return ClassConflict;
        }
      }
      if dto.active == Null {
        return NullRefused;
      }
      slots := slots[i := Written(existing, dto)];
      outcome := Done;
    }

    method DeleteSlot(tenant: Id, id: Id) returns (outcome: Outcome)
      modifies this
      ensures (slots, outcome) == AfterDelete(old(slots), tenant, id)
      ensures old(Safe(slots)) ==> Safe(slots)
    {
      if Safe(slots) {
        DeleteKeepsSafe(slots, tenant, id);
      }
      var i := IndexOf(slots, id, tenant);
      if i == -1 {
        return SlotNotFound;
      }
      slots := slots[..i] + slots[i + 1..];
      outcome := Done;
    }

    method GetClassTimetable(tenant: Id, classId: Id) returns (outcome: Outcome, view: map<Day, seq<Slot>>)
      ensures outcome == ClassNotFound <==> classId !in school.classes || school.classes[classId] != tenant
      ensures outcome == Done <==>
        classId in school.classes && school.classes[classId] == tenant && tenant in school.currentTerm
      ensures outcome == ClassNotFound || outcome == Done || outcome == ActiveTermRequired
      ensures outcome == Done ==>
        && tenant in school.currentTerm
        && var sorted := Sort(DayThenStart, ClassSlots(slots, tenant, classId, school.currentTerm[tenant]));
           forall d :: d in view && view[d] == SlotsOn(sorted, d)
    {
      view := map[];
      if classId !in school.classes || school.classes[classId] != tenant {
        return ClassNotFound, view;
      }
      if tenant !in school.currentTerm {
        return ActiveTermRequired, view;
      }
      view := GroupByDay(Sort(DayThenStart, ClassSlots(slots, tenant, classId, school.currentTerm[tenant])));
      outcome := Done;
    }

    method GetTeacherTimetable(tenant: Id, teacher: Id) returns (outcome: Outcome, view: map<Day, seq<Slot>>)
      ensures outcome == UserNotFound <==> teacher !in school.teachers || school.teachers[teacher] != tenant
      ensures outcome == Done <==>
        teacher in school.teachers && school.teachers[teacher] == tenant && tenant in school.currentTerm
      ensures outcome == UserNotFound || outcome == Done || outcome == ActiveTermRequired
      ensures outcome == Done ==>
        && tenant in school.currentTerm
        && var sorted := Sort(DayThenStart, TeacherSlots(slots, tenant, teacher, school.currentTerm[tenant]));
           forall d :: d in view && view[d] == SlotsOn(sorted, d)
    {
      view := map[];
      if teacher !in school.teachers || school.teachers[teacher] != tenant {
        return UserNotFound, view;
      }
      if tenant !in school.currentTerm {
        return ActiveTermRequired, view;
      }
      view := GroupByDay(Sort(DayThenStart, TeacherSlots(slots, tenant, teacher, school.currentTerm[tenant])));
      outcome := Done;
    }
  }

  method GroupByDay(slots: seq<Slot>) returns (grouped: map<Day, seq<Slot>>)
    ensures forall d :: d in grouped && grouped[d] == SlotsOn(slots, d)
  {
    grouped := map[];
    for k := 0 to |DAYS|
      invariant forall j :: 0 <= j < k ==> DAYS[j] in grouped && grouped[DAYS[j]] == SlotsOn(slots, DAYS[j])
    {
      grouped := grouped[DAYS[k] := SlotsOn(slots, DAYS[k])];
    }
    forall d ensures d in grouped && grouped[d] == SlotsOn(slots, d) {
      assert DAYS[DayIndex(d)] == d;
    }
  }
}
