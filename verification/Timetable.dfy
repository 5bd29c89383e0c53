/**
 Timetable slots: the table, its conflict checks, and what create, update and delete leave behind
 (src/timetable/timetable.service.ts:44-222, 566-763).
 */
module Timetable {
  import opened Basics
  import opened Clock

  const SCHOOL_OPEN: Time := "08:00"
  const SCHOOL_CLOSE: Time := "16:00"

  datatype Day = MONDAY | TUESDAY | WEDNESDAY | THURSDAY | FRIDAY | SATURDAY | SUNDAY

  datatype Slot = Slot(
    id: Id,
    tenant: Id,
    classId: Id,
    subject: Id,
    teacher: Id,
    term: Id,
    day: Day,
    start: Time,
    end: Time,
    venue: Option<string>,
    active: bool)

  datatype CreateRequest = CreateRequest(
    classId: Id, subject: Id, teacher: Id, day: Day, start: Time, end: Time, venue: Option<string>)

  /**
   Every field may be missing; the identifiers may also be empty strings. Where null does what a
   missing field does, the two are one; a null venue is written, a null is_active refused.
   */
  datatype UpdateRequest = UpdateRequest(
    day: Option<Day>,
    classId: Option<Id>,
    subject: Option<Id>,
    start: Option<Time>,
    end: Option<Time>,
    teacher: Option<Id>,
    venue: Sent<string>,
    active: Sent<bool>)

  /** The records a slot refers to: each tenant's current term, and who owns classes and teachers. */
  datatype School = School(
    currentTerm: map<Id, Id>, classes: map<Id, Id>, teachers: map<Id, Id>, classSubjects: set<(Id, Id)>)

  datatype Outcome =
    | Done | ActiveTermRequired | ClassNotFound | UserNotFound | SubjectNotAssigned
    | InvalidTimeRange | OutsideSchoolHours | TeacherConflict | ClassConflict | SlotNotFound | NullRefused

  // ---------- checks ----------

  predicate ValidTimeRange(start: Time, end: Time) {
    TimeToMinutes(start) < TimeToMinutes(end)
  }

  predicate InSchoolHours(start: Time, end: Time) {
    TimeToMinutes(SCHOOL_OPEN) <= TimeToMinutes(start) && TimeToMinutes(end) <= TimeToMinutes(SCHOOL_CLOSE)
  }

  datatype Place = Place(term: Id, day: Day, start: Time, end: Time)

  function PlaceOf(s: Slot): Place {
    Place(s.term, s.day, s.start, s.end)
  }

  predicate Takes(s: Slot, p: Place, exclude: Option<Id>) {
    && s.active && s.term == p.term && s.day == p.day && Some(s.id) != exclude
    && TimesOverlap(p.start, p.end, s.start, s.end)
  }

  predicate TeacherBusy(slots: seq<Slot>, teacher: Id, p: Place, exclude: Option<Id>) {
    exists s :: s in slots && s.teacher == teacher && Takes(s, p, exclude)
  }

  predicate ClassBusy(slots: seq<Slot>, classId: Id, p: Place, exclude: Option<Id>) {
    exists s :: s in slots && s.classId == classId && Takes(s, p, exclude)
  }

  // ---------- the three operations ----------

  function IndexOf(slots: seq<Slot>, id: Id, tenant: Id): (i: int)
    ensures -1 <= i < |slots| && (0 <= i ==> slots[i].id == id && slots[i].tenant == tenant)
    ensures i == -1 ==> forall s :: s in slots ==> s.id != id || s.tenant != tenant
  {
    if slots == [] then -1
    else if slots[0].id == id && slots[0].tenant == tenant then 0
    else
      var i := IndexOf(slots[1..], id, tenant);
      if i == -1 then -1 else i + 1
  }

  function AfterCreate(school: School, slots: seq<Slot>, tenant: Id, dto: CreateRequest, id: Id): (seq<Slot>, Outcome) {
    if tenant !in school.currentTerm then (slots, ActiveTermRequired)
    else if dto.classId !in school.classes || school.classes[dto.classId] != tenant then (slots, ClassNotFound)
    else if dto.teacher !in school.teachers || school.teachers[dto.teacher] != tenant then (slots, UserNotFound)
    else if (dto.classId, dto.subject) !in school.classSubjects then (slots, SubjectNotAssigned)
    else if !ValidTimeRange(dto.start, dto.end) then (slots, InvalidTimeRange)
    else if !InSchoolHours(dto.start, dto.end) then (slots, OutsideSchoolHours)
    else
      var term := school.currentTerm[tenant];
      var p := Place(term, dto.day, dto.start, dto.end);
      if TeacherBusy(slots, dto.teacher, p, None) then (slots, TeacherConflict)
      else if ClassBusy(slots, dto.classId, p, None) then (slots, ClassConflict)
      else
        var slot :=
          Slot(id, tenant, dto.classId, dto.subject, dto.teacher, term, dto.day, dto.start, dto.end, dto.venue, true);
        (slots + [slot], Done)
  }

  /** JavaScript truthiness of an optional string. */
  predicate Given(field: Option<Id>) {
    field.Some? && field.value != ""
  }

  predicate SendsPlacement(dto: UpdateRequest) {
    dto.day.Some? || dto.start.Some? || dto.end.Some? || Given(dto.teacher) || Given(dto.classId) || Given(dto.subject)
  }

  /** The row that an update writes: empty identifiers are skipped. */
  function Written(s: Slot, dto: UpdateRequest): Slot {
    s.(day := dto.day.GetOr(s.day),
       start := dto.start.GetOr(s.start),
       end := dto.end.GetOr(s.end),
       teacher := if Given(dto.teacher) then dto.teacher.value else s.teacher,
       classId := if Given(dto.classId) then dto.classId.value else s.classId,
       subject := if Given(dto.subject) then dto.subject.value else s.subject,
       venue := dto.venue.Over(s.venue),
       active := dto.active.GetOr(s.active))
  }

  /** The checks read the identifiers as sent, empty or not. */
  function UpdateVerdict(slots: seq<Slot>, s: Slot, dto: UpdateRequest): Outcome {
    var w := Written(s, dto);
    var teacher := dto.teacher.GetOr(s.teacher);
    var classId := dto.classId.GetOr(s.classId);
    if (dto.start.Some? || dto.end.Some?) && !ValidTimeRange(w.start, w.end) then InvalidTimeRange
    else if (dto.start.Some? || dto.end.Some?) && !InSchoolHours(w.start, w.end) then OutsideSchoolHours
    else if SendsPlacement(dto) && TeacherBusy(slots, teacher, PlaceOf(w), Some(s.id)) then TeacherConflict
    else if SendsPlacement(dto) && ClassBusy(slots, classId, PlaceOf(w), Some(s.id)) then ClassConflict
    else if dto.active == Null then NullRefused
    else Done
  }

  function AfterUpdate(slots: seq<Slot>, tenant: Id, id: Id, dto: UpdateRequest): (seq<Slot>, Outcome) {
    var i := IndexOf(slots, id, tenant);
    if i == -1 then (slots, SlotNotFound)
    else
      var verdict := UpdateVerdict(slots, slots[i], dto);
      (if verdict == Done then slots[i := Written(slots[i], dto)] else slots, verdict)
  }

  function AfterDelete(slots: seq<Slot>, tenant: Id, id: Id): (seq<Slot>, Outcome) {
    var i := IndexOf(slots, id, tenant);
    if i == -1 then (slots, SlotNotFound) else (slots[..i] + slots[i + 1..], Done)
  }

  // ---------- views ----------

  const DAYS: seq<Day> := [MONDAY, TUESDAY, WEDNESDAY, THURSDAY, FRIDAY, SATURDAY, SUNDAY]

  function DayIndex(d: Day): (k: nat)
    ensures k < 7 && DAYS[k] == d
  {
    match d
    case MONDAY => 0 case TUESDAY => 1 case WEDNESDAY => 2 case THURSDAY => 3
    case FRIDAY => 4 case SATURDAY => 5 case SUNDAY => 6
  }

  /** orderBy: day_of_week in enum order, then start_time as a string. */
  predicate DayThenStart(a: Slot, b: Slot) {
    DayIndex(a.day) < DayIndex(b.day) || (a.day == b.day && StringLe(a.start, b.start))
  }

  function ClassSlots(slots: seq<Slot>, tenant: Id, classId: Id, term: Id): seq<Slot> {
    if slots == [] then []
    else
      var s, rest := slots[0], ClassSlots(slots[1..], tenant, classId, term);
      if s.tenant == tenant && s.classId == classId && s.term == term && s.active then [s] + rest else rest
  }

  function TeacherSlots(slots: seq<Slot>, tenant: Id, teacher: Id, term: Id): seq<Slot> {
    if slots == [] then []
    else
      var s, rest := slots[0], TeacherSlots(slots[1..], tenant, teacher, term);
      if s.tenant == tenant && s.teacher == teacher && s.term == term && s.active then [s] + rest else rest
  }

  function SlotsOn(slots: seq<Slot>, day: Day): seq<Slot> {
    if slots == [] then []
    else if slots[0].day == day then [slots[0]] + SlotsOn(slots[1..], day)
    else SlotsOn(slots[1..], day)
  }
}
