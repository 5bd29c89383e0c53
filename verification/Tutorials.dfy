/**
 Tutorial classes: intervals of absolute time that one teacher gives
 (src/timetable/timetable.service.ts:420-537, 626-649, 700-710).
 */
module Tutorials {
  import opened Basics

  datatype Tutorial = Tutorial(id: Id, tenant: Id, teacher: Id, subject: Id, classId: Option<Id>, term: Id,
      title: string, start: int, end: int)

  datatype CreateRequest = CreateRequest(subject: Id, classId: Option<Id>, title: string, start: int, end: int)

  datatype UpdateRequest = UpdateRequest(title: Option<string>, start: Option<int>, end: Option<int>)

  /** Each tenant's current term, and the tenants of subjects and classes. */
  datatype School = School(currentTerm: map<Id, Id>, subjects: map<Id, Id>, classes: map<Id, Id>)

  datatype Outcome =
    | Done | ActiveTermRequired | InvalidTimeRange | SubjectNotFound | ClassNotFound
    | TutorialConflict | TutorialNotFound

  predicate Overlap(a: Tutorial, start: int, end: int) {
    a.start < end && a.end > start
  }

  predicate Busy(tutorials: seq<Tutorial>, teacher: Id, start: int, end: int, exclude: Option<Id>) {
    exists t :: t in tutorials && t.teacher == teacher && Some(t.id) != exclude && Overlap(t, start, end)
  }

  /** The row the teacher may change, or -1. */
  function IndexOf(tutorials: seq<Tutorial>, id: Id, tenant: Id, teacher: Id): (i: int)
    ensures -1 <= i < |tutorials|
    ensures 0 <= i ==> tutorials[i].id == id && tutorials[i].tenant == tenant && tutorials[i].teacher == teacher
    ensures i == -1 ==> forall t :: t in tutorials ==> t.id != id || t.tenant != tenant || t.teacher != teacher
  {
    if tutorials == [] then -1
    else if tutorials[0].id == id && tutorials[0].tenant == tenant && tutorials[0].teacher == teacher then 0
    else
      var i := IndexOf(tutorials[1..], id, tenant, teacher);
      if i == -1 then -1 else i + 1
  }

  function AfterCreate(school: School, tutorials: seq<Tutorial>, tenant: Id, teacher: Id, dto: CreateRequest,
      id: Id): (seq<Tutorial>, Outcome) {
    if tenant !in school.currentTerm then (tutorials, ActiveTermRequired)
    else if dto.start >= dto.end then (tutorials, InvalidTimeRange)
    else if dto.subject !in school.subjects || school.subjects[dto.subject] != tenant then (tutorials, SubjectNotFound)
    else if dto.classId.GetOr("") != ""
      && (dto.classId.value !in school.classes || school.classes[dto.classId.value] != tenant)
    then (tutorials, ClassNotFound)
    else if Busy(tutorials, teacher, dto.start, dto.end, None) then (tutorials, TutorialConflict)
    else
      var term := school.currentTerm[tenant];
      (tutorials + [Tutorial(id, tenant, teacher, dto.subject, dto.classId, term, dto.title, dto.start, dto.end)], Done)
  }

  function Written(t: Tutorial, dto: UpdateRequest): Tutorial {
    t.(title := if dto.title.GetOr("") != "" then dto.title.value else t.title,
       start := dto.start.GetOr(t.start),
       end := dto.end.GetOr(t.end))
  }

  function AfterUpdate(tutorials: seq<Tutorial>, tenant: Id, teacher: Id, id: Id,
      dto: UpdateRequest): (seq<Tutorial>, Outcome) {
    var i := IndexOf(tutorials, id, tenant, teacher);
    if i == -1 then (tutorials, TutorialNotFound)
    else
      var w := Written(tutorials[i], dto);
      var timed := dto.start.Some? || dto.end.Some?;
      if timed && w.start >= w.end then (tutorials, InvalidTimeRange)
      else if timed && Busy(tutorials, teacher, w.start, w.end, Some(id)) then (tutorials, TutorialConflict)
      else (tutorials[i := w], Done)
  }

  function AfterDelete(tutorials: seq<Tutorial>, tenant: Id, teacher: Id, id: Id): (seq<Tutorial>, Outcome) {
    var i := IndexOf(tutorials, id, tenant, teacher);
    if i == -1 then (tutorials, TutorialNotFound) else (tutorials[..i] + tutorials[i + 1..], Done)
  }

  // ---------- the service ----------

  class TutorialService {
    const school: School
    var tutorials: seq<Tutorial>

    constructor (school: School)
      ensures this.school == school && tutorials == []
    {
      this.school := school;
      tutorials := [];
    }

    method CreateTutorialClass(tenant: Id, teacher: Id, dto: CreateRequest, id: Id) returns (outcome: Outcome)
      modifies this
      ensures (tutorials, outcome) == AfterCreate(school, old(tutorials), tenant, teacher, dto, id)
      ensures old(Safe(tutorials) && FreshId(tutorials, id)) ==> Safe(tutorials)
    {
      hide Safe;
      if Safe(tutorials) && FreshId(tutorials, id) {
        CreateKeepsSafe(school, tutorials, tenant, teacher, dto, id);
      }
      if tenant !in school.currentTerm {
        return ActiveTermRequired;
      }
      if dto.start >= dto.end {
        return InvalidTimeRange;
      }
      if dto.subject !in school.subjects || school.subjects[dto.subject] != tenant {
        return SubjectNotFound;
      }
      if dto.classId.GetOr("") != "" {
        if dto.classId.value !in school.classes || school.classes[dto.classId.value] != tenant {
          return ClassNotFound;
        }
      }
      if Busy(tutorials, teacher, dto.start, dto.end, None) {
        return TutorialConflict;
      }
      var term := school.currentTerm[tenant];
      tutorials := tutorials
        + [Tutorial(id, tenant, teacher, dto.subject, dto.classId, term, dto.title, dto.start, dto.end)];
      outcome := Done;
    }

    method UpdateTutorialClass(tenant: Id, teacher: Id, id: Id, dto: UpdateRequest) returns (outcome: Outcome)
      modifies this
      ensures (tutorials, outcome) == AfterUpdate(old(tutorials), tenant, teacher, id, dto)
      ensures old(Safe(tutorials)) ==> Safe(tutorials)
    {
      hide Safe;
      if Safe(tutorials) {
        UpdateKeepsSafe(tutorials, tenant, teacher, id, dto);
      }
      var i := IndexOf(tutorials, id, tenant, teacher);
      if i == -1 {
        return TutorialNotFound;
      }
      if dto.start.Some? || dto.end.Some? {
        var start, end := dto.start.GetOr(tutorials[i].start), dto.end.GetOr(tutorials[i].end);
        if start >= end {
          return InvalidTimeRange;
        }
        if Busy(tutorials, teacher, start, end, Some(id)) {
          return TutorialConflict;
        }
      }
      tutorials := tutorials[i := Written(tutorials[i], dto)];
      outcome := Done;
    }

    method DeleteTutorialClass(tenant: Id, teacher: Id, id: Id) returns (outcome: Outcome)
      modifies this
      ensures (tutorials, outcome) == AfterDelete(old(tutorials), tenant, teacher, id)
      ensures old(Safe(tutorials)) ==> Safe(tutorials)
    {
      hide Safe;
      if Safe(tutorials) {
        DeleteKeepsSafe(tutorials, tenant, teacher, id);
      }
      var i := IndexOf(tutorials, id, tenant, teacher);
      if i == -1 {
        return TutorialNotFound;
      }
      tutorials := tutorials[..i] + tutorials[i + 1..];
      outcome := Done;
    }
  }

  // ---------- no teacher is in two places ----------

  /** Unique ids, non-empty intervals, and no teacher's tutorials overlap. */
  ghost predicate Safe(tutorials: seq<Tutorial>) {
    && (forall t :: t in tutorials ==> t.start < t.end)
    && (forall i, j :: 0 <= i < j < |tutorials| ==> Apart(tutorials[i], tutorials[j]))
  }

  ghost predicate Apart(a: Tutorial, b: Tutorial) {
    a.id != b.id && (a.teacher == b.teacher ==> a.end <= b.start || b.end <= a.start)
  }

  datatype Request =
    | Create(tenant: Id, teacher: Id, create: CreateRequest, newId: Id)
    | Update(tenant: Id, teacher: Id, id: Id, update: UpdateRequest)
    | Delete(tenant: Id, teacher: Id, id: Id)

  function After(school: School, tutorials: seq<Tutorial>, r: Request): seq<Tutorial> {
    match r
    case Create(tenant, teacher, dto, id) => AfterCreate(school, tutorials, tenant, teacher, dto, id).0
    case Update(tenant, teacher, id, dto) => AfterUpdate(tutorials, tenant, teacher, id, dto).0
    case Delete(tenant, teacher, id) => AfterDelete(tutorials, tenant, teacher, id).0
  }

  function Run(school: School, tutorials: seq<Tutorial>, rs: seq<Request>): seq<Tutorial>
    decreases |rs|
  {
    if rs == [] then tutorials else Run(school, After(school, tutorials, rs[0]), rs[1..])
  }

  ghost predicate FreshId(tutorials: seq<Tutorial>, id: Id) {
    forall t :: t in tutorials ==> t.id != id
  }

  /** New rows get new ids. */
  ghost predicate FreshIds(school: School, tutorials: seq<Tutorial>, rs: seq<Request>)
    decreases |rs|
  {
    rs == [] ||
    ((rs[0].Create? ==> FreshId(tutorials, rs[0].newId)) && FreshIds(school, After(school, tutorials, rs[0]), rs[1..]))
  }

  lemma CreateKeepsSafe(school: School, tutorials: seq<Tutorial>, tenant: Id, teacher: Id, dto: CreateRequest, id: Id)
    requires Safe(tutorials) && FreshId(tutorials, id)
    ensures Safe(AfterCreate(school, tutorials, tenant, teacher, dto, id).0)
  {
    var (after, outcome) := AfterCreate(school, tutorials, tenant, teacher, dto, id);
    if outcome == Done {
      forall i, j | 0 <= i < j < |after| ensures Apart(after[i], after[j]) {
        assert after[i] in tutorials;
      }
    }
  }

  lemma UpdateKeepsSafe(tutorials: seq<Tutorial>, tenant: Id, teacher: Id, id: Id, dto: UpdateRequest)
    requires Safe(tutorials)
    ensures Safe(AfterUpdate(tutorials, tenant, teacher, id, dto).0)
  {
    var k := IndexOf(tutorials, id, tenant, teacher);
    var (after, outcome) := AfterUpdate(tutorials, tenant, teacher, id, dto);
    if outcome == Done {
      assert tutorials[k] in tutorials;
      forall i, j | 0 <= i < j < |after| ensures Apart(after[i], after[j]) {
        assert Apart(tutorials[i], tutorials[j]);
        assert tutorials[i] in tutorials && tutorials[j] in tutorials;
      }
    }
  }

  lemma DeleteKeepsSafe(tutorials: seq<Tutorial>, tenant: Id, teacher: Id, id: Id)
    requires Safe(tutorials)
    ensures Safe(AfterDelete(tutorials, tenant, teacher, id).0)
  {
    var k := IndexOf(tutorials, id, tenant, teacher);
    var after := AfterDelete(tutorials, tenant, teacher, id).0;
    if k != -1 {
      forall i, j | 0 <= i < j < |after| ensures Apart(after[i], after[j]) {
        assert after[i] == tutorials[if i < k then i else i + 1] && after[j] == tutorials[if j < k then j else j + 1];
      }
    }
  }

  lemma StepKeepsSafe(school: School, tutorials: seq<Tutorial>, r: Request)
    requires Safe(tutorials) && (r.Create? ==> FreshId(tutorials, r.newId))
    ensures Safe(After(school, tutorials, r))
  {
    match r
    case Create(tenant, teacher, dto, id) => CreateKeepsSafe(school, tutorials, tenant, teacher, dto, id);
    case Update(tenant, teacher, id, dto) => UpdateKeepsSafe(tutorials, tenant, teacher, id, dto);
    case Delete(tenant, teacher, id) => DeleteKeepsSafe(tutorials, tenant, teacher, id);
  }

  /** Over every run, unlike the weekly slots, with no exception: no teacher gives two tutorials at once. */
  lemma {:induction false} RunKeepsSafe(school: School, tutorials: seq<Tutorial>, rs: seq<Request>)
    requires Safe(tutorials) && FreshIds(school, tutorials, rs)
    ensures Safe(Run(school, tutorials, rs))
    decreases |rs|
  {
    if rs != [] {
      StepKeepsSafe(school, tutorials, rs[0]);
      RunKeepsSafe(school, After(school, tutorials, rs[0]), rs[1..]);
    }
  }
}
