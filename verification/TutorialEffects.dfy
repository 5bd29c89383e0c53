/** What each operation on tutorial classes answers, and which rows it leaves. */
module TutorialEffects {
  import opened Basics
  import opened Tutorials

  /** The teacher has another tutorial, besides the one named, that overlaps the interval. */
  ghost predicate Elsewhere(tutorials: seq<Tutorial>, teacher: Id, start: int, end: int, but: Option<Id>) {
    exists t :: t in tutorials && t.teacher == teacher && but != Some(t.id) && t.start < end && start < t.end
  }

  /** A tutorial of the teacher in the current term, as requested, or the first thing amiss. */
  lemma CreateAddsTutorial(school: School, tutorials: seq<Tutorial>, tenant: Id, teacher: Id, dto: CreateRequest,
      id: Id)
    ensures var (after, outcome) := AfterCreate(school, tutorials, tenant, teacher, dto, id);
            && outcome == (if tenant !in school.currentTerm then ActiveTermRequired
                           else if dto.end <= dto.start then InvalidTimeRange
                           else if !(dto.subject in school.subjects && school.subjects[dto.subject] == tenant)
                           then SubjectNotFound
                           else if dto.classId != None && dto.classId != Some("")
                                   && !(dto.classId.value in school.classes
                                     && school.classes[dto.classId.value] == tenant)
                           then ClassNotFound
                           else if Elsewhere(tutorials, teacher, dto.start, dto.end, None) then TutorialConflict
                           else Done)
            && (outcome != Done ==> after == tutorials)
            && (outcome == Done ==>
                && tenant in school.currentTerm && |after| == |tutorials| + 1 && after[..|tutorials|] == tutorials
                && var t := after[|tutorials|];
                && t.id == id && t.tenant == tenant && t.teacher == teacher && t.subject == dto.subject
                && t.classId == dto.classId && t.term == school.currentTerm[tenant]
                && t.title == dto.title && t.start == dto.start && t.end == dto.end)
  {
    assert Busy(tutorials, teacher, dto.start, dto.end, None) <==>
      Elsewhere(tutorials, teacher, dto.start, dto.end, None);
  }

  /** The teacher's own tutorial of this id. */
  predicate Own(t: Tutorial, tenant: Id, teacher: Id, id: Id) {
    t.id == id && t.tenant == tenant && t.teacher == teacher
  }

  /** A time or a title not sent stays; new times must be an interval clear of the teacher's other tutorials. */
  lemma UpdateWritesTutorial(tutorials: seq<Tutorial>, tenant: Id, teacher: Id, id: Id, dto: UpdateRequest)
    ensures var (after, outcome) := AfterUpdate(tutorials, tenant, teacher, id, dto);
            if forall t :: t in tutorials ==> !Own(t, tenant, teacher, id)
            then after == tutorials && outcome == TutorialNotFound
            else exists i :: 0 <= i < |tutorials| && Own(tutorials[i], tenant, teacher, id)
                   && UpdatedAt(tutorials, after, outcome, teacher, id, dto, i)
  {
    var i := IndexOf(tutorials, id, tenant, teacher);
    if i != -1 {
      assert tutorials[i] in tutorials;
      var (after, outcome) := AfterUpdate(tutorials, tenant, teacher, id, dto);
      var w := Written(tutorials[i], dto);
      assert Busy(tutorials, teacher, w.start, w.end, Some(id)) <==>
        Elsewhere(tutorials, teacher, w.start, w.end, Some(id));
      assert UpdatedAt(tutorials, after, outcome, teacher, id, dto, i);
    }
  }

  ghost predicate UpdatedAt(tutorials: seq<Tutorial>, after: seq<Tutorial>, outcome: Outcome, teacher: Id, id: Id,
      dto: UpdateRequest, i: nat)
    requires i < |tutorials|
  {
    var t := tutorials[i];
    var start := if dto.start == None then t.start else dto.start.value;
    var end := if dto.end == None then t.end else dto.end.value;
    var timed := dto.start != None || dto.end != None;
    && outcome == (if timed && end <= start then InvalidTimeRange
                   else if timed && Elsewhere(tutorials, teacher, start, end, Some(id)) then TutorialConflict
                   else Done)
    && (outcome != Done ==> after == tutorials)
    && (outcome == Done ==>
        && |after| == |tutorials| && after == tutorials[i := after[i]]
        && after[i] == t.(title := after[i].title, start := start, end := end)
        && after[i].title == if dto.title == None || dto.title == Some("") then t.title else dto.title.value)
  }

  lemma DeleteRemovesTutorial(tutorials: seq<Tutorial>, tenant: Id, teacher: Id, id: Id)
    ensures var (after, outcome) := AfterDelete(tutorials, tenant, teacher, id);
            if forall t :: t in tutorials ==> !Own(t, tenant, teacher, id)
            then after == tutorials && outcome == TutorialNotFound
            else
              outcome == Done
              && exists i :: 0 <= i < |tutorials| && Own(tutorials[i], tenant, teacher, id)
                             && after == tutorials[..i] + tutorials[i + 1..]
  {
    var i := IndexOf(tutorials, id, tenant, teacher);
    if i != -1 {
      assert tutorials[i] in tutorials;
    }
  }
}
