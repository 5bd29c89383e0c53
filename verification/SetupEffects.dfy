/**
 What each assignment operation answers, and which rows of the relation tables are there afterwards.
 */
module SetupEffects {
  import opened Basics
  import opened SetupDb
  import opened SetupAgreement
  import opened RegistrationRuns

  ghost predicate Offered(db: Db, classId: Id, subject: Id) {
    exists cs :: cs in db.classSubjects && cs.classId == classId && cs.subject == subject
  }

  ghost predicate Assigned(db: Db, classSubject: nat, teacher: Id) {
    exists st :: st in db.subjectTeachers && st.classSubject == classSubject && st.teacher == teacher
  }

  /** Registrations, students, teachers, terms and the other lists of foreign keys are as they were. */
  ghost predicate RestKept(db: Db, after: Db) {
    && after.registrations == db.registrations && after.students == db.students && after.teachers == db.teachers
    && after.currentTerm == db.currentTerm && after.inUse == db.inUse && after.classes.Keys == db.classes.Keys
    && after.teacherProfiles.Keys == db.teacherProfiles.Keys
    && forall c :: c in db.classes ==> after.classes[c].tenant == db.classes[c].tenant
  }

  lemma {:induction false} SyncTeachersKeepRest(db: Db, teachers: seq<Id>)
    ensures RestKept(db, SyncTeachers(db, teachers))
  {
    if teachers != [] {
      SyncTeachersKeepRest(db, teachers[..|teachers| - 1]);
    }
  }

  lemma {:induction false} SyncClassesKeepRest(db: Db, classIds: seq<Id>)
    ensures RestKept(db, SyncClasses(db, classIds))
  {
    if classIds != [] {
      SyncClassesKeepRest(db, classIds[..|classIds| - 1]);
    }
  }

  // ---------- subjects ----------

  /** One row is added for a class and a subject of the school that the class does not offer yet. */
  lemma AssignSubjectAddsRow(db: Db, tenant: Id, classId: Id, subject: Id, kind: SubjectType)
    ensures var (after, outcome) := AfterAssignSubject(db, tenant, classId, subject, kind);
            && outcome == (if !(classId in db.classes && db.classes[classId].tenant == tenant) then ClassNotFound
                           else if !(subject in db.subjects && db.subjects[subject] == tenant) then SubjectNotFound
                           else if Offered(db, classId, subject) then SubjectAlreadyAssigned
                           else Done)
            && (outcome != Done ==> after == db)
            && (outcome == Done ==>
                && after.classSubjects == db.classSubjects + [ClassSubject(db.nextId, tenant, classId, subject, kind)]
                && after.subjectTeachers == db.subjectTeachers && after.subjects == db.subjects
                && after.teacherProfiles == db.teacherProfiles
                && (forall c :: c in db.classes && c != classId ==>
                  c in after.classes && after.classes[c] == db.classes[c])
                && RestKept(db, after))
  {
    hide Unique, SubjectsOfClass;
    var found := FindClassSubject(db.classSubjects, classId, subject);
  }

  /**
   A bulk request keeps every row, and adds one for each subject named that is the school's and that the
   class does not offer yet, of the kind it is named with.
   */
  lemma {:induction false} BulkAddsRows(db: Db, tenant: Id, classId: Id, items: seq<BulkSubject>)
    requires forall cs :: cs in db.classSubjects ==> cs.id < db.nextId
    ensures var after := WithSubjects(db, tenant, classId, items);
            && after == db.(classSubjects := after.classSubjects, nextId := after.nextId) && db.nextId <= after.nextId
            && |db.classSubjects| <= |after.classSubjects|
            && after.classSubjects[..|db.classSubjects|] == db.classSubjects
            && (forall cs :: cs in after.classSubjects ==> cs.id < after.nextId)
            && (forall cs :: cs in after.classSubjects && cs !in db.classSubjects ==>
                && cs.tenant == tenant && cs.classId == classId && SubjectIn(db, cs.subject, tenant)
                && !Offered(db, classId, cs.subject) && BulkSubject(cs.subject, cs.kind) in items)
            && (forall item :: item in items && SubjectIn(db, item.subject, tenant) ==>
              Offered(after, classId, item.subject))
  {
    if items != [] {
      var rest, item := items[..|items| - 1], items[|items| - 1];
      assert items == rest + [item];
      BulkAddsRows(db, tenant, classId, rest);
      OneMoreItem(db, WithSubjects(db, tenant, classId, rest), tenant, classId, rest, item);
    }
  }

  lemma OneMoreItem(db: Db, before: Db, tenant: Id, classId: Id, rest: seq<BulkSubject>, item: BulkSubject)
    requires before == db.(classSubjects := before.classSubjects, nextId := before.nextId) && db.nextId <= before.nextId
    requires |db.classSubjects| <= |before.classSubjects|
    requires before.classSubjects[..|db.classSubjects|] == db.classSubjects
    requires forall cs :: cs in before.classSubjects ==> cs.id < before.nextId
    requires forall cs :: cs in before.classSubjects && cs !in db.classSubjects ==>
               && cs.tenant == tenant && cs.classId == classId && SubjectIn(db, cs.subject, tenant)
               && !Offered(db, classId, cs.subject) && BulkSubject(cs.subject, cs.kind) in rest
    requires forall i :: i in rest && SubjectIn(db, i.subject, tenant) ==> Offered(before, classId, i.subject)
    ensures var after := if Assignable(before, tenant, classId, item.subject)
                         then WithClassSubject(before, tenant, classId, item.subject, item.kind) else before;
            && after == db.(classSubjects := after.classSubjects, nextId := after.nextId) && db.nextId <= after.nextId
            && |db.classSubjects| <= |after.classSubjects|
            && after.classSubjects[..|db.classSubjects|] == db.classSubjects
            && (forall cs :: cs in after.classSubjects ==> cs.id < after.nextId)
            && (forall cs :: cs in after.classSubjects && cs !in db.classSubjects ==>
                && cs.tenant == tenant && cs.classId == classId && SubjectIn(db, cs.subject, tenant)
                && !Offered(db, classId, cs.subject) && BulkSubject(cs.subject, cs.kind) in rest + [item])
            && (forall i :: i in rest + [item] && SubjectIn(db, i.subject, tenant) ==>
              Offered(after, classId, i.subject))
  {
    var after := if Assignable(before, tenant, classId, item.subject)
      then WithClassSubject(before, tenant, classId, item.subject, item.kind) else before;
    forall cs | cs in before.classSubjects ensures cs in after.classSubjects {}
    forall cs | cs in db.classSubjects ensures cs in before.classSubjects {
      assert cs in before.classSubjects[..|db.classSubjects|];
    }
    forall x | Offered(before, classId, x) ensures Offered(after, classId, x) {
      var cs :| cs in before.classSubjects && cs.classId == classId && cs.subject == x;
      assert cs in after.classSubjects;
    }
    forall x | Offered(db, classId, x) ensures Offered(before, classId, x) {
      var cs :| cs in db.classSubjects && cs.classId == classId && cs.subject == x;
      assert cs in before.classSubjects;
    }
    if Assignable(before, tenant, classId, item.subject) {
      var row := ClassSubject(before.nextId, tenant, classId, item.subject, item.kind);
      assert row in after.classSubjects;
    }
  }

  lemma BulkAssignAddsRows(db: Db, tenant: Id, classId: Id, items: seq<BulkSubject>)
    requires forall cs :: cs in db.classSubjects ==> cs.id < db.nextId
    ensures var (after, outcome) := AfterBulkAssignSubjects(db, tenant, classId, items);
            && outcome == (if ClassIn(db, classId, tenant) then Done else ClassNotFound)
            && (ClassIn(db, classId, tenant) <==> classId in db.classes && db.classes[classId].tenant == tenant)
            && (outcome != Done ==> after == db)
            && (outcome == Done ==>
                && |db.classSubjects| <= |after.classSubjects|
                && after.classSubjects[..|db.classSubjects|] == db.classSubjects
                && (forall cs :: cs in after.classSubjects && cs !in db.classSubjects ==>
                    && cs.tenant == tenant && cs.classId == classId && SubjectIn(db, cs.subject, tenant)
                    && !Offered(db, classId, cs.subject) && BulkSubject(cs.subject, cs.kind) in items)
                && (forall item :: item in items && SubjectIn(db, item.subject, tenant) ==>
                    Offered(after, classId, item.subject))
                && after.subjectTeachers == db.subjectTeachers && after.subjects == db.subjects && RestKept(db, after))
  {
    BulkAddsRows(db, tenant, classId, items);
    hide Unique, SubjectsOfClass, WithSubjects;
  }

  /** The one row of the class and the subject goes, with the teachers assigned to it, unless it is registered for. */
  lemma RemoveSubjectDeletesRow(db: Db, tenant: Id, subject: Id, classId: Id)
    requires WellFormed(db)
    ensures var (after, outcome) := AfterRemoveSubject(db, tenant, subject, classId);
            && (outcome == ClassNotFound <==> !(classId in db.classes && db.classes[classId].tenant == tenant))
            && (outcome == SubjectNotAssigned <==>
                classId in db.classes && db.classes[classId].tenant == tenant && !Offered(db, classId, subject))
            && (outcome == Done || outcome == StillReferenced <==>
                classId in db.classes && db.classes[classId].tenant == tenant && Offered(db, classId, subject))
            && (outcome != Done ==> after == db)
            && (outcome == Done ==> RowGone(db, after, classId, subject))
            && (outcome == StillReferenced ==> exists r, cs :: r in db.registrations && IsRow(db, cs, classId, subject)
                                                               && r.classSubject == cs.id)
  {
    hide SyncTeachers, Unique, SubjectsOfClass, TeachersOf, ClassAgrees, WellFormed;
    var found := FindClassSubject(db.classSubjects, classId, subject);
    var (after, outcome) := AfterRemoveSubject(db, tenant, subject, classId);
    if found.Some? {
      assert IsRow(db, found.value, classId, subject);
      OnlyRow(db, found.value, classId, subject);
      if outcome == Done {
        var changed := SyncClass(WithoutClassSubjects(db, {found.value.id}), classId);
        SyncTeachersKeepRest(changed, TeachersOf(db.subjectTeachers, {found.value.id}));
        SyncTeachersOnlyLists(changed, TeachersOf(db.subjectTeachers, {found.value.id}));
      } else if outcome == StillReferenced {
        var r :| r in db.registrations && r.classSubject in {found.value.id};
      }
    }
  }

  ghost predicate IsRow(db: Db, cs: ClassSubject, classId: Id, subject: Id) {
    cs in db.classSubjects && cs.classId == classId && cs.subject == subject
  }

  /** All rows but those of the class and subject, all teachers but theirs, no registration of theirs. */
  ghost predicate RowGone(db: Db, after: Db, classId: Id, subject: Id) {
    && (forall cs :: cs in after.classSubjects <==> cs in db.classSubjects && !IsRow(db, cs, classId, subject))
    && (forall st :: st in after.subjectTeachers <==>
        st in db.subjectTeachers && !exists cs :: IsRow(db, cs, classId, subject) && cs.id == st.classSubject)
    && (forall r, cs :: r in db.registrations && IsRow(db, cs, classId, subject) ==> r.classSubject != cs.id)
    && after.subjects == db.subjects && RestKept(db, after)
  }

  lemma OnlyRow(db: Db, row: ClassSubject, classId: Id, subject: Id)
    requires WellFormed(db) && IsRow(db, row, classId, subject)
    ensures forall cs :: cs in db.classSubjects && (cs.id == row.id || IsRow(db, cs, classId, subject)) ==> cs == row
  {
    forall cs | cs in db.classSubjects && (cs.id == row.id || IsRow(db, cs, classId, subject)) ensures cs == row {
      var i :| 0 <= i < |db.classSubjects| && db.classSubjects[i] == cs;
      var j :| 0 <= j < |db.classSubjects| && db.classSubjects[j] == row;
      assert i < j || j < i || i == j;
    }
  }

  /** The subject goes, with its rows in every class and their teachers, unless something refers to it. */
  lemma DeleteSubjectDeletesRows(db: Db, tenant: Id, subject: Id)
    ensures var (after, outcome) := AfterDeleteSubject(db, tenant, subject);
            && (outcome == SubjectNotFound <==> !(subject in db.subjects && db.subjects[subject] == tenant))
            && (outcome == Done <==>
                && subject in db.subjects && db.subjects[subject] == tenant && subject !in db.inUse
                && !exists r, cs :: r in db.registrations && cs in db.classSubjects && RegisteredRow(r, cs, subject))
            && (outcome == Done || outcome == SubjectNotFound || outcome == StillReferenced)
            && (outcome != Done ==> after == db)
            && (outcome == Done ==>
                && after.subjects == db.subjects - {subject}
                && (forall cs :: cs in after.classSubjects <==>
                    cs in db.classSubjects && !exists q :: q in db.classSubjects && SameIdOf(q, cs.id, subject))
                && (forall st :: st in after.subjectTeachers <==>
                    st in db.subjectTeachers
                    && !exists q :: q in db.classSubjects && SameIdOf(q, st.classSubject, subject))
                && RestKept(db, after))
  {
    hide SyncTeachers, SyncClasses, Unique, TeachersOf, ClassesOf;
    var (after, outcome) := AfterDeleteSubject(db, tenant, subject);
    var ids := RowsOfSubject(db.classSubjects, subject);
    forall r, cs | r in db.registrations && cs in db.classSubjects && RegisteredRow(r, cs, subject)
      ensures Referenced(db, ids)
    {
      assert cs.id in ids;
    }
    if Referenced(db, ids) {
      var r :| r in db.registrations && r.classSubject in ids;
      var cs :| cs in db.classSubjects && cs.subject == subject && cs.id == r.classSubject;
      assert RegisteredRow(r, cs, subject);
    }
    forall k: nat ensures k in ids <==> exists q :: q in db.classSubjects && SameIdOf(q, k, subject) {
      if k in ids {
        var q :| q in db.classSubjects && q.subject == subject && q.id == k;
        assert SameIdOf(q, k, subject);
      }
    }
    if outcome == Done {
      var listed := TenantRowsOfSubject(db.classSubjects, subject, tenant);
      var deleted := WithoutClassSubjects(db.(subjects := db.subjects - {subject}), ids);
      var classIds := Unique(ClassesOf(db.classSubjects, listed));
      SyncClassesOnlyLists(deleted, classIds);
      SyncClassesKeepRest(deleted, classIds);
      SyncTeachersOnlyLists(SyncClasses(deleted, classIds), Unique(TeachersOf(db.subjectTeachers, listed)));
      SyncTeachersKeepRest(SyncClasses(deleted, classIds), Unique(TeachersOf(db.subjectTeachers, listed)));
    }
  }

  predicate RegisteredRow(r: Registration, cs: ClassSubject, subject: Id) {
    cs.subject == subject && r.classSubject == cs.id
  }

  predicate SameIdOf(q: ClassSubject, id: nat, subject: Id) {
    q.id == id && q.subject == subject
  }

  // ---------- teachers ----------

  /** One row is added for a row of the class and the subject, and a teacher of the school not yet assigned to it. */
  lemma AssignTeacherAddsRow(db: Db, tenant: Id, teacher: Id, classId: Id, subject: Id)
    ensures var (after, outcome) := AfterAssignTeacher(db, tenant, teacher, classId, subject);
            && (outcome == SubjectNotAssigned <==> !Offered(db, classId, subject))
            && (outcome == TeacherNotFound <==>
                Offered(db, classId, subject) && !(teacher in db.teachers && db.teachers[teacher] == tenant))
            && (outcome != Done ==> after == db)
            && (outcome == TeacherAlreadyAssigned || outcome == Done <==>
                Offered(db, classId, subject) && teacher in db.teachers && db.teachers[teacher] == tenant)
            && (outcome == TeacherAlreadyAssigned ==>
                exists cs :: IsRow(db, cs, classId, subject) && Assigned(db, cs.id, teacher))
            && (outcome == Done ==>
                && after.classSubjects == db.classSubjects && after.subjects == db.subjects && RestKept(db, after)
                && exists cs :: IsRow(db, cs, classId, subject) && !Assigned(db, cs.id, teacher)
                     && after.subjectTeachers == db.subjectTeachers + [SubjectTeacher(tenant, cs.id, teacher)])
  {
    hide Unique, SubjectsOfTeacher;
    var found := FindClassSubject(db.classSubjects, classId, subject);
    if found.Some? {
      assert IsRow(db, found.value, classId, subject);
      assert Assigned(db, found.value.id, teacher) <==> Teaching(db.subjectTeachers, found.value.id, teacher);
    }
  }

  /** Rows are added, each for a teacher named, and exactly those named are assigned besides those who were. */
  ghost predicate TeachersAdded(db: Db, after: Db, tenant: Id, classSubject: nat, teachers: seq<Id>, t: Id) {
    && after.classSubjects == db.classSubjects && after.subjects == db.subjects && RestKept(db, after)
    && db.subjectTeachers <= after.subjectTeachers
    && (Assigned(after, classSubject, t) <==> Assigned(db, classSubject, t) || t in teachers)
    && (forall st :: st in after.subjectTeachers && st !in db.subjectTeachers ==>
        st.teacher in teachers && st == SubjectTeacher(tenant, classSubject, st.teacher))
  }

  /** Every teacher named is assigned, each by one new row unless there is a row already; nobody else is. */
  lemma {:induction false} BulkTeachersAddRows(db: Db, tenant: Id, classSubject: nat, teachers: seq<Id>, t: Id)
    ensures TeachersAdded(db, WithTeachers(db, tenant, classSubject, teachers), tenant, classSubject, teachers, t)
  {
    if teachers == [] {
      assert TeachersAdded(db, db, tenant, classSubject, [], t);
    } else {
      var rest, teacher := teachers[..|teachers| - 1], teachers[|teachers| - 1];
      assert teachers == rest + [teacher];
      BulkTeachersAddRows(db, tenant, classSubject, rest, t);
      var before := WithTeachers(db, tenant, classSubject, rest);
      hide TeachersAdded, WithTeacher, SyncTeacher;
      if Teaching(before.subjectTeachers, classSubject, teacher) {
        AlreadyThere(db, before, tenant, classSubject, rest, teacher, t);
      } else {
        OneMoreTeacher(db, before, tenant, classSubject, rest, teacher, t);
      }
    }
  }

  lemma AlreadyThere(db: Db, before: Db, tenant: Id, classSubject: nat, rest: seq<Id>, teacher: Id, t: Id)
    requires TeachersAdded(db, before, tenant, classSubject, rest, t)
    requires Teaching(before.subjectTeachers, classSubject, teacher)
    ensures TeachersAdded(db, before, tenant, classSubject, rest + [teacher], t)
  {
    assert Assigned(before, classSubject, teacher);
  }

  lemma RestKeptByTeacher(db: Db, before: Db, row: SubjectTeacher)
    requires RestKept(db, before)
    ensures RestKept(db, SyncTeacher(WithTeacher(before, row.tenant, row.classSubject, row.teacher), row.teacher))
  {
    hide Unique, SubjectsOfTeacher;
  }

  lemma OneMoreTeacher(db: Db, before: Db, tenant: Id, classSubject: nat, rest: seq<Id>, teacher: Id, t: Id)
    requires TeachersAdded(db, before, tenant, classSubject, rest, t)
    ensures TeachersAdded(db, SyncTeacher(WithTeacher(before, tenant, classSubject, teacher), teacher),
                          tenant, classSubject, rest + [teacher], t)
  {
    hide Unique, SubjectsOfTeacher, RestKept;
    var row := SubjectTeacher(tenant, classSubject, teacher);
    RestKeptByTeacher(db, before, row);
    var after := SyncTeacher(WithTeacher(before, tenant, classSubject, teacher), teacher);
    assert after.subjectTeachers == before.subjectTeachers + [row] && row in after.subjectTeachers;
    if Assigned(before, classSubject, t) {
      var st :| st in before.subjectTeachers && st.classSubject == classSubject && st.teacher == t;
      assert st in after.subjectTeachers;
    }
  }

  lemma BulkTeachersAnswer(db: Db, tenant: Id, teachers: seq<Id>, classId: Id, subject: Id)
    ensures var (after, outcome) := AfterBulkAssignTeachers(db, tenant, teachers, classId, subject);
            && outcome == (if Offered(db, classId, subject) then Done else SubjectNotAssigned)
            && (outcome != Done ==> after == db)
            && (outcome == Done ==>
                exists cs :: IsRow(db, cs, classId, subject) && forall t :: t in teachers ==> Assigned(after, cs.id, t))
  {
    hide WithTeachers;
    var found := FindClassSubject(db.classSubjects, classId, subject);
    if found.Some? {
      assert IsRow(db, found.value, classId, subject);
      var after := AfterBulkAssignTeachers(db, tenant, teachers, classId, subject).0;
      forall t | t in teachers ensures Assigned(after, found.value.id, t) {
        BulkTeachersAddRows(db, tenant, found.value.id, teachers, t);
      }
    }
  }
}
