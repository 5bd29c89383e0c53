/** The school-setup service as it runs: rows created and deleted in loops, id lists overwritten. */
module SetupService {
  import opened Basics
  import opened SetupDb
  import opened SetupAgreement
  import opened SetupSteps
  import opened RegistrationUpdate

  /** The subjects a bulk request assigns, in order; the others are skipped. */
  function AssignedSubjects(db: Db, tenant: Id, classId: Id, items: seq<BulkSubject>): seq<Id> {
    if items == [] then []
    else
      var rest, item := items[..|items| - 1], items[|items| - 1];
      AssignedSubjects(db, tenant, classId, rest)
      + if Assignable(WithSubjects(db, tenant, classId, rest), tenant, classId, item.subject) then [item.subject]
        else []
  }

  class SetupService {
    var db: Db

    constructor (db: Db)
      ensures this.db == db
    {
      this.db := db;
    }

    method SyncClassSubjectIds(classId: Id)
      requires classId in db.classes
      modifies this
      ensures db == SyncClass(old(db), classId)
    {
      var ids := Unique(SubjectsOfClass(db.classSubjects, classId));
      db := db.(classes := db.classes[classId := db.classes[classId].(subjectIds := ids)]);
    }

    method SyncTeacherAssignedSubjectIds(teacher: Id)
      modifies this
      ensures db == SyncTeacher(old(db), teacher)
    {
      if teacher !in db.teacherProfiles {
        return;
      }
      var ids := Unique(SubjectsOfTeacher(db.subjectTeachers, db.classSubjects, teacher));
      db := db.(teacherProfiles := db.teacherProfiles[teacher := ids]);
    }

    method AssignSubjectToClass(tenant: Id, classId: Id, subject: Id, kind: SubjectType) returns (outcome: Outcome)
      modifies this
      ensures (db, outcome) == AfterAssignSubject(old(db), tenant, classId, subject, kind)
      ensures old(WellFormed(db)) ==> Kept(old(db), db)
    {
      hide WellFormed, Kept;
      if WellFormed(db) {
        StepKeeps(db, SetupSteps.AssignSubject(tenant, classId, subject, kind));
      }
      if !ClassIn(db, classId, tenant) {
        return ClassNotFound;
      }
      if !SubjectIn(db, subject, tenant) {
        return SubjectNotFound;
      }
      if FindClassSubject(db.classSubjects, classId, subject).Some? {
        return SubjectAlreadyAssigned;
      }
      db := WithClassSubject(db, tenant, classId, subject, kind);
      SyncClassSubjectIds(classId);
      outcome := Done;
    }

    method BulkAssignSubjectsToClass(tenant: Id, classId: Id, items: seq<BulkSubject>)
      returns (outcome: Outcome, added: seq<Id>, skipped: seq<Id>)
      modifies this
      ensures (db, outcome) == AfterBulkAssignSubjects(old(db), tenant, classId, items)
      ensures outcome == Done ==> added == AssignedSubjects(old(db), tenant, classId, items)
      ensures outcome == Done ==> |added| + |skipped| == |items|
      ensures old(WellFormed(db)) ==> Kept(old(db), db)
    {
      hide WellFormed, Kept;
      if WellFormed(db) {
        StepKeeps(db, SetupSteps.BulkAssignSubjects(tenant, classId, items));
      }
      added, skipped := [], [];
      if !ClassIn(db, classId, tenant) {
        return ClassNotFound, added, skipped;
      }
      ghost var before := db;
      for i := 0 to |items|
        invariant db == WithSubjects(before, tenant, classId, items[..i]) && db.classes == before.classes
        invariant added == AssignedSubjects(before, tenant, classId, items[..i])
        invariant |added| + |skipped| == i
      {
        var item := items[i];
        assert items[..i + 1][..i] == items[..i] && items[..i + 1][i] == item;
        if !SubjectIn(db, item.subject, tenant) {
          skipped := skipped + [item.subject];
        } else if FindClassSubject(db.classSubjects, classId, item.subject).Some? {
          skipped := skipped + [item.subject];
        } else {
          db := WithClassSubject(db, tenant, classId, item.subject, item.kind);
          added := added + [item.subject];
        }
      }
      assert items[..|items|] == items;
      SyncClassSubjectIds(classId);
      outcome := Done;
    }

    method SyncEachTeacher(teachers: seq<Id>)
      modifies this
      ensures db == SyncTeachers(old(db), teachers)
    {
      ghost var before := db;
      for i := 0 to |teachers|
        invariant db == SyncTeachers(before, teachers[..i])
      {
        assert teachers[..i + 1][..i] == teachers[..i];
        SyncTeacherAssignedSubjectIds(teachers[i]);
      }
      assert teachers[..|teachers|] == teachers;
    }

    method RemoveSubjectFromClass(tenant: Id, subject: Id, classId: Id) returns (outcome: Outcome)
      modifies this
      ensures (db, outcome) == AfterRemoveSubject(old(db), tenant, subject, classId)
      ensures old(WellFormed(db)) ==> Kept(old(db), db)
    {
      hide WellFormed, Kept;
      if WellFormed(db) {
        StepKeeps(db, SetupSteps.RemoveSubject(tenant, subject, classId));
      }
      if !ClassIn(db, classId, tenant) {
        return ClassNotFound;
      }
      var found := FindClassSubject(db.classSubjects, classId, subject);
      if found.None? {
        return SubjectNotAssigned;
      }
      var ids := {found.value.id};
      var affected := TeachersOf(db.subjectTeachers, ids);
      if Referenced(db, ids) {
        return StillReferenced;
      }
      db := WithoutClassSubjects(db, ids);
      SyncClassSubjectIds(classId);
      SyncEachTeacher(affected);
      outcome := Done;
    }

    method DeleteSubject(tenant: Id, subject: Id) returns (outcome: Outcome)
      modifies this
      ensures (db, outcome) == AfterDeleteSubject(old(db), tenant, subject)
      ensures old(WellFormed(db)) ==> Kept(old(db), db)
    {
      hide WellFormed, Kept;
      if WellFormed(db) {
        StepKeeps(db, SetupSteps.DeleteSubject(tenant, subject));
      }
      if !SubjectIn(db, subject, tenant) {
        return SubjectNotFound;
      }
      var listed := TenantRowsOfSubject(db.classSubjects, subject, tenant);
      var classIds := Unique(ClassesOf(db.classSubjects, listed));
      var teachers := Unique(TeachersOf(db.subjectTeachers, listed));
      var ids := RowsOfSubject(db.classSubjects, subject);
      if subject in db.inUse || Referenced(db, ids) {
        return StillReferenced;
      }
      db := WithoutClassSubjects(db.(subjects := db.subjects - {subject}), ids);
      ghost var deleted := db;
      for i := 0 to |classIds|
        invariant db == SyncClasses(deleted, classIds[..i])
      {
        assert classIds[..i + 1][..i] == classIds[..i];
        if classIds[i] in db.classes {
          SyncClassSubjectIds(classIds[i]);
        }
      }
      assert classIds[..|classIds|] == classIds;
      SyncEachTeacher(teachers);
      outcome := Done;
    }

    method AssignTeacherToClassSubject(tenant: Id, teacher: Id, classId: Id, subject: Id) returns (outcome: Outcome)
      modifies this
      ensures (db, outcome) == AfterAssignTeacher(old(db), tenant, teacher, classId, subject)
      ensures old(WellFormed(db)) ==> Kept(old(db), db)
    {
      hide WellFormed, Kept;
      if WellFormed(db) {
        StepKeeps(db, SetupSteps.AssignTeacher(tenant, teacher, classId, subject));
      }
      var found := FindClassSubject(db.classSubjects, classId, subject);
      if found.None? {
        return SubjectNotAssigned;
      }
      if !TeacherIn(db, teacher, tenant) {
        return TeacherNotFound;
      }
      if Teaching(db.subjectTeachers, found.value.id, teacher) {
        return TeacherAlreadyAssigned;
      }
      db := WithTeacher(db, tenant, found.value.id, teacher);
      SyncTeacherAssignedSubjectIds(teacher);
      outcome := Done;
    }

    method BulkAssignTeachersToClassSubjects(tenant: Id, teachers: seq<Id>, classId: Id, subject: Id)
      returns (outcome: Outcome, added: seq<Id>, skipped: seq<Id>)
      modifies this
      ensures (db, outcome) == AfterBulkAssignTeachers(old(db), tenant, teachers, classId, subject)
      ensures outcome == Done ==> |added| + |skipped| == |teachers|
      ensures old(WellFormed(db)) ==> Kept(old(db), db)
    {
      hide WellFormed, Kept;
      if WellFormed(db) {
        StepKeeps(db, SetupSteps.BulkAssignTeachers(tenant, teachers, classId, subject));
      }
      added, skipped := [], [];
      var found := FindClassSubject(db.classSubjects, classId, subject);
      if found.None? {
        return SubjectNotAssigned, added, skipped;
      }
      var id := found.value.id;
      ghost var before := db;
      for i := 0 to |teachers|
        invariant db == WithTeachers(before, tenant, id, teachers[..i])
        invariant |added| + |skipped| == i
      {
        assert teachers[..i + 1][..i] == teachers[..i];
        if Teaching(db.subjectTeachers, id, teachers[i]) {
          skipped := skipped + [teachers[i]];
        } else {
          db := WithTeacher(db, tenant, id, teachers[i]);
          added := added + [teachers[i]];
          SyncTeacherAssignedSubjectIds(teachers[i]);
        }
      }
      assert teachers[..|teachers|] == teachers;
      outcome := Done;
    }

    method RemoveTeacherFromClassSubject(tenant: Id, teacher: Id, classId: Id, subject: Id) returns (outcome: Outcome)
      modifies this
      ensures (db, outcome) == AfterRemoveTeacher(old(db), tenant, teacher, classId, subject)
      ensures old(WellFormed(db)) ==> Kept(old(db), db)
    {
      hide WellFormed, Kept;
      if WellFormed(db) {
        StepKeeps(db, SetupSteps.RemoveTeacher(tenant, teacher, classId, subject));
      }
      if !ClassIn(db, classId, tenant) {
        return ClassNotFound;
      }
      if !SubjectIn(db, subject, tenant) {
        return SubjectNotFound;
      }
      if !TeacherIn(db, teacher, tenant) {
        return TeacherNotFound;
      }
      var found := FindClassSubject(db.classSubjects, classId, subject);
      if found.None? || !Teaching(db.subjectTeachers, found.value.id, teacher) {
        return SubjectNotAssigned;
      }
      db := db.(subjectTeachers := WithoutTeacher(db.subjectTeachers, found.value.id, teacher));
      SyncTeacherAssignedSubjectIds(teacher);
      outcome := Done;
    }

    method UpdateSubjectRegistration(tenant: Id, user: Id, ids: seq<nat>) returns (outcome: Outcome)
      modifies this
      ensures (db, outcome) == AfterUpdateRegistration(old(db), tenant, user, ids)
      ensures old(WellFormed(db)) ==> Kept(old(db), db)
    {
      hide WellFormed, Kept;
      if WellFormed(db) {
        UpdateKeepsAgreement(db, tenant, user, ids);
      }
      if user !in db.students || db.students[user].tenant != tenant || db.students[user].classId.GetOr("") == "" {
        return StudentNotInClass;
      }
      var profile := db.students[user];
      var classId := profile.classId.value;
      if tenant !in db.currentTerm {
        return ActiveTermRequired;
      }
      var term := db.currentTerm[tenant];
      for i := 0 to |db.classSubjects|
        invariant !MissesCompulsory(db.classSubjects[..i], classId, ids)
      {
        var cs := db.classSubjects[i];
        if cs.classId == classId && cs.kind == COMPULSORY && cs.id !in ids {
          return CompulsoryDeregistered;
        }
      }
      assert db.classSubjects[..|db.classSubjects|] == db.classSubjects;
      for i := 0 to |ids|
        invariant forall id :: id in ids[..i] ==> OffersId(db.classSubjects, classId, id)
      {
        if !OffersId(db.classSubjects, classId, ids[i]) {
          return SubjectNotAssigned;
        }
      }
      assert ids[..|ids|] == ids;
      ghost var before := db;
      ghost var kept := WithoutElectives(db.registrations, db.classSubjects, profile.id, term);
      db := db.(registrations := WithoutElectives(db.registrations, db.classSubjects, profile.id, term));
      for i := 0 to |ids|
        invariant db == before.(registrations := WithRegistrations(kept, tenant, profile.id, term, ids[..i]))
      {
        assert ids[..i + 1][..i] == ids[..i];
        var row := Registration(tenant, profile.id, ids[i], term);
        if row !in db.registrations {
          db := db.(registrations := db.registrations + [row]);
        }
      }
      db := SyncStudent(db, user, term);
      outcome := Done;
    }
  }
}
