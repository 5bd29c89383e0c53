/**
 Registrations and assignments in any order: once a student's list has been synchronised, it stays exact
 for the current term, whatever is assigned, removed, deleted or registered by anyone.
 */
module RegistrationRuns {
  import opened Basics
  import opened Sorting
  import opened SetupDb
  import opened SetupAgreement
  import opened SetupSteps
  import opened RegistrationUpdate

  /** registered_subject_ids lists exactly the subjects registered for the current term, each once. */
  ghost predicate StudentAgrees(db: Db, user: Id) {
    user in db.students && db.students[user].tenant in db.currentTerm ==>
      var profile := db.students[user];
      var term := db.currentTerm[profile.tenant];
      && Distinct(profile.registeredSubjectIds)
      && forall x :: x in profile.registeredSubjectIds <==>
           Studies(db.registrations, db.classSubjects, profile.id, term, x)
  }

  /** Foreign keys and unique keys: registrations name rows that exist, profiles are told apart by their ids. */
  ghost predicate Registers(db: Db) {
    && WellFormed(db)
    && (forall r :: r in db.registrations ==> HasRow(db.classSubjects, r.classSubject))
    && (forall u, v :: u in db.students && v in db.students && db.students[u].id == db.students[v].id ==> u == v)
  }

  // ---------- assignments ----------

  /** The same registrations, and the same rows behind each of them. */
  ghost predicate RegisteredKept(db: Db, after: Db) {
    && after.registrations == db.registrations && after.students == db.students && after.currentTerm == db.currentTerm
    && forall r, cs: ClassSubject :: r in db.registrations && cs.id == r.classSubject ==>
         (cs in after.classSubjects <==> cs in db.classSubjects)
  }

  lemma KeptTransitively(a: Db, b: Db, c: Db)
    requires RegisteredKept(a, b) && RegisteredKept(b, c)
    ensures RegisteredKept(a, c)
  {}

  /** Only the lists are written anew. */
  ghost predicate OnlyLists(db: Db, after: Db) {
    after == db.(classes := after.classes, teacherProfiles := after.teacherProfiles)
  }

  lemma {:induction false} SyncTeachersOnlyLists(db: Db, teachers: seq<Id>)
    ensures OnlyLists(db, SyncTeachers(db, teachers))
  {
    if teachers != [] {
      SyncTeachersOnlyLists(db, teachers[..|teachers| - 1]);
    }
  }

  lemma {:induction false} SyncClassesOnlyLists(db: Db, classIds: seq<Id>)
    ensures OnlyLists(db, SyncClasses(db, classIds))
  {
    if classIds != [] {
      SyncClassesOnlyLists(db, classIds[..|classIds| - 1]);
    }
  }

  /** A new row's id is behind no registration. */
  lemma NewRowUnregistered(db: Db, tenant: Id, classId: Id, subject: Id, kind: SubjectType)
    requires WellFormed(db) && forall r :: r in db.registrations ==> HasRow(db.classSubjects, r.classSubject)
    ensures RegisteredKept(db, WithClassSubject(db, tenant, classId, subject, kind))
  {
    forall r | r in db.registrations ensures r.classSubject < db.nextId {
      assert HasRow(db.classSubjects, r.classSubject);
    }
  }

  lemma {:induction false} BulkRowsUnregistered(db: Db, tenant: Id, classId: Id, items: seq<BulkSubject>)
    requires Registers(db) && ClassIn(db, classId, tenant)
    ensures RegisteredKept(db, WithSubjects(db, tenant, classId, items))
    ensures WellFormed(WithSubjects(db, tenant, classId, items))
  {
    hide WellFormed;
    BulkRows(db, tenant, classId, items);
    if items != [] {
      var rest, item := items[..|items| - 1], items[|items| - 1];
      BulkRowsUnregistered(db, tenant, classId, rest);
      var before := WithSubjects(db, tenant, classId, rest);
      KeptResolves(db, before);
      NewRowUnregistered(before, tenant, classId, item.subject, item.kind);
    }
  }

  lemma KeptResolves(db: Db, after: Db)
    requires Registers(db) && RegisteredKept(db, after)
    ensures forall r :: r in after.registrations ==> HasRow(after.classSubjects, r.classSubject)
  {
    forall r | r in after.registrations ensures HasRow(after.classSubjects, r.classSubject) {
      assert HasRow(db.classSubjects, r.classSubject);
      var cs :| cs in db.classSubjects && cs.id == r.classSubject;
      assert cs in after.classSubjects;
    }
  }

  lemma {:induction false} WithTeachersKeepsRows(db: Db, tenant: Id, classSubject: nat, teachers: seq<Id>)
    ensures var after := WithTeachers(db, tenant, classSubject, teachers);
            after == db.(subjectTeachers := after.subjectTeachers, teacherProfiles := after.teacherProfiles)
  {
    if teachers != [] {
      WithTeachersKeepsRows(db, tenant, classSubject, teachers[..|teachers| - 1]);
    }
  }

  lemma SubjectStepsKeepRegistered(db: Db, step: Step)
    requires Registers(db) && (step.AssignSubject? || step.BulkAssignSubjects?)
    ensures RegisteredKept(db, After(db, step))
  {
    hide Registers, WellFormed;
    if step.AssignSubject? {
      RegistersWellFormed(db);
      NewRowUnregistered(db, step.tenant, step.classId, step.subject, step.kind);
    } else if ClassIn(db, step.classId, step.tenant) {
      BulkRowsUnregistered(db, step.tenant, step.classId, step.items);
    }
  }

  lemma RegistersWellFormed(db: Db)
    requires Registers(db)
    ensures WellFormed(db)
    ensures forall r :: r in db.registrations ==> HasRow(db.classSubjects, r.classSubject)
  {}

  /** Deleting rows behind no registration, and writing lists anew, keeps what is registered. */
  lemma DeletingUnregistered(db: Db, ids: set<nat>, after: Db)
    requires !Referenced(db, ids)
    requires after.classSubjects == RowsExcept(db.classSubjects, ids)
    requires after.registrations == db.registrations && after.students == db.students
    requires after.currentTerm == db.currentTerm
    ensures RegisteredKept(db, after)
  {}

  /** Rows behind registrations cannot be deleted. */
  lemma RemovalKeepsRegistered(db: Db, tenant: Id, subject: Id, classId: Id)
    ensures RegisteredKept(db, AfterRemoveSubject(db, tenant, subject, classId).0)
  {
    hide SyncTeachers, RegisteredKept, RowsExcept, TeachersExcept, TeachersOf, Unique, SubjectsOfClass, Referenced;
    var (after, outcome) := AfterRemoveSubject(db, tenant, subject, classId);
    if outcome == Done {
      var ids := {FindClassSubject(db.classSubjects, classId, subject).value.id};
      var changed := SyncClass(WithoutClassSubjects(db, ids), classId);
      SyncTeachersOnlyLists(changed, TeachersOf(db.subjectTeachers, ids));
      DeletingUnregistered(db, ids, after);
    } else {
      NothingRegistered(db);
    }
  }

  lemma NothingRegistered(db: Db)
    ensures RegisteredKept(db, db)
  {}

  lemma DeletionKeepsRegistered(db: Db, tenant: Id, subject: Id)
    ensures RegisteredKept(db, AfterDeleteSubject(db, tenant, subject).0)
  {
    hide SyncTeachers, SyncClasses, RegisteredKept, RowsExcept, TeachersExcept, TeachersOf, ClassesOf, Unique,
      Referenced;
    var (after, outcome) := AfterDeleteSubject(db, tenant, subject);
    if outcome == Done {
      var ids := RowsOfSubject(db.classSubjects, subject);
      var listed := TenantRowsOfSubject(db.classSubjects, subject, tenant);
      var deleted := WithoutClassSubjects(db.(subjects := db.subjects - {subject}), ids);
      var classIds := Unique(ClassesOf(db.classSubjects, listed));
      SyncClassesOnlyLists(deleted, classIds);
      SyncTeachersOnlyLists(SyncClasses(deleted, classIds), Unique(TeachersOf(db.subjectTeachers, listed)));
      DeletingUnregistered(db, ids, after);
    } else {
      NothingRegistered(db);
    }
  }

  /** Who teaches what touches no row behind a registration. */
  ghost predicate OnlyTeachers(db: Db, after: Db) {
    after == db.(subjectTeachers := after.subjectTeachers, teacherProfiles := after.teacherProfiles)
  }

  lemma TeacherAssignmentOnly(db: Db, tenant: Id, teacher: Id, classId: Id, subject: Id)
    ensures OnlyTeachers(db, AfterAssignTeacher(db, tenant, teacher, classId, subject).0)
  {
    hide Unique, SubjectsOfTeacher, Teaching, FindClassSubject;
  }

  lemma TeacherRemovalOnly(db: Db, tenant: Id, teacher: Id, classId: Id, subject: Id)
    ensures OnlyTeachers(db, AfterRemoveTeacher(db, tenant, teacher, classId, subject).0)
  {
    hide Unique, SubjectsOfTeacher, Teaching, FindClassSubject, WithoutTeacher;
  }

  lemma TeacherStepsKeepRegistered(db: Db, step: Step)
    requires step.AssignTeacher? || step.BulkAssignTeachers? || step.RemoveTeacher?
    ensures RegisteredKept(db, After(db, step))
  {
    hide AfterAssignTeacher, AfterRemoveTeacher, FindClassSubject, WithTeachers;
    if step.AssignTeacher? {
      TeacherAssignmentOnly(db, step.tenant, step.teacher, step.classId, step.subject);
    } else if step.RemoveTeacher? {
      TeacherRemovalOnly(db, step.tenant, step.teacher, step.classId, step.subject);
    } else {
      var found := FindClassSubject(db.classSubjects, step.classId, step.subject);
      if found.Some? {
        WithTeachersKeepsRows(db, step.tenant, found.value.id, step.teachers);
      }
    }
  }

  lemma AssignmentKeepsRegistered(db: Db, step: Step)
    requires Registers(db)
    ensures RegisteredKept(db, After(db, step))
  {
    hide Registers, RegisteredKept, AfterAssignSubject, AfterBulkAssignSubjects, AfterRemoveSubject, AfterDeleteSubject,
      AfterAssignTeacher, AfterBulkAssignTeachers, AfterRemoveTeacher;
    if step.AssignSubject? || step.BulkAssignSubjects? {
      SubjectStepsKeepRegistered(db, step);
    } else if step.RemoveSubject? {
      RemovalKeepsRegistered(db, step.tenant, step.subject, step.classId);
    } else if step.DeleteSubject? {
      DeletionKeepsRegistered(db, step.tenant, step.subject);
    } else {
      TeacherStepsKeepRegistered(db, step);
    }
  }

  /** The subjects behind a student's registrations stay the same. */
  lemma KeptStudies(db: Db, after: Db, student: Id, term: Id, x: Id)
    requires RegisteredKept(db, after)
    ensures Studies(after.registrations, after.classSubjects, student, term, x)
       <==> Studies(db.registrations, db.classSubjects, student, term, x)
  {
    forall cs: ClassSubject | Registered(db.registrations, student, term, cs.id)
      ensures cs in after.classSubjects <==> cs in db.classSubjects
    {
      var r :| r in db.registrations && r.student == student && r.term == term && r.classSubject == cs.id;
    }
  }

  lemma AssignmentKeeps(db: Db, step: Step)
    requires Registers(db)
    ensures Registers(After(db, step)) && Kept(db, After(db, step))
    ensures forall u :: StudentAgrees(db, u) ==> StudentAgrees(After(db, step), u)
  {
    hide After, WellFormed, Kept, Studies;
    var after := After(db, step);
    RegistersWellFormed(db);
    StepKeeps(db, step);
    KeptWellFormed(db, after);
    AssignmentKeepsRegistered(db, step);
    KeptResolves(db, after);
    forall u | StudentAgrees(db, u) ensures StudentAgrees(after, u) {
      if u in db.students && db.students[u].tenant in db.currentTerm {
        var profile := db.students[u];
        forall x ensures x in profile.registeredSubjectIds <==>
          Studies(after.registrations, after.classSubjects, profile.id, db.currentTerm[profile.tenant], x)
        {
          KeptStudies(db, after, profile.id, db.currentTerm[profile.tenant], x);
        }
      }
    }
  }

  lemma KeptWellFormed(db: Db, after: Db)
    requires Kept(db, after)
    ensures WellFormed(after)
  {}

  // ---------- registrations ----------

  /** A successful request registers rows that exist, and nothing else is registered that was not before. */
  lemma UpdateResolves(db: Db, tenant: Id, user: Id, ids: seq<nat>)
    requires Registers(db) && AfterUpdateRegistration(db, tenant, user, ids).1 == Done
    ensures Registers(AfterUpdateRegistration(db, tenant, user, ids).0)
  {
    var after := AfterUpdateRegistration(db, tenant, user, ids).0;
    UpdateKeepsAgreement(db, tenant, user, ids);
    KeptWellFormed(db, after);
    hide WellFormed, Kept, Unique, SubjectsOfStudent;
    var student, term := db.students[user].id, db.currentTerm[tenant];
    var kept := WithoutElectives(db.registrations, db.classSubjects, student, term);
    WithoutElectivesExact(db.registrations, db.classSubjects, student, term);
    WithRegistrationsExact(kept, tenant, student, term, ids);
    forall r | r in after.registrations ensures HasRow(after.classSubjects, r.classSubject) {
      if r in db.registrations {
        assert HasRow(db.classSubjects, r.classSubject);
      } else {
        assert OffersId(db.classSubjects, db.students[user].classId.value, r.classSubject);
      }
    }
  }

  /** What others study is not touched by a student's request. */
  lemma OthersStudyOn(db: Db, tenant: Id, user: Id, ids: seq<nat>, other: Id, term: Id, x: Id)
    requires AfterUpdateRegistration(db, tenant, user, ids).1 == Done && other != db.students[user].id
    ensures var after := AfterUpdateRegistration(db, tenant, user, ids).0;
            Studies(after.registrations, after.classSubjects, other, term, x) <==>
            Studies(db.registrations, db.classSubjects, other, term, x)
  {
    hide AfterUpdateRegistration;
    var after := AfterUpdateRegistration(db, tenant, user, ids).0;
    UpdateTables(db, tenant, user, ids);
    forall r: Registration | r.student == other ensures r in after.registrations <==> r in db.registrations {
      UpdateLeavesOthers(db, tenant, user, ids, r);
    }
    forall id
      ensures Registered(after.registrations, other, term, id) <==> Registered(db.registrations, other, term, id)
    {}
  }

  /** A successful request rewrites the student's registrations and list, and no other column of any table. */
  lemma UpdateTables(db: Db, tenant: Id, user: Id, ids: seq<nat>)
    requires AfterUpdateRegistration(db, tenant, user, ids).1 == Done
    ensures var after := AfterUpdateRegistration(db, tenant, user, ids).0;
            && user in db.students && db.students[user].tenant == tenant && tenant in db.currentTerm
            && after == db.(registrations := after.registrations, students := after.students)
            && user in after.students && after.students == db.students[user := after.students[user]]
            && after.students[user]
              == db.students[user].(registeredSubjectIds := after.students[user].registeredSubjectIds)
  {}

  lemma RegistrationKeeps(db: Db, tenant: Id, user: Id, ids: seq<nat>)
    requires Registers(db)
    ensures var (after, outcome) := AfterUpdateRegistration(db, tenant, user, ids);
            && Registers(after) && Kept(db, after)
            && (forall u :: StudentAgrees(db, u) ==> StudentAgrees(after, u))
            && (outcome == Done ==> StudentAgrees(after, user))
  {
    var (after, outcome) := AfterUpdateRegistration(db, tenant, user, ids);
    RegistersWellFormed(db);
    UpdateKeepsAgreement(db, tenant, user, ids);
    AcceptedIff(db, tenant, user, ids);
    hide AfterUpdateRegistration, Kept, Studies;
    if outcome == Done {
      UpdateResolves(db, tenant, user, ids);
      UpdateTables(db, tenant, user, ids);
      assert StudentAgrees(after, user) by {
        UpdatedAgrees(db, tenant, user, ids);
      }
      forall u | StudentAgrees(db, u) && u != user ensures StudentAgrees(after, u) {
        if u in db.students && db.students[u].tenant in db.currentTerm {
          var profile := db.students[u];
          forall x ensures x in profile.registeredSubjectIds <==>
            Studies(after.registrations, after.classSubjects, profile.id, db.currentTerm[profile.tenant], x)
          {
            OthersStudyOn(db, tenant, user, ids, profile.id, db.currentTerm[profile.tenant], x);
          }
        }
      }
    }
  }

  lemma UpdatedAgrees(db: Db, tenant: Id, user: Id, ids: seq<nat>)
    requires Registers(db) && AfterUpdateRegistration(db, tenant, user, ids).1 == Done
    ensures StudentAgrees(AfterUpdateRegistration(db, tenant, user, ids).0, user)
  {
    hide AfterUpdateRegistration, Studies;
    UpdateTables(db, tenant, user, ids);
    var after := AfterUpdateRegistration(db, tenant, user, ids).0;
    var term := db.currentTerm[tenant];
    forall x
      ensures x in after.students[user].registeredSubjectIds <==>
        Studies(after.registrations, after.classSubjects, db.students[user].id, term, x)
    {
      UpdateSyncsProfile(db, tenant, user, ids, x);
    }
    UpdateSyncsProfile(db, tenant, user, ids, "");
  }

  // ---------- runs ----------

  datatype Event =
    | Assigned(step: Step)
    | Updated(tenant: Id, user: Id, ids: seq<nat>)

  function AfterEvent(db: Db, e: Event): Db {
    match e
    case Assigned(step) => After(db, step)
    case Updated(tenant, user, ids) => AfterUpdateRegistration(db, tenant, user, ids).0
  }

  function RunEvents(db: Db, events: seq<Event>): Db
    decreases |events|
  {
    if events == [] then db else RunEvents(AfterEvent(db, events[0]), events[1..])
  }

  /** Over every run all three kinds of list stay exact, once synchronised, and registrations resolve. */
  lemma {:induction false} EventsKeepLists(db: Db, events: seq<Event>)
    requires Registers(db)
    ensures Registers(RunEvents(db, events)) && Kept(db, RunEvents(db, events))
    ensures forall u :: StudentAgrees(db, u) ==> StudentAgrees(RunEvents(db, events), u)
    decreases |events|
  {
    hide Registers, StudentAgrees, After, AfterUpdateRegistration;
    if events == [] {
      RegistersWellFormed(db);
    } else {
      var next := AfterEvent(db, events[0]);
      match events[0] {
        case Assigned(step) => AssignmentKeeps(db, step);
        case Updated(tenant, user, ids) => RegistrationKeeps(db, tenant, user, ids);
      }
      EventsKeepLists(next, events[1..]);
      KeptTransitive(db, next, RunEvents(db, events));
    }
  }
}
