/**
 A student replaces the elective registrations of the current term
 (src/school-setup/school-setup.service.ts:1719-1796).
 */
module RegistrationUpdate {
  import opened Basics
  import opened Sorting
  import opened SetupDb
  import opened SetupAgreement

  predicate IsElective(rows: seq<ClassSubject>, id: nat) {
    var cs := FindById(rows, id);
    cs.Some? && cs.value.kind == ELECTIVE
  }

  predicate OffersId(rows: seq<ClassSubject>, classId: Id, id: nat) {
    exists cs :: cs in rows && cs.classId == classId && cs.id == id
  }

  predicate MissesCompulsory(rows: seq<ClassSubject>, classId: Id, ids: seq<nat>) {
    exists cs :: cs in rows && cs.classId == classId && cs.kind == COMPULSORY && cs.id !in ids
  }

  /** deleteMany: the student's elective registrations of the term, in whatever class. */
  function WithoutElectives(regs: seq<Registration>, rows: seq<ClassSubject>, student: Id,
      term: Id): seq<Registration> {
    if regs == [] then []
    else
      var r, rest := regs[0], WithoutElectives(regs[1..], rows, student, term);
      if r.student == student && r.term == term && IsElective(rows, r.classSubject) then rest else [r] + rest
  }

  /** Upserts: a row that is there stays as it is. */
  function WithRegistrations(regs: seq<Registration>, tenant: Id, student: Id, term: Id,
      ids: seq<nat>): seq<Registration> {
    if ids == [] then regs
    else
      var before := WithRegistrations(regs, tenant, student, term, ids[..|ids| - 1]);
      var row := Registration(tenant, student, ids[|ids| - 1], term);
      if row in before then before else before + [row]
  }

  function SyncStudent(db: Db, user: Id, term: Id): Db
    requires user in db.students
  {
    var profile := db.students[user];
    db.(students := db.students[user :=
      profile.(registeredSubjectIds :=
        Unique(SubjectsOfStudent(db.registrations, db.classSubjects, profile.id, term)))])
  }

  function AfterUpdateRegistration(db: Db, tenant: Id, user: Id, ids: seq<nat>): (Db, Outcome) {
    if user !in db.students || db.students[user].tenant != tenant || db.students[user].classId.GetOr("") == ""
      then (db, StudentNotInClass)
    else if tenant !in db.currentTerm then (db, ActiveTermRequired)
    else
      var profile, term := db.students[user], db.currentTerm[tenant];
      var classId := profile.classId.value;
      if MissesCompulsory(db.classSubjects, classId, ids) then (db, CompulsoryDeregistered)
      else if exists id :: id in ids && !OffersId(db.classSubjects, classId, id) then (db, SubjectNotAssigned)
      else
        var kept := WithoutElectives(db.registrations, db.classSubjects, profile.id, term);
        (SyncStudent(db.(registrations := WithRegistrations(kept, tenant, profile.id, term, ids)), user, term), Done)
  }

  // ---------- what the update achieves ----------

  ghost predicate Registered(regs: seq<Registration>, student: Id, term: Id, id: nat) {
    exists r :: r in regs && r.student == student && r.term == term && r.classSubject == id
  }

  lemma {:induction false} WithoutElectivesExact(regs: seq<Registration>, rows: seq<ClassSubject>, student: Id,
      term: Id)
    ensures forall r :: r in WithoutElectives(regs, rows, student, term) <==>
      r in regs && !(r.student == student && r.term == term && IsElective(rows, r.classSubject))
  {
    if regs != [] {
      WithoutElectivesExact(regs[1..], rows, student, term);
      assert regs == [regs[0]] + regs[1..];
    }
  }

  lemma {:induction false} WithRegistrationsExact(regs: seq<Registration>, tenant: Id, student: Id, term: Id,
      ids: seq<nat>)
    ensures var after := WithRegistrations(regs, tenant, student, term, ids);
            forall r :: r in after <==>
              r in regs || (r.classSubject in ids && r == Registration(tenant, student, r.classSubject, term))
  {
    if ids != [] {
      WithRegistrationsExact(regs, tenant, student, term, ids[..|ids| - 1]);
      assert ids == ids[..|ids| - 1] + [ids[|ids| - 1]];
    }
  }

  predicate CompulsoryIn(cs: ClassSubject, classId: Id) {
    cs.classId == classId && cs.kind == COMPULSORY
  }

  /** A request is accepted exactly when it names all compulsory subjects of the class and nothing outside it. */
  lemma AcceptedIff(db: Db, tenant: Id, user: Id, ids: seq<nat>)
    ensures var (after, outcome) := AfterUpdateRegistration(db, tenant, user, ids);
            && (outcome != Done ==> after == db)
            && (outcome == Done <==>
                && user in db.students && db.students[user].tenant == tenant
                && db.students[user].classId.Some? && db.students[user].classId.value != ""
                && tenant in db.currentTerm
                && var classId := db.students[user].classId.value;
                && (forall cs :: cs in db.classSubjects && CompulsoryIn(cs, classId) ==> cs.id in ids)
                && (forall id :: id in ids ==> OffersId(db.classSubjects, classId, id)))
  {}

  /** The first thing amiss, in the order in which the service looks. */
  lemma RefusedFor(db: Db, tenant: Id, user: Id, ids: seq<nat>)
    ensures var outcome := AfterUpdateRegistration(db, tenant, user, ids).1;
            && (outcome == StudentNotInClass <==>
                !(user in db.students && db.students[user].tenant == tenant
                  && db.students[user].classId.Some? && db.students[user].classId.value != ""))
            && (outcome == ActiveTermRequired <==> outcome != StudentNotInClass && tenant !in db.currentTerm)
            && (outcome == CompulsoryDeregistered <==>
                outcome != StudentNotInClass && outcome != ActiveTermRequired
                && exists cs :: cs in db.classSubjects && CompulsoryIn(cs, db.students[user].classId.value)
                                && cs.id !in ids)
            && (outcome == StudentNotInClass || outcome == ActiveTermRequired || outcome == CompulsoryDeregistered
                || outcome == SubjectNotAssigned || outcome == Done)
  {}

  /**
   On success the student's electives of the term are exactly the requested ones, everything else the
   student had is still there, and everything requested (so every compulsory subject) is registered.
   */
  lemma UpdateReplacesElectives(db: Db, tenant: Id, user: Id, ids: seq<nat>, id: nat)
    requires AfterUpdateRegistration(db, tenant, user, ids).1 == Done
    ensures var after := AfterUpdateRegistration(db, tenant, user, ids).0;
            var student, term := db.students[user].id, db.currentTerm[tenant];
            && (IsElective(db.classSubjects, id) ==>
              (Registered(after.registrations, student, term, id) <==> id in ids))
            && (!IsElective(db.classSubjects, id) ==>
                (Registered(after.registrations, student, term, id) <==>
                  id in ids || Registered(db.registrations, student, term, id)))
            && (forall cs :: cs in db.classSubjects && CompulsoryIn(cs, db.students[user].classId.value) ==>
                Registered(after.registrations, student, term, cs.id))
  {
    var after := AfterUpdateRegistration(db, tenant, user, ids).0;
    var student, term := db.students[user].id, db.currentTerm[tenant];
    var kept := WithoutElectives(db.registrations, db.classSubjects, student, term);
    WithoutElectivesExact(db.registrations, db.classSubjects, student, term);
    WithRegistrationsExact(kept, tenant, student, term, ids);
    forall k | k in ids ensures Registered(after.registrations, student, term, k) {
      assert Registration(tenant, student, k, term) in after.registrations;
    }
    if !IsElective(db.classSubjects, id) && Registered(db.registrations, student, term, id) {
      var r :| r in db.registrations && r.student == student && r.term == term && r.classSubject == id;
      assert r in after.registrations;
    }
  }

  /** Rows of other students and other terms, and all other profiles and tables, are untouched. */
  lemma UpdateLeavesOthers(db: Db, tenant: Id, user: Id, ids: seq<nat>, r: Registration)
    requires AfterUpdateRegistration(db, tenant, user, ids).1 == Done
    requires r.student != db.students[user].id || r.term != db.currentTerm[tenant]
    ensures var after := AfterUpdateRegistration(db, tenant, user, ids).0;
            && (r in after.registrations <==> r in db.registrations)
            && after == db.(registrations := after.registrations, students := after.students)
            && after.students == db.students[user := after.students[user]]
            && after.students[user]
              == db.students[user].(registeredSubjectIds := after.students[user].registeredSubjectIds)
  {
    var student, term := db.students[user].id, db.currentTerm[tenant];
    WithoutElectivesExact(db.registrations, db.classSubjects, student, term);
    WithRegistrationsExact(WithoutElectives(db.registrations, db.classSubjects, student, term), tenant, student, term,
      ids);
  }

  ghost predicate Studies(regs: seq<Registration>, rows: seq<ClassSubject>, student: Id, term: Id, subject: Id) {
    exists cs :: cs in rows && cs.subject == subject && Registered(regs, student, term, cs.id)
  }

  lemma {:induction false} SubjectsOfStudentExact(regs: seq<Registration>, rows: seq<ClassSubject>, student: Id,
      term: Id, x: Id)
    requires UniqueRows(rows)
    ensures x in SubjectsOfStudent(regs, rows, student, term) <==> Studies(regs, rows, student, term, x)
  {
    if regs != [] {
      SubjectsOfStudentExact(regs[1..], rows, student, term, x);
      assert regs == [regs[0]] + regs[1..];
      var r := regs[0];
      var found := FindById(rows, r.classSubject);
      if Studies(regs[1..], rows, student, term, x) {
        var cs :| cs in rows && cs.subject == x && Registered(regs[1..], student, term, cs.id);
        assert Registered(regs, student, term, cs.id);
      }
      if found.Some? && r.student == student && r.term == term && found.value.subject == x {
        assert Registered(regs, student, term, found.value.id);
      }
      if Studies(regs, rows, student, term, x) {
        var cs :| cs in rows && cs.subject == x && Registered(regs, student, term, cs.id);
        var q :| q in regs && q.student == student && q.term == term && q.classSubject == cs.id;
        if q != r {
          assert Registered(regs[1..], student, term, cs.id);
        } else {
          SameIdSameRow(rows, cs, found.value);
        }
      }
    }
  }

  lemma SameIdSameRow(rows: seq<ClassSubject>, a: ClassSubject, b: ClassSubject)
    requires UniqueRows(rows) && a in rows && b in rows && a.id == b.id
    ensures a == b
  {
    var i :| 0 <= i < |rows| && rows[i] == a;
    var j :| 0 <= j < |rows| && rows[j] == b;
    assert i < j || j < i || i == j;
  }

  /** registered_subject_ids lists exactly the subjects registered for the term, each once. */
  lemma UpdateSyncsProfile(db: Db, tenant: Id, user: Id, ids: seq<nat>, x: Id)
    requires UniqueRows(db.classSubjects) && AfterUpdateRegistration(db, tenant, user, ids).1 == Done
    ensures var after := AfterUpdateRegistration(db, tenant, user, ids).0;
            var listed := after.students[user].registeredSubjectIds;
            && Distinct(listed)
            && (x in listed <==>
              Studies(after.registrations, after.classSubjects, db.students[user].id, db.currentTerm[tenant], x))
  {
    var after := AfterUpdateRegistration(db, tenant, user, ids).0;
    SubjectsOfStudentExact(after.registrations, db.classSubjects, db.students[user].id, db.currentTerm[tenant], x);
  }

  /** Sending the same request again is accepted and changes no registration and no listed subject. */
  lemma UpdateIsIdempotent(db: Db, tenant: Id, user: Id, ids: seq<nat>)
    requires UniqueRows(db.classSubjects) && AfterUpdateRegistration(db, tenant, user, ids).1 == Done
    ensures var once := AfterUpdateRegistration(db, tenant, user, ids).0;
            var (twice, outcome) := AfterUpdateRegistration(once, tenant, user, ids);
            && outcome == Done
            && (forall r :: r in twice.registrations <==> r in once.registrations)
            && (forall x :: x in twice.students[user].registeredSubjectIds <==>
              x in once.students[user].registeredSubjectIds)
  {
    hide Unique, SubjectsOfStudent, IsElective, OffersId, MissesCompulsory;
    var once := AfterUpdateRegistration(db, tenant, user, ids).0;
    var student, term := db.students[user].id, db.currentTerm[tenant];
    var twice := AfterUpdateRegistration(once, tenant, user, ids).0;
    WithoutElectivesExact(db.registrations, db.classSubjects, student, term);
    WithRegistrationsExact(WithoutElectives(db.registrations, db.classSubjects, student, term), tenant, student, term,
      ids);
    WithoutElectivesExact(once.registrations, db.classSubjects, student, term);
    WithRegistrationsExact(WithoutElectives(once.registrations, db.classSubjects, student, term), tenant, student,
      term, ids);
    forall x ensures x in twice.students[user].registeredSubjectIds <==> x in once.students[user].registeredSubjectIds {
      UpdateSyncsProfile(db, tenant, user, ids, x);
      UpdateSyncsProfile(once, tenant, user, ids, x);
      SameRegistered(once.registrations, twice.registrations, db.classSubjects, student, term, x);
    }
  }

  lemma SameRegistered(a: seq<Registration>, b: seq<Registration>, rows: seq<ClassSubject>, student: Id, term: Id,
      x: Id)
    requires forall r :: r in a <==> r in b
    ensures Studies(a, rows, student, term, x) <==> Studies(b, rows, student, term, x)
  {
    forall id ensures Registered(a, student, term, id) <==> Registered(b, student, term, id) {}
  }

  /** Registering touches no class, no teacher and no relation between them. */
  lemma UpdateKeepsAgreement(db: Db, tenant: Id, user: Id, ids: seq<nat>)
    requires WellFormed(db)
    ensures Kept(db, AfterUpdateRegistration(db, tenant, user, ids).0)
  {
    var after := AfterUpdateRegistration(db, tenant, user, ids).0;
    assert after == db.(students := after.students, registrations := after.registrations);
    forall c | ClassAgrees(db, c) ensures ClassAgrees(after, c) {}
    forall t | TeacherAgrees(db, t) ensures TeacherAgrees(after, t) {}
  }
}
