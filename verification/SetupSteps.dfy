/** The assignment operations one by one, and all runs of them. */
module SetupSteps {
  import opened Basics
  import opened SetupDb
  import opened SetupAgreement

  lemma SyncOneClass(db: Db, classId: Id)
    ensures SyncTeachers(SyncClasses(db, [classId]), []) == SyncClass(db, classId)
  {
    assert [classId][..0] == [];
    assert SyncClasses(db, []) == db;
  }

  lemma SyncOneTeacher(db: Db, teacher: Id)
    ensures SyncTeachers(SyncClasses(db, []), [teacher]) == SyncTeacher(db, teacher)
  {
    assert [teacher][..0] == [];
    assert SyncTeachers(db, []) == db;
  }

  lemma KeptTransitive(a: Db, b: Db, c: Db)
    requires Kept(a, b) && Kept(b, c)
    ensures Kept(a, c)
  {}

  lemma ChangedOnlyTransitive(a: Db, b: Db, c: Db, classIds: seq<Id>, teachers: seq<Id>)
    requires ChangedOnly(a, b, classIds, teachers) && ChangedOnly(b, c, classIds, teachers)
    ensures ChangedOnly(a, c, classIds, teachers)
  {
    forall k, x | k !in classIds ensures Offers(c.classSubjects, k, x) <==> Offers(a.classSubjects, k, x) {
      assert Offers(b.classSubjects, k, x) <==> Offers(a.classSubjects, k, x);
    }
    forall t, x | t !in teachers
      ensures Teaches(c.subjectTeachers, c.classSubjects, t, x) <==> Teaches(a.subjectTeachers, a.classSubjects, t, x)
    {
      assert Teaches(b.subjectTeachers, b.classSubjects, t, x) <==> Teaches(a.subjectTeachers, a.classSubjects, t, x);
    }
  }

  // ---------- each operation ----------

  lemma AssignSubjectKeeps(db: Db, tenant: Id, classId: Id, subject: Id, kind: SubjectType)
    requires WellFormed(db)
    ensures var (after, outcome) := AfterAssignSubject(db, tenant, classId, subject, kind);
            && Kept(db, after)
            && (outcome == Done ==> ClassAgrees(after, classId) && Offers(after.classSubjects, classId, subject))
  {
    var (after, outcome) := AfterAssignSubject(db, tenant, classId, subject, kind);
    if outcome == Done {
      var changed := WithClassSubject(db, tenant, classId, subject, kind);
      AddingClassSubject(db, tenant, classId, subject, kind);
      SyncOneClass(changed, classId);
      SyncingWhatChanged(db, changed, [classId], []);
    }
  }

  lemma {:induction false} BulkRows(db: Db, tenant: Id, classId: Id, items: seq<BulkSubject>)
    requires WellFormed(db) && ClassIn(db, classId, tenant)
    ensures var after := WithSubjects(db, tenant, classId, items);
            && WellFormed(after) && ChangedOnly(db, after, [classId], [])
            && after.subjects == db.subjects
            && (forall x :: Offers(db.classSubjects, classId, x) ==> Offers(after.classSubjects, classId, x))
            && (forall item :: item in items && SubjectIn(db, item.subject, tenant) ==>
              Offers(after.classSubjects, classId, item.subject))
  {
    if items != [] {
      var rest, item := items[..|items| - 1], items[|items| - 1];
      assert items == rest + [item];
      BulkRows(db, tenant, classId, rest);
      var before, after := WithSubjects(db, tenant, classId, rest), WithSubjects(db, tenant, classId, items);
      if Assignable(before, tenant, classId, item.subject) {
        AddingClassSubject(before, tenant, classId, item.subject, item.kind);
        ChangedOnlyTransitive(db, before, after, [classId], []);
        forall x | Offers(before.classSubjects, classId, x) ensures Offers(after.classSubjects, classId, x) {
          var cs :| cs in before.classSubjects && cs.classId == classId && cs.subject == x;
          assert cs in after.classSubjects;
        }
      }
    }
  }

  lemma BulkAssignSubjectsKeeps(db: Db, tenant: Id, classId: Id, items: seq<BulkSubject>)
    requires WellFormed(db)
    ensures var (after, outcome) := AfterBulkAssignSubjects(db, tenant, classId, items);
            && Kept(db, after)
            && (outcome == Done ==> ClassAgrees(after, classId))
            && (outcome == Done ==>
                forall item :: item in items && SubjectIn(db, item.subject, tenant) ==>
                  Offers(after.classSubjects, classId, item.subject))
  {
    var (after, outcome) := AfterBulkAssignSubjects(db, tenant, classId, items);
    if outcome == Done {
      var changed := WithSubjects(db, tenant, classId, items);
      BulkRows(db, tenant, classId, items);
      SyncOneClass(changed, classId);
      SyncingWhatChanged(db, changed, [classId], []);
    }
  }

  lemma RemoveSubjectKeeps(db: Db, tenant: Id, subject: Id, classId: Id)
    requires WellFormed(db)
    ensures var (after, outcome) := AfterRemoveSubject(db, tenant, subject, classId);
            && Kept(db, after)
            && (outcome == Done ==> ClassAgrees(after, classId) && !Offers(after.classSubjects, classId, subject))
  {
    var (after, outcome) := AfterRemoveSubject(db, tenant, subject, classId);
    if outcome == Done {
      var cs := FindClassSubject(db.classSubjects, classId, subject).value;
      var teachers := TeachersOf(db.subjectTeachers, {cs.id});
      var changed := WithoutClassSubjects(db, {cs.id});
      forall r | r in db.classSubjects && (r.id == cs.id || (r.classId == classId && r.subject == subject))
        ensures r == cs {
        var i :| 0 <= i < |db.classSubjects| && db.classSubjects[i] == r;
        var j :| 0 <= j < |db.classSubjects| && db.classSubjects[j] == cs;
        assert i < j || j < i || i == j;
      }
      RemovingClassSubjects(db, {cs.id}, [classId], teachers);
      SyncOneClass(changed, classId);
      SyncingWhatChanged(db, changed, [classId], teachers);
      assert SyncTeachers(SyncClasses(changed, [classId]), []) == SyncClasses(changed, [classId]);
      SyncTeachersAgree(SyncClasses(changed, [classId]), teachers);
      SyncClassesAgree(changed, [classId]);
      assert after.classSubjects == changed.classSubjects;
    }
  }

  lemma RowsAreInTheTenant(db: Db, tenant: Id, subject: Id)
    requires WellFormed(db) && SubjectIn(db, subject, tenant)
    ensures TenantRowsOfSubject(db.classSubjects, subject, tenant) == RowsOfSubject(db.classSubjects, subject)
  {}

  lemma DroppingUnusedSubject(db: Db, subject: Id)
    requires WellFormed(db) && forall cs :: cs in db.classSubjects ==> cs.subject != subject
    ensures WellFormed(db.(subjects := db.subjects - {subject}))
  {}

  lemma DeletingSubject(db: Db, subject: Id)
    requires WellFormed(db)
    ensures var ids := RowsOfSubject(db.classSubjects, subject);
            var changed := WithoutClassSubjects(db.(subjects := db.subjects - {subject}), ids);
            && WellFormed(changed)
            && ChangedOnly(db, changed, Unique(ClassesOf(db.classSubjects, ids)),
              Unique(TeachersOf(db.subjectTeachers, ids)))
            && forall cs :: cs in changed.classSubjects ==> cs.subject != subject
  {
    hide WellFormed, Offers, Teaches, RowsExcept, TeachersExcept, ClassesOf, TeachersOf, Unique;
    var ids := RowsOfSubject(db.classSubjects, subject);
    RemovingClassSubjects(db, ids, Unique(ClassesOf(db.classSubjects, ids)),
      Unique(TeachersOf(db.subjectTeachers, ids)));
    var removed := WithoutClassSubjects(db, ids);
    assert forall cs :: cs in removed.classSubjects ==> cs.subject != subject;
    DroppingUnusedSubject(removed, subject);
  }

  lemma DeleteSubjectKeeps(db: Db, tenant: Id, subject: Id)
    requires WellFormed(db)
    ensures var (after, outcome) := AfterDeleteSubject(db, tenant, subject);
            && Kept(db, after)
            && (outcome == Done ==> forall c :: !Offers(after.classSubjects, c, subject))
  {
    var (after, outcome) := AfterDeleteSubject(db, tenant, subject);
    if outcome == Done {
      RowsAreInTheTenant(db, tenant, subject);
      DeletingSubject(db, subject);
      var ids := RowsOfSubject(db.classSubjects, subject);
      var classIds, teachers := Unique(ClassesOf(db.classSubjects, ids)), Unique(TeachersOf(db.subjectTeachers, ids));
      var changed := WithoutClassSubjects(db.(subjects := db.subjects - {subject}), ids);
      SyncingWhatChanged(db, changed, classIds, teachers);
      SyncClassesAgree(changed, classIds);
      SyncTeachersAgree(SyncClasses(changed, classIds), teachers);
      assert after.classSubjects == changed.classSubjects;
    }
  }

  lemma TeacherAdded(db: Db, tenant: Id, cs: ClassSubject, teacher: Id)
    requires WellFormed(db) && cs in db.classSubjects && !Teaching(db.subjectTeachers, cs.id, teacher)
    ensures var after := SyncTeacher(WithTeacher(db, tenant, cs.id, teacher), teacher);
            && Kept(db, after) && TeacherAgrees(after, teacher)
            && after.classSubjects == db.classSubjects
            && Teaches(after.subjectTeachers, after.classSubjects, teacher, cs.subject)
  {
    AddingTeacher(db, tenant, cs, teacher);
    var changed := WithTeacher(db, tenant, cs.id, teacher);
    SyncOneTeacher(changed, teacher);
    SyncingWhatChanged(db, changed, [], [teacher]);
  }

  lemma AssignTeacherKeeps(db: Db, tenant: Id, teacher: Id, classId: Id, subject: Id)
    requires WellFormed(db)
    ensures var (after, outcome) := AfterAssignTeacher(db, tenant, teacher, classId, subject);
            && Kept(db, after)
            && (outcome == Done ==>
              TeacherAgrees(after, teacher) && Teaches(after.subjectTeachers, after.classSubjects, teacher, subject))
  {
    if AfterAssignTeacher(db, tenant, teacher, classId, subject).1 == Done {
      TeacherAdded(db, tenant, FindClassSubject(db.classSubjects, classId, subject).value, teacher);
    }
  }

  lemma {:induction false} BulkTeachersKeep(db: Db, tenant: Id, cs: ClassSubject, teachers: seq<Id>)
    requires WellFormed(db) && cs in db.classSubjects
    ensures var after := WithTeachers(db, tenant, cs.id, teachers);
            && Kept(db, after) && after.classSubjects == db.classSubjects
            && forall t :: t in teachers ==> Teaching(after.subjectTeachers, cs.id, t)
  {
    if teachers != [] {
      var rest, teacher := teachers[..|teachers| - 1], teachers[|teachers| - 1];
      assert teachers == rest + [teacher];
      BulkTeachersKeep(db, tenant, cs, rest);
      var before, after := WithTeachers(db, tenant, cs.id, rest), WithTeachers(db, tenant, cs.id, teachers);
      if !Teaching(before.subjectTeachers, cs.id, teacher) {
        TeacherAdded(before, tenant, cs, teacher);
        KeptTransitive(db, before, after);
        assert after.subjectTeachers == before.subjectTeachers + [SubjectTeacher(tenant, cs.id, teacher)];
        forall t | t in teachers ensures Teaching(after.subjectTeachers, cs.id, t) {
          if t in rest {
            var st :| st in before.subjectTeachers && st.classSubject == cs.id && st.teacher == t;
            assert st in after.subjectTeachers;
          } else {
            assert SubjectTeacher(tenant, cs.id, teacher) in after.subjectTeachers;
          }
        }
      }
    }
  }

  /** The pair's one row is deleted and no other, and the teacher's list holds what the teacher still teaches. */
  lemma RemoveTeacherKeeps(db: Db, tenant: Id, teacher: Id, classId: Id, subject: Id)
    requires WellFormed(db)
    ensures var (after, outcome) := AfterRemoveTeacher(db, tenant, teacher, classId, subject);
            && Kept(db, after)
            && (outcome == ClassNotFound <==> !(classId in db.classes && db.classes[classId].tenant == tenant))
            && (outcome == Done <==>
                && classId in db.classes && db.classes[classId].tenant == tenant
                && subject in db.subjects && db.subjects[subject] == tenant
                && teacher in db.teachers && db.teachers[teacher] == tenant
                && TeachesIn(db, classId, subject, teacher))
            && (outcome != Done ==> after == db)
            && (outcome == Done ==>
                && TeacherAgrees(after, teacher) && after.classSubjects == db.classSubjects
                && exists cs :: cs in db.classSubjects && cs.classId == classId && cs.subject == subject
                     && PairGone(db, after, cs.id, teacher))
            && (outcome == Done && teacher in after.teacherProfiles ==>
                (subject in after.teacherProfiles[teacher] <==>
                 Teaches(after.subjectTeachers, after.classSubjects, teacher, subject)))
            && (outcome == SubjectNotAssigned ==> !TeachesIn(db, classId, subject, teacher))
  {
    hide Unique, SubjectsOfTeacher, WithoutTeacher;
    var outcome := AfterRemoveTeacher(db, tenant, teacher, classId, subject).1;
    var found := FindClassSubject(db.classSubjects, classId, subject);
    if outcome == Done {
      var cs := found.value;
      var changed := db.(subjectTeachers := WithoutTeacher(db.subjectTeachers, cs.id, teacher));
      RemovingTeacher(db, cs.id, teacher);
      WithoutTeacherExact(db.subjectTeachers, cs.id, teacher);
      SyncOneTeacher(changed, teacher);
      SyncingWhatChanged(db, changed, [], [teacher]);
      var after := AfterRemoveTeacher(db, tenant, teacher, classId, subject).0;
      assert after == SyncTeacher(changed, teacher);
      assert PairGone(db, after, cs.id, teacher);
      var st :| st in db.subjectTeachers && st.classSubject == cs.id && st.teacher == teacher;
      assert AssignsPair(cs, st, classId, subject, teacher);
    } else if found.Some? {
      forall cs | cs in db.classSubjects && cs.classId == classId && cs.subject == subject ensures cs == found.value {
        var i :| 0 <= i < |db.classSubjects| && db.classSubjects[i] == cs;
        var j :| 0 <= j < |db.classSubjects| && db.classSubjects[j] == found.value;
        assert i < j || j < i || i == j;
      }
    }
  }

  predicate AssignsPair(cs: ClassSubject, st: SubjectTeacher, classId: Id, subject: Id, teacher: Id) {
    cs.classId == classId && cs.subject == subject && st.classSubject == cs.id && st.teacher == teacher
  }

  /** The teacher teaches the subject in this class. */
  ghost predicate TeachesIn(db: Db, classId: Id, subject: Id, teacher: Id) {
    exists cs, st :: cs in db.classSubjects && st in db.subjectTeachers
      && AssignsPair(cs, st, classId, subject, teacher)
  }

  /** The teacher was assigned to the row and is no more; every other assignment is as it was. */
  ghost predicate PairGone(db: Db, after: Db, classSubject: nat, teacher: Id) {
    && (exists st :: st in db.subjectTeachers && st.classSubject == classSubject && st.teacher == teacher)
    && forall st :: st in after.subjectTeachers <==>
         st in db.subjectTeachers && !(st.classSubject == classSubject && st.teacher == teacher)
  }

  // ---------- runs ----------

  datatype Step =
    | AssignSubject(tenant: Id, classId: Id, subject: Id, kind: SubjectType)
    | BulkAssignSubjects(tenant: Id, classId: Id, items: seq<BulkSubject>)
    | RemoveSubject(tenant: Id, subject: Id, classId: Id)
    | DeleteSubject(tenant: Id, subject: Id)
    | AssignTeacher(tenant: Id, teacher: Id, classId: Id, subject: Id)
    | BulkAssignTeachers(tenant: Id, teachers: seq<Id>, classId: Id, subject: Id)
    | RemoveTeacher(tenant: Id, teacher: Id, classId: Id, subject: Id)

  function After(db: Db, step: Step): Db {
    match step
    case AssignSubject(tenant, classId, subject, kind) => AfterAssignSubject(db, tenant, classId, subject, kind).0
    case BulkAssignSubjects(tenant, classId, items) => AfterBulkAssignSubjects(db, tenant, classId, items).0
    case RemoveSubject(tenant, subject, classId) => AfterRemoveSubject(db, tenant, subject, classId).0
    case DeleteSubject(tenant, subject) => AfterDeleteSubject(db, tenant, subject).0
    case AssignTeacher(tenant, teacher, classId, subject) => AfterAssignTeacher(db, tenant, teacher, classId, subject).0
    case BulkAssignTeachers(tenant, teachers, classId, subject) =>
      AfterBulkAssignTeachers(db, tenant, teachers, classId, subject).0
    case RemoveTeacher(tenant, teacher, classId, subject) => AfterRemoveTeacher(db, tenant, teacher, classId, subject).0
  }

  lemma StepKeeps(db: Db, step: Step)
    requires WellFormed(db)
    ensures Kept(db, After(db, step))
  {
    hide AfterAssignSubject, AfterBulkAssignSubjects, AfterRemoveSubject, AfterDeleteSubject, AfterAssignTeacher,
      AfterRemoveTeacher;
    match step
    case AssignSubject(tenant, classId, subject, kind) => AssignSubjectKeeps(db, tenant, classId, subject, kind);
    case BulkAssignSubjects(tenant, classId, items) => BulkAssignSubjectsKeeps(db, tenant, classId, items);
    case RemoveSubject(tenant, subject, classId) => RemoveSubjectKeeps(db, tenant, subject, classId);
    case DeleteSubject(tenant, subject) => DeleteSubjectKeeps(db, tenant, subject);
    case AssignTeacher(tenant, teacher, classId, subject) => AssignTeacherKeeps(db, tenant, teacher, classId, subject);
    case BulkAssignTeachers(tenant, teachers, classId, subject) =>
      var found := FindClassSubject(db.classSubjects, classId, subject);
      if found.Some? {
        BulkTeachersKeep(db, tenant, found.value, teachers);
      }
    case RemoveTeacher(tenant, teacher, classId, subject) => RemoveTeacherKeeps(db, tenant, teacher, classId, subject);
  }

  function Run(db: Db, steps: seq<Step>): Db
    decreases |steps|
  {
    if steps == [] then db else Run(After(db, steps[0]), steps[1..])
  }

  /**
   Over every run, pairs stay unique and foreign keys resolve; and every class and teacher whose list
   agrees with the tables at some point (every synchronised one does) agrees with them ever after.
   */
  lemma {:induction false} RunKeeps(db: Db, steps: seq<Step>)
    requires WellFormed(db)
    ensures Kept(db, Run(db, steps))
    decreases |steps|
  {
    if steps != [] {
      StepKeeps(db, steps[0]);
      RunKeeps(After(db, steps[0]), steps[1..]);
      KeptTransitive(db, After(db, steps[0]), Run(db, steps));
    }
  }
}
