/**
 The id lists agree with the relation tables: every assignment step keeps the agreement of every
 class and every teacher, and establishes it for those it synchronises.
 */
module SetupAgreement {
  import opened Basics
  import opened Sorting
  import opened SetupDb

  ghost predicate Offers(rows: seq<ClassSubject>, classId: Id, subject: Id) {
    exists cs :: cs in rows && cs.classId == classId && cs.subject == subject
  }

  ghost predicate TeachesRow(st: SubjectTeacher, cs: ClassSubject, teacher: Id, subject: Id) {
    st.teacher == teacher && st.classSubject == cs.id && cs.subject == subject
  }

  ghost predicate Teaches(teachers: seq<SubjectTeacher>, rows: seq<ClassSubject>, teacher: Id, subject: Id) {
    exists st, cs :: st in teachers && cs in rows && TeachesRow(st, cs, teacher, subject)
  }

  /** classes.subject_ids lists exactly the subjects offered in the class, each once. */
  ghost predicate ClassAgrees(db: Db, classId: Id) {
    classId in db.classes ==>
      var ids := db.classes[classId].subjectIds;
      Distinct(ids) && forall x :: x in ids <==> Offers(db.classSubjects, classId, x)
  }

  /** teacher_profiles.assigned_subject_ids lists exactly the subjects the teacher teaches, each once. */
  ghost predicate TeacherAgrees(db: Db, teacher: Id) {
    teacher in db.teacherProfiles ==>
      var ids := db.teacherProfiles[teacher];
      Distinct(ids) && forall x :: x in ids <==> Teaches(db.subjectTeachers, db.classSubjects, teacher, x)
  }

  // ---------- what the relation tables keep ----------

  ghost predicate UniqueRows(rows: seq<ClassSubject>) {
    forall i, j :: 0 <= i < j < |rows| ==>
      rows[i].id != rows[j].id && (rows[i].classId != rows[j].classId || rows[i].subject != rows[j].subject)
  }

  ghost predicate UniqueTeachers(rows: seq<SubjectTeacher>) {
    forall i, j :: 0 <= i < j < |rows| ==>
      rows[i].classSubject != rows[j].classSubject || rows[i].teacher != rows[j].teacher
  }

  ghost predicate HasRow(rows: seq<ClassSubject>, id: nat) {
    exists cs :: cs in rows && cs.id == id
  }

  /** (class, subject) and (class-subject, teacher) pairs are unique, and foreign keys resolve. */
  ghost predicate WellFormed(db: Db) {
    && UniqueRows(db.classSubjects) && UniqueTeachers(db.subjectTeachers)
    && (forall cs :: cs in db.classSubjects ==>
        cs.id < db.nextId && cs.classId in db.classes && SubjectIn(db, cs.subject, cs.tenant))
    && (forall st :: st in db.subjectTeachers ==> HasRow(db.classSubjects, st.classSubject))
  }

  /** A step keeps the tables well-formed and every agreement that held. */
  ghost predicate Kept(db: Db, after: Db) {
    && WellFormed(after)
    && (forall c :: ClassAgrees(db, c) ==> ClassAgrees(after, c))
    && (forall t :: TeacherAgrees(db, t) ==> TeacherAgrees(after, t))
  }

  // ---------- synchronising ----------

  lemma {:induction false} SubjectsOfTeacherExact(teachers: seq<SubjectTeacher>, rows: seq<ClassSubject>, teacher: Id,
      x: Id)
    requires UniqueRows(rows)
    ensures x in SubjectsOfTeacher(teachers, rows, teacher) <==> Teaches(teachers, rows, teacher, x)
  {
    if teachers != [] {
      SubjectsOfTeacherExact(teachers[1..], rows, teacher, x);
      assert teachers == [teachers[0]] + teachers[1..];
      var st := teachers[0];
      var found := FindById(rows, st.classSubject);
      if found.Some? {
        forall cs | cs in rows && cs.id == st.classSubject ensures cs == found.value {
          var i :| 0 <= i < |rows| && rows[i] == cs;
          var j :| 0 <= j < |rows| && rows[j] == found.value;
          assert i < j || j < i || i == j;
        }
      }
      if Teaches(teachers, rows, teacher, x) && !Teaches(teachers[1..], rows, teacher, x) {
        var s, cs :| s in teachers && cs in rows && TeachesRow(s, cs, teacher, x);
        assert s == st;
      }
      if found.Some? && st.teacher == teacher && found.value.subject == x {
        assert TeachesRow(st, found.value, teacher, x);
      }
    }
  }

  ghost predicate SameRelations(a: Db, b: Db) {
    b == a.(classes := b.classes, teacherProfiles := b.teacherProfiles) && b.classes.Keys == a.classes.Keys
  }

  lemma {:induction false} SyncClassesAgree(db: Db, classIds: seq<Id>)
    ensures var after := SyncClasses(db, classIds);
            && SameRelations(db, after) && after.teacherProfiles == db.teacherProfiles
            && (forall c :: c in classIds ==> ClassAgrees(after, c))
            && (forall c :: c in db.classes && c !in classIds ==> after.classes[c] == db.classes[c])
  {
    if classIds != [] {
      var rest, last := classIds[..|classIds| - 1], classIds[|classIds| - 1];
      assert classIds == rest + [last];
      SyncClassesAgree(db, rest);
      var before, after := SyncClasses(db, rest), SyncClasses(db, classIds);
      forall c | c in classIds ensures ClassAgrees(after, c) {
        if c != last {
          assert ClassAgrees(before, c);
        }
      }
    }
  }

  lemma {:induction false} SyncTeachersAgree(db: Db, teachers: seq<Id>)
    requires UniqueRows(db.classSubjects)
    ensures var after := SyncTeachers(db, teachers);
            && SameRelations(db, after) && after.classes == db.classes
            && (forall t :: t in teachers ==> TeacherAgrees(after, t))
            && after.teacherProfiles.Keys == db.teacherProfiles.Keys
            && (forall t :: t in db.teacherProfiles && t !in teachers ==>
              after.teacherProfiles[t] == db.teacherProfiles[t])
  {
    if teachers != [] {
      var rest, last := teachers[..|teachers| - 1], teachers[|teachers| - 1];
      assert teachers == rest + [last];
      SyncTeachersAgree(db, rest);
      var before, after := SyncTeachers(db, rest), SyncTeachers(db, teachers);
      forall x ensures x in SubjectsOfTeacher(before.subjectTeachers, before.classSubjects, last)
                       <==> Teaches(before.subjectTeachers, before.classSubjects, last, x) {
        SubjectsOfTeacherExact(before.subjectTeachers, before.classSubjects, last, x);
      }
      forall t | t in teachers ensures TeacherAgrees(after, t) {
        if t != last {
          assert TeacherAgrees(before, t);
        }
      }
    }
  }

  /** The relation tables changed only for these classes and these teachers. */
  ghost predicate ChangedOnly(db: Db, changed: Db, classIds: seq<Id>, teachers: seq<Id>) {
    && changed.classes == db.classes && changed.teacherProfiles == db.teacherProfiles
    && (forall c, x :: c !in classIds ==> (Offers(changed.classSubjects, c, x) <==> Offers(db.classSubjects, c, x)))
    && (forall t, x :: t !in teachers ==>
        (Teaches(changed.subjectTeachers, changed.classSubjects, t, x) <==>
          Teaches(db.subjectTeachers, db.classSubjects, t, x)))
  }

  /** Synchronising everything that a change touched restores every agreement, and adds the touched ones. */
  lemma SyncingWhatChanged(db: Db, changed: Db, classIds: seq<Id>, teachers: seq<Id>)
    requires ChangedOnly(db, changed, classIds, teachers) && WellFormed(changed)
    ensures var after := SyncTeachers(SyncClasses(changed, classIds), teachers);
            && Kept(db, after)
            && (forall c :: c in classIds ==> ClassAgrees(after, c))
            && (forall t :: t in teachers ==> TeacherAgrees(after, t))
  {
    SyncClassesAgree(changed, classIds);
    var mid := SyncClasses(changed, classIds);
    SyncTeachersAgree(mid, teachers);
    var after := SyncTeachers(mid, teachers);
    WellFormedKept(changed, after);
    forall c | c in classIds || ClassAgrees(db, c) ensures ClassAgrees(after, c) {
      if c in classIds {
        assert ClassAgrees(mid, c);
      }
    }
  }

  lemma WellFormedKept(db: Db, after: Db)
    requires WellFormed(db) && SameRelations(db, after)
    ensures WellFormed(after)
  {}

  // ---------- row changes ----------

  lemma AddingClassSubject(db: Db, tenant: Id, classId: Id, subject: Id, kind: SubjectType)
    requires WellFormed(db) && ClassIn(db, classId, tenant) && Assignable(db, tenant, classId, subject)
    ensures var after := WithClassSubject(db, tenant, classId, subject, kind);
            WellFormed(after) && ChangedOnly(db, after, [classId], []) && Offers(after.classSubjects, classId, subject)
  {
    var after := WithClassSubject(db, tenant, classId, subject, kind);
    var row := ClassSubject(db.nextId, tenant, classId, subject, kind);
    assert row in after.classSubjects;
    assert forall cs :: cs in after.classSubjects <==> cs in db.classSubjects || cs == row;
    AddedRowUnique(db.classSubjects, row, db.nextId);
    forall st | st in after.subjectTeachers ensures HasRow(after.classSubjects, st.classSubject) {
      assert HasRow(db.classSubjects, st.classSubject);
      var cs :| cs in db.classSubjects && cs.id == st.classSubject;
      assert cs in after.classSubjects;
    }
    forall c, x | c != classId ensures Offers(after.classSubjects, c, x) <==> Offers(db.classSubjects, c, x) {}
    forall t, x ensures Teaches(after.subjectTeachers, after.classSubjects, t, x)
                        <==> Teaches(db.subjectTeachers, db.classSubjects, t, x) {
      NewRowUntaught(db, row, t, x);
    }
  }

  lemma AddedRowUnique(rows: seq<ClassSubject>, row: ClassSubject, nextId: nat)
    requires UniqueRows(rows) && row.id == nextId
    requires forall cs :: cs in rows ==> cs.id < nextId && (cs.classId != row.classId || cs.subject != row.subject)
    ensures UniqueRows(rows + [row])
  {
    var all := rows + [row];
    forall i, j | 0 <= i < j < |all|
      ensures all[i].id != all[j].id && (all[i].classId != all[j].classId || all[i].subject != all[j].subject)
    {
      if j == |rows| {
        assert all[i] in rows;
      }
    }
  }

  /** Nobody can teach a class-subject row before it exists. */
  lemma NewRowUntaught(db: Db, row: ClassSubject, t: Id, x: Id)
    requires WellFormed(db) && row.id == db.nextId
    ensures Teaches(db.subjectTeachers, db.classSubjects + [row], t, x) <==>
      Teaches(db.subjectTeachers, db.classSubjects, t, x)
  {
    if Teaches(db.subjectTeachers, db.classSubjects + [row], t, x) {
      var st, cs :| st in db.subjectTeachers && cs in db.classSubjects + [row] && TeachesRow(st, cs, t, x);
      assert HasRow(db.classSubjects, st.classSubject);
      assert cs in db.classSubjects;
    }
    if Teaches(db.subjectTeachers, db.classSubjects, t, x) {
      var st, cs :| st in db.subjectTeachers && cs in db.classSubjects && TeachesRow(st, cs, t, x);
      assert cs in db.classSubjects + [row];
    }
  }

  lemma AddingTeacher(db: Db, tenant: Id, cs: ClassSubject, teacher: Id)
    requires WellFormed(db) && cs in db.classSubjects && !Teaching(db.subjectTeachers, cs.id, teacher)
    ensures var after := WithTeacher(db, tenant, cs.id, teacher);
            && WellFormed(after) && ChangedOnly(db, after, [], [teacher])
            && Teaches(after.subjectTeachers, after.classSubjects, teacher, cs.subject)
  {
    var after := WithTeacher(db, tenant, cs.id, teacher);
    var row := SubjectTeacher(tenant, cs.id, teacher);
    assert forall st :: st in after.subjectTeachers <==> st in db.subjectTeachers || st == row;
    assert TeachesRow(row, cs, teacher, cs.subject);
    forall i, j | 0 <= i < j < |after.subjectTeachers|
      ensures after.subjectTeachers[i].classSubject != after.subjectTeachers[j].classSubject
              || after.subjectTeachers[i].teacher != after.subjectTeachers[j].teacher
    {
      if j == |db.subjectTeachers| {
        assert after.subjectTeachers[i] in db.subjectTeachers;
      }
    }
    forall st | st in after.subjectTeachers ensures HasRow(after.classSubjects, st.classSubject) {
      assert st != row ==> HasRow(db.classSubjects, st.classSubject);
    }
  }

  lemma {:induction false} RowsExceptUnique(rows: seq<ClassSubject>, ids: set<nat>)
    requires UniqueRows(rows)
    ensures UniqueRows(RowsExcept(rows, ids))
  {
    if rows != [] {
      RowsExceptUnique(rows[1..], ids);
      forall cs | cs in rows[1..]
        ensures cs.id != rows[0].id && (cs.classId != rows[0].classId || cs.subject != rows[0].subject)
      {
        var k :| 0 <= k < |rows[1..]| && rows[1..][k] == cs;
        assert rows[k + 1] == cs;
      }
    }
  }

  lemma {:induction false} TeachersExceptUnique(rows: seq<SubjectTeacher>, ids: set<nat>)
    requires UniqueTeachers(rows)
    ensures UniqueTeachers(TeachersExcept(rows, ids))
  {
    if rows != [] {
      TeachersExceptUnique(rows[1..], ids);
      forall st | st in rows[1..]
        ensures st.classSubject != rows[0].classSubject || st.teacher != rows[0].teacher
      {
        var k :| 0 <= k < |rows[1..]| && rows[1..][k] == st;
        assert rows[k + 1] == st;
      }
    }
  }

  lemma RemovingClassSubjects(db: Db, ids: set<nat>, classIds: seq<Id>, teachers: seq<Id>)
    requires WellFormed(db)
    requires forall cs :: cs in db.classSubjects && cs.id in ids ==> cs.classId in classIds
    requires forall st :: st in db.subjectTeachers && st.classSubject in ids ==> st.teacher in teachers
    ensures WellFormed(WithoutClassSubjects(db, ids))
    ensures ChangedOnly(db, WithoutClassSubjects(db, ids), classIds, teachers)
  {
    var after := WithoutClassSubjects(db, ids);
    RowsExceptUnique(db.classSubjects, ids);
    TeachersExceptUnique(db.subjectTeachers, ids);
    forall st | st in after.subjectTeachers ensures HasRow(after.classSubjects, st.classSubject) {
      assert HasRow(db.classSubjects, st.classSubject);
      var cs :| cs in db.classSubjects && cs.id == st.classSubject;
      assert cs in after.classSubjects;
    }
    forall c, x | c !in classIds ensures Offers(after.classSubjects, c, x) <==> Offers(db.classSubjects, c, x) {
      if Offers(db.classSubjects, c, x) {
        var cs :| cs in db.classSubjects && cs.classId == c && cs.subject == x;
        assert cs in after.classSubjects;
      }
    }
    forall t, x | t !in teachers
      ensures Teaches(after.subjectTeachers, after.classSubjects, t, x) <==>
        Teaches(db.subjectTeachers, db.classSubjects, t, x)
    {
      if Teaches(db.subjectTeachers, db.classSubjects, t, x) {
        var st, cs :| st in db.subjectTeachers && cs in db.classSubjects && TeachesRow(st, cs, t, x);
        assert st in after.subjectTeachers && cs in after.classSubjects;
      }
    }
  }

  predicate Assigns(st: SubjectTeacher, classSubject: nat, teacher: Id) {
    st.classSubject == classSubject && st.teacher == teacher
  }

  /** The first row assigns nothing that a later one assigns. */
  lemma FirstAssignsAlone(rows: seq<SubjectTeacher>)
    requires rows != [] && UniqueTeachers(rows)
    ensures UniqueTeachers(rows[1..])
    ensures forall st :: st in rows[1..] ==> !Assigns(st, rows[0].classSubject, rows[0].teacher)
  {
    forall st | st in rows[1..] ensures !Assigns(st, rows[0].classSubject, rows[0].teacher) {
      var k :| 0 <= k < |rows[1..]| && rows[1..][k] == st;
      assert rows[k + 1] == st;
    }
  }

  lemma UniqueTeachersCons(first: SubjectTeacher, rest: seq<SubjectTeacher>)
    requires UniqueTeachers(rest)
    requires forall st :: st in rest ==> !Assigns(st, first.classSubject, first.teacher)
    ensures UniqueTeachers([first] + rest)
  {
    var all := [first] + rest;
    forall j | 0 < j < |all| ensures !Assigns(all[j], first.classSubject, first.teacher) {
      assert all[j] in rest;
    }
    forall i, j | 0 <= i < j < |all|
      ensures all[i].classSubject != all[j].classSubject || all[i].teacher != all[j].teacher
    {
      if i > 0 {
        assert all[i] == rest[i - 1] && all[j] == rest[j - 1];
      }
    }
  }

  lemma {:induction false} WithoutTeacherExact(rows: seq<SubjectTeacher>, classSubject: nat, teacher: Id)
    requires UniqueTeachers(rows)
    ensures UniqueTeachers(WithoutTeacher(rows, classSubject, teacher))
    ensures forall st :: st in WithoutTeacher(rows, classSubject, teacher) <==>
      st in rows && !Assigns(st, classSubject, teacher)
  {
    if rows != [] {
      var first, rest := rows[0], rows[1..];
      assert rows == [first] + rest;
      FirstAssignsAlone(rows);
      hide UniqueTeachers;
      if !Assigns(first, classSubject, teacher) {
        WithoutTeacherExact(rest, classSubject, teacher);
        UniqueTeachersCons(first, WithoutTeacher(rest, classSubject, teacher));
        assert WithoutTeacher(rows, classSubject, teacher) == [first] + WithoutTeacher(rest, classSubject, teacher);
      }
    }
  }

  lemma RemovingTeacher(db: Db, classSubject: nat, teacher: Id)
    requires WellFormed(db)
    ensures var after := db.(subjectTeachers := WithoutTeacher(db.subjectTeachers, classSubject, teacher));
            WellFormed(after) && ChangedOnly(db, after, [], [teacher])
  {
    WithoutTeacherExact(db.subjectTeachers, classSubject, teacher);
    var after := db.(subjectTeachers := WithoutTeacher(db.subjectTeachers, classSubject, teacher));
    forall t, x | t != teacher
      ensures Teaches(after.subjectTeachers, after.classSubjects, t, x) <==>
        Teaches(db.subjectTeachers, db.classSubjects, t, x)
    {
      if Teaches(db.subjectTeachers, db.classSubjects, t, x) {
        var st, cs :| st in db.subjectTeachers && cs in db.classSubjects && TeachesRow(st, cs, t, x);
        assert st in after.subjectTeachers;
      }
    }
  }
}
