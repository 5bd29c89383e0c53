/**
 Classes, subjects and teachers: the relation tables, the id lists kept beside them, and what each
 assignment does to both (src/school-setup/school-setup.service.ts:1352-1631, 1719-1796, 1873-1939).
 */
module SetupDb {
  import opened Basics
  import opened Sorting

  datatype SubjectType = COMPULSORY | ELECTIVE | OPTIONAL

  datatype ClassRow = ClassRow(tenant: Id, subjectIds: seq<Id>)

  datatype ClassSubject = ClassSubject(id: nat, tenant: Id, classId: Id, subject: Id, kind: SubjectType)

  datatype SubjectTeacher = SubjectTeacher(tenant: Id, classSubject: nat, teacher: Id)

  datatype Registration = Registration(tenant: Id, student: Id, classSubject: nat, term: Id)

  datatype StudentProfile = StudentProfile(id: Id, tenant: Id, classId: Option<Id>, registeredSubjectIds: seq<Id>)

  /**
   subjects and teachers map to their tenants, teacherProfiles to assigned_subject_ids, students are
   keyed by user id; inUse holds subjects that timetable, tutorial, lecture or assessment rows refer to.
   */
  datatype Db = Db(
    classes: map<Id, ClassRow>,
    subjects: map<Id, Id>,
    teachers: map<Id, Id>,
    teacherProfiles: map<Id, seq<Id>>,
    students: map<Id, StudentProfile>,
    currentTerm: map<Id, Id>,
    inUse: set<Id>,
    classSubjects: seq<ClassSubject>,
    subjectTeachers: seq<SubjectTeacher>,
    registrations: seq<Registration>,
    nextId: nat)

  datatype Outcome =
    | Done | ClassNotFound | SubjectNotFound | TeacherNotFound | SubjectAlreadyAssigned | SubjectNotAssigned
    | TeacherAlreadyAssigned | StillReferenced | StudentNotInClass | ActiveTermRequired | CompulsoryDeregistered

  // ---------- queries ----------

  function FindClassSubject(rows: seq<ClassSubject>, classId: Id, subject: Id): (r: Option<ClassSubject>)
    ensures r.Some? ==> r.value in rows && r.value.classId == classId && r.value.subject == subject
    ensures r.None? ==> forall cs :: cs in rows ==> cs.classId != classId || cs.subject != subject
  {
    if rows == [] then None
    else if rows[0].classId == classId && rows[0].subject == subject then Some(rows[0])
    else FindClassSubject(rows[1..], classId, subject)
  }

  function FindById(rows: seq<ClassSubject>, id: nat): (r: Option<ClassSubject>)
    ensures r.Some? ==> r.value in rows && r.value.id == id
    ensures r.None? ==> forall cs :: cs in rows ==> cs.id != id
  {
    if rows == [] then None
    else if rows[0].id == id then Some(rows[0])
    else FindById(rows[1..], id)
  }

  predicate Teaching(rows: seq<SubjectTeacher>, classSubject: nat, teacher: Id) {
    exists st :: st in rows && st.classSubject == classSubject && st.teacher == teacher
  }

  predicate ClassIn(db: Db, classId: Id, tenant: Id) {
    classId in db.classes && db.classes[classId].tenant == tenant
  }

  predicate SubjectIn(db: Db, subject: Id, tenant: Id) {
    subject in db.subjects && db.subjects[subject] == tenant
  }

  predicate TeacherIn(db: Db, teacher: Id, tenant: Id) {
    teacher in db.teachers && db.teachers[teacher] == tenant
  }

  /** `[...new Set(xs)]`: first occurrences, in order. */
  function Unique(xs: seq<Id>): (r: seq<Id>)
    ensures Distinct(r) && forall x :: x in r <==> x in xs
  {
    if xs == [] then []
    else
      assert xs == xs[..|xs| - 1] + [xs[|xs| - 1]];
      var r := Unique(xs[..|xs| - 1]);
      if xs[|xs| - 1] in r then r else r + [xs[|xs| - 1]]
  }

  function SubjectsOfClass(rows: seq<ClassSubject>, classId: Id): (r: seq<Id>)
    ensures forall x :: x in r <==> exists cs :: cs in rows && cs.classId == classId && cs.subject == x
  {
    if rows == [] then []
    else
      assert rows == [rows[0]] + rows[1..];
      (if rows[0].classId == classId then [rows[0].subject] else []) + SubjectsOfClass(rows[1..], classId)
  }

  function SubjectsOfTeacher(rows: seq<SubjectTeacher>, classSubjects: seq<ClassSubject>, teacher: Id): seq<Id> {
    if rows == [] then []
    else
      var cs := FindById(classSubjects, rows[0].classSubject);
      (if rows[0].teacher == teacher && cs.Some? then [cs.value.subject] else [])
      + SubjectsOfTeacher(rows[1..], classSubjects, teacher)
  }

  function SubjectsOfStudent(rows: seq<Registration>, classSubjects: seq<ClassSubject>, student: Id,
      term: Id): seq<Id> {
    if rows == [] then []
    else
      var cs := FindById(classSubjects, rows[0].classSubject);
      (if rows[0].student == student && rows[0].term == term && cs.Some? then [cs.value.subject] else [])
      + SubjectsOfStudent(rows[1..], classSubjects, student, term)
  }

  // ---------- the synchronisations ----------

  function SyncClass(db: Db, classId: Id): Db {
    if classId !in db.classes then db
    else db.(classes :=
      db.classes[classId := db.classes[classId].(subjectIds := Unique(SubjectsOfClass(db.classSubjects, classId)))])
  }

  function SyncTeacher(db: Db, teacher: Id): Db {
    if teacher !in db.teacherProfiles then db
    else db.(teacherProfiles :=
      db.teacherProfiles[teacher := Unique(SubjectsOfTeacher(db.subjectTeachers, db.classSubjects, teacher))])
  }

  function SyncTeachers(db: Db, teachers: seq<Id>): Db {
    if teachers == [] then db else SyncTeacher(SyncTeachers(db, teachers[..|teachers| - 1]), teachers[|teachers| - 1])
  }

  function SyncClasses(db: Db, classIds: seq<Id>): Db {
    if classIds == [] then db else SyncClass(SyncClasses(db, classIds[..|classIds| - 1]), classIds[|classIds| - 1])
  }

  // ---------- row changes ----------

  function WithClassSubject(db: Db, tenant: Id, classId: Id, subject: Id, kind: SubjectType): Db {
    db.(classSubjects := db.classSubjects + [ClassSubject(db.nextId, tenant, classId, subject, kind)],
        nextId := db.nextId + 1)
  }

  function WithTeacher(db: Db, tenant: Id, classSubject: nat, teacher: Id): Db {
    db.(subjectTeachers := db.subjectTeachers + [SubjectTeacher(tenant, classSubject, teacher)])
  }

  /** Class-subject rows outside a set of ids. */
  function RowsExcept(rows: seq<ClassSubject>, ids: set<nat>): (r: seq<ClassSubject>)
    ensures forall cs :: cs in r <==> cs in rows && cs.id !in ids
  {
    if rows == [] then []
    else
      assert rows == [rows[0]] + rows[1..];
      (if rows[0].id in ids then [] else [rows[0]]) + RowsExcept(rows[1..], ids)
  }

  function TeachersExcept(rows: seq<SubjectTeacher>, ids: set<nat>): (r: seq<SubjectTeacher>)
    ensures forall st :: st in r <==> st in rows && st.classSubject !in ids
  {
    if rows == [] then []
    else
      assert rows == [rows[0]] + rows[1..];
      (if rows[0].classSubject in ids then [] else [rows[0]]) + TeachersExcept(rows[1..], ids)
  }

  /** Deleting class-subject rows deletes their teacher rows with them. */
  function WithoutClassSubjects(db: Db, ids: set<nat>): Db {
    db.(classSubjects := RowsExcept(db.classSubjects, ids), subjectTeachers := TeachersExcept(db.subjectTeachers, ids))
  }

  /** Registrations restrict the deletion of the class-subject rows they refer to. */
  predicate Referenced(db: Db, ids: set<nat>) {
    exists r :: r in db.registrations && r.classSubject in ids
  }

  // ---------- the operations ----------

  function AfterAssignSubject(db: Db, tenant: Id, classId: Id, subject: Id, kind: SubjectType): (Db, Outcome) {
    if !ClassIn(db, classId, tenant) then (db, ClassNotFound)
    else if !SubjectIn(db, subject, tenant) then (db, SubjectNotFound)
    else if FindClassSubject(db.classSubjects, classId, subject).Some? then (db, SubjectAlreadyAssigned)
    else (SyncClass(WithClassSubject(db, tenant, classId, subject, kind), classId), Done)
  }

  datatype BulkSubject = BulkSubject(subject: Id, kind: SubjectType)

  predicate Assignable(db: Db, tenant: Id, classId: Id, subject: Id) {
    SubjectIn(db, subject, tenant) && FindClassSubject(db.classSubjects, classId, subject).None?
  }

  /** Items that cannot be assigned are skipped, one by one. */
  function WithSubjects(db: Db, tenant: Id, classId: Id, items: seq<BulkSubject>): Db {
    if items == [] then db
    else
      var before := WithSubjects(db, tenant, classId, items[..|items| - 1]);
      var item := items[|items| - 1];
      if Assignable(before, tenant, classId, item.subject)
      then WithClassSubject(before, tenant, classId, item.subject, item.kind)
      else before
  }

  function AfterBulkAssignSubjects(db: Db, tenant: Id, classId: Id, items: seq<BulkSubject>): (Db, Outcome) {
    if !ClassIn(db, classId, tenant) then (db, ClassNotFound)
    else (SyncClass(WithSubjects(db, tenant, classId, items), classId), Done)
  }

  function TeachersOf(rows: seq<SubjectTeacher>, ids: set<nat>): (r: seq<Id>)
    ensures forall t :: t in r <==> exists st :: st in rows && st.classSubject in ids && st.teacher == t
  {
    if rows == [] then []
    else
      assert rows == [rows[0]] + rows[1..];
      (if rows[0].classSubject in ids then [rows[0].teacher] else []) + TeachersOf(rows[1..], ids)
  }

  function AfterRemoveSubject(db: Db, tenant: Id, subject: Id, classId: Id): (Db, Outcome) {
    if !ClassIn(db, classId, tenant) then (db, ClassNotFound)
    else
      match FindClassSubject(db.classSubjects, classId, subject)
      case None => (db, SubjectNotAssigned)
      case Some(cs) =>
        if Referenced(db, {cs.id}) then (db, StillReferenced)
        else
          var teachers := TeachersOf(db.subjectTeachers, {cs.id});
          (SyncTeachers(SyncClass(WithoutClassSubjects(db, {cs.id}), classId), teachers), Done)
  }

  /** Ids of the class-subject rows of a subject, and of those of them in one tenant. */
  function RowsOfSubject(rows: seq<ClassSubject>, subject: Id): set<nat> {
    set cs | cs in rows && cs.subject == subject :: cs.id
  }

  function TenantRowsOfSubject(rows: seq<ClassSubject>, subject: Id, tenant: Id): set<nat> {
    set cs | cs in rows && cs.subject == subject && cs.tenant == tenant :: cs.id
  }

  function ClassesOf(rows: seq<ClassSubject>, ids: set<nat>): (r: seq<Id>)
    ensures forall c :: c in r <==> exists cs :: cs in rows && cs.id in ids && cs.classId == c
  {
    if rows == [] then []
    else
      assert rows == [rows[0]] + rows[1..];
      (if rows[0].id in ids then [rows[0].classId] else []) + ClassesOf(rows[1..], ids)
  }

  function AfterDeleteSubject(db: Db, tenant: Id, subject: Id): (Db, Outcome) {
    if !SubjectIn(db, subject, tenant) then (db, SubjectNotFound)
    else
      var ids := RowsOfSubject(db.classSubjects, subject);
      if subject in db.inUse || Referenced(db, ids) then (db, StillReferenced)
      else
        var listed := TenantRowsOfSubject(db.classSubjects, subject, tenant);
        var classIds := Unique(ClassesOf(db.classSubjects, listed));
        var teachers := Unique(TeachersOf(db.subjectTeachers, listed));
        var deleted := WithoutClassSubjects(db.(subjects := db.subjects - {subject}), ids);
        (SyncTeachers(SyncClasses(deleted, classIds), teachers), Done)
  }

  /** The class is looked up by its ids alone; only the teacher is checked against the tenant. */
  function AfterAssignTeacher(db: Db, tenant: Id, teacher: Id, classId: Id, subject: Id): (Db, Outcome) {
    match FindClassSubject(db.classSubjects, classId, subject)
    case None => (db, SubjectNotAssigned)
    case Some(cs) =>
      if !TeacherIn(db, teacher, tenant) then (db, TeacherNotFound)
      else if Teaching(db.subjectTeachers, cs.id, teacher) then (db, TeacherAlreadyAssigned)
      else (SyncTeacher(WithTeacher(db, tenant, cs.id, teacher), teacher), Done)
  }

  /** The bulk form checks nobody against the tenant and syncs after each row. */
  function WithTeachers(db: Db, tenant: Id, classSubject: nat, teachers: seq<Id>): Db {
    if teachers == [] then db
    else
      var before := WithTeachers(db, tenant, classSubject, teachers[..|teachers| - 1]);
      var teacher := teachers[|teachers| - 1];
      if Teaching(before.subjectTeachers, classSubject, teacher) then before
      else SyncTeacher(WithTeacher(before, tenant, classSubject, teacher), teacher)
  }

  function AfterBulkAssignTeachers(db: Db, tenant: Id, teachers: seq<Id>, classId: Id, subject: Id): (Db, Outcome) {
    match FindClassSubject(db.classSubjects, classId, subject)
    case None => (db, SubjectNotAssigned)
    case Some(cs) => (WithTeachers(db, tenant, cs.id, teachers), Done)
  }

  function WithoutTeacher(rows: seq<SubjectTeacher>, classSubject: nat, teacher: Id): (r: seq<SubjectTeacher>)
    ensures forall st :: st in r ==> st in rows
  {
    if rows == [] then []
    else if rows[0].classSubject == classSubject && rows[0].teacher == teacher then rows[1..]
    else [rows[0]] + WithoutTeacher(rows[1..], classSubject, teacher)
  }

  function AfterRemoveTeacher(db: Db, tenant: Id, teacher: Id, classId: Id, subject: Id): (Db, Outcome) {
    if !ClassIn(db, classId, tenant) then (db, ClassNotFound)
    else if !SubjectIn(db, subject, tenant) then (db, SubjectNotFound)
    else if !TeacherIn(db, teacher, tenant) then (db, TeacherNotFound)
    else
      match FindClassSubject(db.classSubjects, classId, subject)
      case None => (db, SubjectNotAssigned)
      case Some(cs) =>
        if !Teaching(db.subjectTeachers, cs.id, teacher) then (db, SubjectNotAssigned)
        else
          var rows := WithoutTeacher(db.subjectTeachers, cs.id, teacher);
          (SyncTeacher(db.(subjectTeachers := rows), teacher), Done)
  }
}
