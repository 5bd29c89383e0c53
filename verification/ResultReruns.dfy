/** Recording the same score again: every derived figure stays as it was, and only positions may move. */
module ResultReruns {
  import opened Basics
  import opened Registrations
  import opened ClassPosition
  import opened SessionResults
  import opened SchoolConfig
  import opened GradeScale
  import opened SubjectScore
  import opened Sorting
  import opened ResultDb

  /** The same tables, but for positions and class sizes in term rows. */
  ghost predicate SameButPositions(a: Db, b: Db) {
    && b == a.(terms := b.terms) && b.terms.Keys == a.terms.Keys
    && forall k :: k in a.terms ==>
         b.terms[k] == a.terms[k].(position := b.terms[k].position, outOf := b.terms[k].outOf)
  }

  /** The cumulative rows are those that recalculating the student's CGPA would write. */
  ghost predicate CgpaSettled(db: Db, student: Id) {
    AfterCgpa(db, student).0 == db
  }

  lemma CgpaSettles(db: Db, student: Id)
    ensures CgpaSettled(AfterCgpa(db, student).0, student)
  {
    hide CumulativeFiguresOf, OfStudent, SessionsOf;
    var once := AfterCgpa(db, student).0;
    if student in db.users {
      var rows := OfStudent(db.regs, student);
      var written := SessionRows(db, student, rows, SessionsOf(rows));
      if once != db {
        var again := SessionRows(once, student, rows, SessionsOf(rows));
        forall k | k in again ensures k in once.cumulative && again[k] == once.cumulative[k] {
          assert k in written;
        }
        assert once.cumulative + again == once.cumulative;
      }
    }
  }

  /** Settled rows stay settled when only positions move. */
  lemma PositionsKeepCgpa(a: Db, b: Db, student: Id)
    requires SameButPositions(a, b) && CgpaSettled(a, student)
    ensures AfterCgpa(b, student) == (b, AfterCgpa(a, student).1)
  {
    hide CumulativeFiguresOf, OfStudent, SessionsOf;
    assert (forall k :: k in b.terms ==> k.0 != student) <==> (forall k :: k in a.terms ==> k.0 != student);
    if student in a.users {
      var rows := OfStudent(a.regs, student);
      assert SessionRows(b, student, rows, SessionsOf(rows)) == SessionRows(a, student, rows, SessionsOf(rows));
    }
  }

  lemma CgpaFrame(db: Db, student: Id)
    ensures AfterCgpa(db, student).0 == db.(cumulative := AfterCgpa(db, student).0.cumulative)
    ensures AfterCgpa(db, student).1 == if student in db.users then Done else UserNotFound
  {}

  /** The second time the term row exists: only its position is written anew. */
  lemma UpsertAgain(db: Db, once: Db, student: Id, term: Id, place: (nat, nat), place': (nat, nat))
    requires student in db.users && OfTerm(db.regs, student, term) != []
    requires once == db.(terms := db.terms[(student, term) := UpsertedTerm(db, student, term, place)],
                         cumulative := once.cumulative)
    ensures UpsertedTerm(once, student, term, place')
         == once.terms[(student, term)].(position := place'.0, outOf := place'.1)
  {
    hide TermFiguresOf, OfTerm, Sort;
  }

  lemma TermAgain(db: Db, student: Id, term: Id)
    ensures var (once, outcome) := AfterTerm(db, student, term);
            && SameButPositions(once, AfterTerm(once, student, term).0)
            && AfterTerm(once, student, term).1 == outcome
            && once.regs == db.regs && once.configs == db.configs
  {
    hide Position, ClassResults, AfterCgpa, UpsertedTerm, OfTerm, CgpaSettled;
    var once := AfterTerm(db, student, term).0;
    if student in db.users && OfTerm(db.regs, student, term) != [] && ProfileOf(db.profiles, student).Some? {
      var classId := ProfileOf(db.profiles, student).value.classId;
      var place := Position(ClassResults(db.profiles, classId, term, db.terms), student);
      var before := db.(terms := db.terms[(student, term) := UpsertedTerm(db, student, term, place)]);
      assert once == AfterCgpa(before, student).0;
      CgpaFrame(before, student);
      CgpaSettles(before, student);
      var place' := Position(ClassResults(db.profiles, classId, term, once.terms), student);
      UpsertAgain(db, once, student, term, place, place');
      var moved := once.(terms := once.terms[(student, term) := UpsertedTerm(once, student, term, place')]);
      assert SameButPositions(once, moved);
      PositionsKeepCgpa(once, moved, student);
      CgpaFrame(once, student);
      assert AfterTerm(once, student, term) == AfterCgpa(moved, student);
    }
  }

  lemma {:induction false} SameKeysSameIndex(a: seq<Registration>, i: nat, r: Registration, student: Id, subject: Id,
      term: Id)
    requires i < |a| && r.student == a[i].student && r.subject == a[i].subject && r.term == a[i].term
    ensures IndexOfSubject(a[i := r], student, subject, term) == IndexOfSubject(a, student, subject, term)
  {
    if i > 0 {
      assert a[i := r][1..] == a[1..][i - 1 := r];
      SameKeysSameIndex(a[1..], i - 1, r, student, subject, term);
    } else {
      assert a[i := r][1..] == a[1..];
    }
  }

  /** The row that a recalculation finds already calculated is written as it was. */
  lemma SubjectAgain(db: Db, i: nat)
    requires i < |db.regs|
    ensures var (once, outcome) := AfterSubject(db, i);
            && |once.regs| == |db.regs|
            && (forall k :: 0 <= k < |db.regs| ==> once.regs[k].(result := db.regs[k].result) == db.regs[k])
            && (forall k :: 0 <= k < |db.regs| && k != i ==> once.regs[k] == db.regs[k])
            && once.configs == db.configs
            && SameButPositions(once, AfterSubject(once, i).0) && AfterSubject(once, i).1 == outcome
  {
    hide AfterTerm, FinalScore, ApplyGradeScale, SameButPositions, CaTotal;
    var r := db.regs[i];
    var config := GetConfig(db.configs, r.tenant);
    if WeightsValid(config) {
      var graded := r.(result := Some(SubjectResultOf(r, config)));
      var db1 := db.(regs := db.regs[i := graded]);
      TermAgain(db1, r.student, r.term);
      var once := AfterTerm(db1, r.student, r.term).0;
      assert SubjectResultOf(graded, config) == SubjectResultOf(r, config);
      assert once.regs[i := graded] == once.regs;
      assert once.(regs := once.regs) == once;
    } else {
      SamePositionsAlways(db);
    }
  }

  lemma SamePositionsAlways(db: Db)
    ensures SameButPositions(db, db)
  {}

  /**
   Recording a score a second time leaves every registration, total, average, GPA and CGPA as the first
   time did, with the same outcome: only positions and class sizes in term rows may be written anew.
   */
  lemma ScoreAgain(db: Db, u: ScoreUpdate)
    ensures var (once, outcome) := AfterScore(db, u);
            SameButPositions(once, AfterScore(once, u).0) && AfterScore(once, u).1 == outcome
  {
    hide AfterSubject, SameButPositions;
    var i := IndexOfSubject(db.regs, u.student, u.subject, u.term);
    if i == -1 {
      SamePositionsAlways(db);
    } else {
      var scored := WithScore(db.regs[i], u.component, u.percentage);
      var db1 := db.(regs := db.regs[i := scored]);
      SubjectAgain(db1, i);
      var once := AfterSubject(db1, i).0;
      SameKeysSameIndex(db.regs, i, once.regs[i], u.student, u.subject, u.term);
      assert db.regs[i := once.regs[i]] == once.regs;
      assert WithScore(once.regs[i], u.component, u.percentage) == once.regs[i];
      assert once.regs[i := once.regs[i]] == once.regs;
    }
  }
}
