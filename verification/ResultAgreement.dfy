/**
 The derived rows always agree with a recomputation from the registrations: for every sequence of
 score updates, over any students.
 */
module ResultAgreement {
  import opened Basics
  import opened Sums
  import opened Sorting
  import opened SchoolConfig
  import opened Registrations
  import opened Gpa
  import opened SessionResults
  import opened ClassPosition
  import opened ResultDb

  // ---------- the invariant ----------

  ghost predicate Known(db: Db, student: Id) {
    student in db.users && ProfileOf(db.profiles, student).Some?
  }

  /** A graded registration carries exactly what its own scores give under its school's weights. */
  ghost predicate SubjectAgrees(db: Db, r: Registration) {
    var config := GetConfig(db.configs, r.tenant);
    r.result.Some? ==> WeightsValid(config) && r.result.value == SubjectResultOf(r, config)
  }

  ghost predicate Graded(db: Db, student: Id, term: Id) {
    exists r :: r in db.regs && r.student == student && r.term == term && r.result.Some?
  }

  ghost predicate TermAgrees(db: Db, key: (Id, Id))
    requires key in db.terms
  {
    var rows := OfTerm(db.regs, key.0, key.1);
    rows != [] && db.terms[key].figures == TermFiguresOf(rows)
  }

  ghost predicate CumulativeAgrees(db: Db, key: (Id, Id))
    requires key in db.cumulative
  {
    db.cumulative[key].figures == CumulativeFiguresOf(OfStudent(db.regs, key.0), key.1)
  }

  ghost predicate HasTermResult(db: Db, student: Id) {
    exists k :: k in db.terms && k.0 == student
  }

  ghost predicate SubjectsAgree(db: Db) {
    forall r :: r in db.regs ==> SubjectAgrees(db, r)
  }

  /**
   Term and cumulative rows agree with the registrations, and the rows that exist are exactly those of
   known students: a term result once a registration of that term is graded, a cumulative result
   for every session the student is registered in once there is a term result.
   */
  ghost predicate RowsAgree(db: Db) {
    && (forall k :: k in db.terms ==> TermAgrees(db, k))
    && (forall k :: k in db.cumulative ==> CumulativeAgrees(db, k))
    && (forall k: (Id, Id) :: k in db.terms <==> Known(db, k.0) && Graded(db, k.0, k.1))
    && (forall k: (Id, Id) :: k in db.cumulative <==>
      HasTermResult(db, k.0) && k.1 in SessionsOf(OfStudent(db.regs, k.0)))
  }

  /** All three levels agree with the rows below them. */
  ghost predicate Agrees(db: Db) {
    SubjectsAgree(db) && RowsAgree(db)
  }

  // ---------- what an update of one row changes in the queries ----------

  /** Same registrations in the same order, with the same results; only CA scores may differ. */
  ghost predicate SameButScores(a: seq<Registration>, b: seq<Registration>) {
    |a| == |b| && forall k :: 0 <= k < |a| ==> a[k].(ca := b[k].ca) == b[k]
  }

  ghost predicate SameKeys(a: Registration, b: Registration) {
    a.student == b.student && a.term == b.term && a.session == b.session
  }

  lemma SameButScoresParts(a: seq<Registration>, b: seq<Registration>)
    requires SameButScores(a, b) && a != []
    ensures b != [] && a[0].(ca := b[0].ca) == b[0] && SameButScores(a[1..], b[1..])
  {}

  lemma SameButScoresCons(x: Registration, y: Registration, a: seq<Registration>, b: seq<Registration>)
    requires SameButScores(a, b) && x.(ca := y.ca) == y
    ensures SameButScores([x] + a, [y] + b)
  {}

  lemma {:induction false} SameButScoresOfTerm(a: seq<Registration>, b: seq<Registration>, student: Id, term: Id)
    requires SameButScores(a, b)
    ensures SameButScores(OfTerm(a, student, term), OfTerm(b, student, term))
  {
    if a == [] {
      assert b == [];
    } else {
      SameButScoresParts(a, b);
      hide SameButScores;
      SameButScoresOfTerm(a[1..], b[1..], student, term);
      SameButScoresCons(a[0], b[0], OfTerm(a[1..], student, term), OfTerm(b[1..], student, term));
    }
  }

  lemma {:induction false} SameButScoresOfStudent(a: seq<Registration>, b: seq<Registration>, student: Id)
    requires SameButScores(a, b)
    ensures SameButScores(OfStudent(a, student), OfStudent(b, student))
  {
    if a == [] {
      assert b == [];
    } else {
      SameButScoresParts(a, b);
      hide SameButScores;
      SameButScoresOfStudent(a[1..], b[1..], student);
      SameButScoresCons(a[0], b[0], OfStudent(a[1..], student), OfStudent(b[1..], student));
    }
  }

  lemma {:induction false} SameButScoresOfSession(a: seq<Registration>, b: seq<Registration>, session: Id)
    requires SameButScores(a, b)
    ensures SameButScores(OfSession(a, session), OfSession(b, session))
  {
    if a == [] {
      assert b == [];
    } else {
      SameButScoresParts(a, b);
      hide SameButScores;
      SameButScoresOfSession(a[1..], b[1..], session);
      SameButScoresCons(a[0], b[0], OfSession(a[1..], session), OfSession(b[1..], session));
    }
  }

  lemma {:induction false} SumByCongruent(f: Registration -> real, a: seq<Registration>, b: seq<Registration>)
    requires |a| == |b| && forall k :: 0 <= k < |a| ==> f(a[k]) == f(b[k])
    ensures SumBy(f, a) == SumBy(f, b)
  {
    if a != [] {
      SumByCongruent(f, a[1..], b[1..]);
    }
  }

  lemma SameButScoresSums(a: seq<Registration>, b: seq<Registration>)
    requires SameButScores(a, b)
    ensures SumBy(Units, a) == SumBy(Units, b)
    ensures SumBy(TotalScore, a) == SumBy(TotalScore, b)
    ensures SumBy(WeightedPoints, a) == SumBy(WeightedPoints, b)
    ensures SumBy(EligibleUnits, a) == SumBy(EligibleUnits, b)
  {
    SumByCongruent(Units, a, b);
    SumByCongruent(TotalScore, a, b);
    SumByCongruent(WeightedPoints, a, b);
    SumByCongruent(EligibleUnits, a, b);
  }

  lemma SameButScoresTermFigures(a: seq<Registration>, b: seq<Registration>)
    requires SameButScores(a, b) && a != []
    ensures TermFiguresOf(a) == TermFiguresOf(b)
  {
    SameButScoresSums(a, b);
    GpaAsSums(a);
    GpaAsSums(b);
  }

  lemma SameButScoresCumulative(a: seq<Registration>, b: seq<Registration>, session: Id)
    requires SameButScores(a, b)
    ensures CumulativeFiguresOf(a, session) == CumulativeFiguresOf(b, session)
  {
    SameButScoresSums(a, b);
    SameButScoresOfSession(a, b, session);
    SameButScoresSums(OfSession(a, session), OfSession(b, session));
  }

  lemma {:induction false} OtherRowsKept(regs: seq<Registration>, i: nat, r: Registration, student: Id, term: Id)
    requires i < |regs| && SameKeys(regs[i], r)
    ensures (student, term) != (r.student, r.term) ==>
      OfTerm(regs[i := r], student, term) == OfTerm(regs, student, term)
    ensures student != r.student ==> OfStudent(regs[i := r], student) == OfStudent(regs, student)
  {
    if 0 < i {
      assert regs[i := r][1..] == regs[1..][i - 1 := r];
      OtherRowsKept(regs[1..], i - 1, r, student, term);
    } else {
      assert regs[i := r][1..] == regs[1..];
    }
  }

  lemma {:induction false} OfStudentMembers(regs: seq<Registration>, student: Id)
    ensures forall r :: r in OfStudent(regs, student) <==> r in regs && r.student == student
  {
    if regs != [] {
      OfStudentMembers(regs[1..], student);
      assert regs == [regs[0]] + regs[1..];
    }
  }

  lemma {:induction false} OfTermMembers(regs: seq<Registration>, student: Id, term: Id)
    ensures forall r :: r in OfTerm(regs, student, term) <==> r in regs && r.student == student && r.term == term
  {
    if regs != [] {
      OfTermMembers(regs[1..], student, term);
      assert regs == [regs[0]] + regs[1..];
    }
  }

  /** Every student stays in the same sessions when a row is rewritten. */
  lemma {:induction false} SessionsKept(regs: seq<Registration>, i: nat, r: Registration, student: Id)
    requires i < |regs| && SameKeys(regs[i], r)
    ensures SessionsOf(OfStudent(regs[i := r], student)) == SessionsOf(OfStudent(regs, student))
  {
    var a, b := OfStudent(regs, student), OfStudent(regs[i := r], student);
    OfStudentMembers(regs, student);
    OfStudentMembers(regs[i := r], student);
    forall q | q in a ensures q.session in SessionsOf(b) {
      var k :| 0 <= k < |regs| && regs[k] == q;
      assert regs[i := r][k] in b;
    }
    forall q | q in b ensures q.session in SessionsOf(a) {
      var k :| 0 <= k < |regs| && regs[i := r][k] == q;
      assert regs[k] in a;
    }
  }

  // ---------- recording a score ----------

  lemma DerivedRowsIgnoreScores(db: Db, i: nat, r: Registration)
    requires RowsAgree(db) && i < |db.regs| && r == db.regs[i].(ca := r.ca)
    ensures forall k :: k in db.terms ==> TermAgrees(db.(regs := db.regs[i := r]), k)
    ensures forall k :: k in db.cumulative ==> CumulativeAgrees(db.(regs := db.regs[i := r]), k)
  {
    hide SubjectResultOf, TermFiguresOf, CumulativeFiguresOf, Position, SubjectAgrees, Known, Graded, OfStudent,
      OfTerm, SessionsOf;
    var db' := db.(regs := db.regs[i := r]);
    forall k | k in db'.terms ensures TermAgrees(db', k) {
      assert TermAgrees(db, k);
      SameButScoresOfTerm(db.regs, db'.regs, k.0, k.1);
      SameButScoresTermFigures(OfTerm(db.regs, k.0, k.1), OfTerm(db'.regs, k.0, k.1));
    }
    forall k | k in db'.cumulative ensures CumulativeAgrees(db', k) {
      assert CumulativeAgrees(db, k);
      SameButScoresOfStudent(db.regs, db'.regs, k.0);
      SameButScoresCumulative(OfStudent(db.regs, k.0), OfStudent(db'.regs, k.0), k.1);
    }
  }

  /** Writing a CA score, and nothing else, leaves all derived rows agreeing. */
  lemma ScoreLeavesRows(db: Db, i: nat, r: Registration)
    requires RowsAgree(db) && i < |db.regs| && r == db.regs[i].(ca := r.ca)
    ensures RowsAgree(db.(regs := db.regs[i := r]))
  {
    hide TermFiguresOf, CumulativeFiguresOf, OfStudent, OfTerm, SessionsOf, TermAgrees, CumulativeAgrees, Graded,
      ProfileOf;
    var db' := db.(regs := db.regs[i := r]);
    DerivedRowsIgnoreScores(db, i, r);
    GradedKept(db, i, r);
    forall k: (Id, Id) ensures SessionsOf(OfStudent(db'.regs, k.0)) == SessionsOf(OfStudent(db.regs, k.0)) {
      SessionsKept(db.regs, i, r, k.0);
    }
  }

  /** Rewriting a row leaves alone which terms have graded registrations, but for its own term. */
  lemma GradedKept(db: Db, i: nat, r: Registration)
    requires i < |db.regs| && SameKeys(db.regs[i], r)
    ensures forall s, t :: (s, t) != (r.student, r.term) || r.result.Some? == db.regs[i].result.Some? ==>
      (Graded(db.(regs := db.regs[i := r]), s, t) <==> Graded(db, s, t))
    ensures r.result.Some? ==> Graded(db.(regs := db.regs[i := r]), r.student, r.term)
  {
    hide SubjectResultOf, TermFiguresOf, CumulativeFiguresOf, Position;
    var db' := db.(regs := db.regs[i := r]);
    assert db'.regs[i] == r;
    forall s, t | (s, t) != (r.student, r.term) || r.result.Some? == db.regs[i].result.Some?
      ensures Graded(db', s, t) <==> Graded(db, s, t)
    {
      if Graded(db, s, t) {
        var q :| q in db.regs && q.student == s && q.term == t && q.result.Some?;
        var k :| 0 <= k < |db.regs| && db.regs[k] == q;
        assert db'.regs[k] in db'.regs;
      }
      if Graded(db', s, t) {
        var q :| q in db'.regs && q.student == s && q.term == t && q.result.Some?;
        var k :| 0 <= k < |db'.regs| && db'.regs[k] == q;
        assert db.regs[k] in db.regs;
      }
    }
  }

  // ---------- the cascade ----------

  /** The database after row i has been replaced by a graded version of itself. */
  ghost predicate RowGraded(db: Db, i: nat, r: Registration) {
    RowsAgree(db) && i < |db.regs| && SameKeys(db.regs[i], r) && r.result.Some?
  }

  /** Which derived rows exist does not change when an unknown student is graded. */
  lemma KeysOfKnownKept(db: Db, i: nat, r: Registration)
    requires RowGraded(db, i, r) && !Known(db, r.student)
    ensures var db' := db.(regs := db.regs[i := r]);
            && (forall k: (Id, Id) :: k in db'.terms <==> Known(db', k.0) && Graded(db', k.0, k.1))
            && (forall k: (Id, Id) :: k in db'.cumulative <==>
                HasTermResult(db', k.0) && k.1 in SessionsOf(OfStudent(db'.regs, k.0)))
  {
    hide SubjectAgrees, TermAgrees, CumulativeAgrees, OfStudent, SessionsOf, Graded, ProfileOf;
    var db' := db.(regs := db.regs[i := r]);
    GradedKept(db, i, r);
    forall k: (Id, Id) ensures SessionsOf(OfStudent(db'.regs, k.0)) == SessionsOf(OfStudent(db.regs, k.0)) {
      SessionsKept(db.regs, i, r, k.0);
    }
    forall s ensures Known(db', s) <==> Known(db, s) {}
    forall s ensures HasTermResult(db', s) <==> HasTermResult(db, s) {}
  }

  /** For a student without user or profile row nothing is derived, before or after. */
  lemma UnknownStudentGraded(db: Db, i: nat, r: Registration)
    requires RowGraded(db, i, r) && !Known(db, r.student)
    ensures RowsAgree(db.(regs := db.regs[i := r]))
  {
    hide OfStudent, OfTerm, SessionsOf, TermAgrees, CumulativeAgrees, Graded, HasTermResult, Known, RowGraded;
    RowsOfKnownKept(db, i, r);
    KeysOfKnownKept(db, i, r);
  }

  lemma RowsOfKnownKept(db: Db, i: nat, r: Registration)
    requires RowGraded(db, i, r) && !Known(db, r.student)
    ensures forall k :: k in db.terms ==> TermAgrees(db.(regs := db.regs[i := r]), k)
    ensures forall k :: k in db.cumulative ==> CumulativeAgrees(db.(regs := db.regs[i := r]), k)
  {
    hide SubjectResultOf, TermFiguresOf, CumulativeFiguresOf, Position, OfStudent, OfTerm, SessionsOf, SubjectAgrees;
    var db' := db.(regs := db.regs[i := r]);
    forall k | k in db'.terms ensures TermAgrees(db', k) {
      assert TermAgrees(db, k) && Known(db, k.0);
      OtherRowsKept(db.regs, i, r, k.0, k.1);
    }
    forall k | k in db'.cumulative ensures CumulativeAgrees(db', k) {
      assert CumulativeAgrees(db, k) && HasTermResult(db, k.0);
      OtherRowsKept(db.regs, i, r, k.0, k.1);
    }
  }

  /** What the cascade for one student and term changes, table by table. */
  ghost predicate Cascaded(db: Db, db': Db, student: Id, term: Id) {
    var rows := OfStudent(db.regs, student);
    && db' == db.(terms := db'.terms, cumulative := db'.cumulative)
    && OfTerm(db.regs, student, term) != []
    && db'.terms.Keys == db.terms.Keys + {(student, term)}
    && db'.terms[(student, term)].figures == TermFiguresOf(OfTerm(db.regs, student, term))
    && (forall k :: k in db.terms && k != (student, term) ==> db'.terms[k] == db.terms[k])
    && (forall k :: k in db'.cumulative <==> k in db.cumulative || (k.0 == student && k.1 in SessionsOf(rows)))
    && (forall k :: k in db'.cumulative ==>
        if k.0 == student && k.1 in SessionsOf(rows) then db'.cumulative[k].figures == CumulativeFiguresOf(rows, k.1)
        else k in db.cumulative && db'.cumulative[k] == db.cumulative[k])
  }

  lemma CgpaShape(db: Db, student: Id, term: Id)
    requires student in db.users && (student, term) in db.terms
    ensures var (db', outcome) := AfterCgpa(db, student);
            var rows := OfStudent(db.regs, student);
            && outcome == Done
            && db' == db.(cumulative := db'.cumulative)
            && (forall k :: k in db'.cumulative <==> k in db.cumulative || (k.0 == student && k.1 in SessionsOf(rows)))
            && (forall k :: k in db'.cumulative ==>
                if k.0 == student && k.1 in SessionsOf(rows)
                  then db'.cumulative[k].figures == CumulativeFiguresOf(rows, k.1)
                else k in db.cumulative && db'.cumulative[k] == db.cumulative[k])
  {
    hide SubjectResultOf, TermFiguresOf, CumulativeFiguresOf, Position;
  }

  lemma CascadeShape(db: Db, student: Id, term: Id)
    requires Known(db, student) && OfTerm(db.regs, student, term) != []
    ensures AfterTerm(db, student, term).1 == Done
    ensures Cascaded(db, AfterTerm(db, student, term).0, student, term)
  {
    hide SubjectResultOf, TermFiguresOf, CumulativeFiguresOf, Position, AfterCgpa, Sort, OfStudent, SessionsOf;
    var profile := ProfileOf(db.profiles, student).value;
    var place := Position(ClassResults(db.profiles, profile.classId, term, db.terms), student);
    var row := UpsertedTerm(db, student, term, place);
    var db1 := db.(terms := db.terms[(student, term) := row]);
    assert row.figures == TermFiguresOf(OfTerm(db.regs, student, term));
    assert AfterTerm(db, student, term) == AfterCgpa(db1, student);
    CgpaShape(db1, student, term);
  }

  lemma TermsAfterCascade(db: Db, i: nat, r: Registration, db': Db)
    requires RowGraded(db, i, r) && Known(db, r.student)
    requires Cascaded(db.(regs := db.regs[i := r]), db', r.student, r.term)
    ensures forall k :: k in db'.terms ==> TermAgrees(db', k)
    ensures forall k: (Id, Id) :: k in db'.terms <==> Known(db', k.0) && Graded(db', k.0, k.1)
  {
    hide SubjectResultOf, TermFiguresOf, CumulativeFiguresOf, Position;
    forall k | k in db'.terms ensures TermAgrees(db', k) {
      if k != (r.student, r.term) {
        assert TermAgrees(db, k);
        OtherRowsKept(db.regs, i, r, k.0, k.1);
      }
    }
    GradedKept(db, i, r);
    var db1 := db.(regs := db.regs[i := r]);
    forall k: (Id, Id) ensures k in db'.terms <==> Known(db', k.0) && Graded(db', k.0, k.1) {
      assert Graded(db', k.0, k.1) == Graded(db1, k.0, k.1);
      assert k in db.terms <==> Known(db, k.0) && Graded(db, k.0, k.1);
    }
  }

  lemma CumulativeAfterCascade(db: Db, i: nat, r: Registration, db': Db)
    requires RowGraded(db, i, r)
    requires Cascaded(db.(regs := db.regs[i := r]), db', r.student, r.term)
    ensures forall k :: k in db'.cumulative ==> CumulativeAgrees(db', k)
    ensures forall k: (Id, Id) :: k in db'.cumulative <==>
      HasTermResult(db', k.0) && k.1 in SessionsOf(OfStudent(db'.regs, k.0))
  {
    hide SubjectResultOf, TermFiguresOf, CumulativeFiguresOf, Position;
    assert (r.student, r.term) in db'.terms;
    forall k: (Id, Id)
      ensures k in db'.cumulative ==> CumulativeAgrees(db', k)
      ensures k in db'.cumulative <==> HasTermResult(db', k.0) && k.1 in SessionsOf(OfStudent(db'.regs, k.0))
    {
      SessionsKept(db.regs, i, r, k.0);
      assert k in db.cumulative <==> HasTermResult(db, k.0) && k.1 in SessionsOf(OfStudent(db.regs, k.0));
      if k.0 != r.student {
        OtherRowsKept(db.regs, i, r, k.0, k.1);
        OtherTermResultsKept(db.(regs := db.regs[i := r]), db', r.student, r.term, k.0);
        assert k in db.cumulative ==> CumulativeAgrees(db, k);
      }
    }
  }

  lemma OtherTermResultsKept(db: Db, db': Db, student: Id, term: Id, other: Id)
    requires Cascaded(db, db', student, term) && other != student
    ensures HasTermResult(db', other) <==> HasTermResult(db, other)
  {
    hide SubjectResultOf, TermFiguresOf, CumulativeFiguresOf, Position;
    if HasTermResult(db', other) {
      var k :| k in db'.terms && k.0 == other;
      assert k in db.terms;
    }
    if HasTermResult(db, other) {
      var k :| k in db.terms && k.0 == other;
      assert k in db'.terms;
    }
  }

  lemma AgreesAfterCascade(db: Db, i: nat, r: Registration, db': Db)
    requires RowGraded(db, i, r) && Known(db, r.student)
    requires Cascaded(db.(regs := db.regs[i := r]), db', r.student, r.term)
    ensures RowsAgree(db')
  {
    hide TermAgrees, CumulativeAgrees, RowGraded, Cascaded, Known, Graded, HasTermResult, SessionsOf, OfStudent;
    TermsAfterCascade(db, i, r, db');
    CumulativeAfterCascade(db, i, r, db');
  }

  /** For a known student the cascade rewrites every row that depends on the graded one. */
  lemma KnownStudentGraded(db: Db, i: nat, r: Registration)
    requires RowGraded(db, i, r) && Known(db, r.student)
    ensures RowsAgree(AfterTerm(db.(regs := db.regs[i := r]), r.student, r.term).0)
  {
    hide TermFiguresOf, CumulativeFiguresOf, Position, AfterTerm, RowsAgree;
    var db1 := db.(regs := db.regs[i := r]);
    OfTermMembers(db1.regs, r.student, r.term);
    assert db1.regs[i] in OfTerm(db1.regs, r.student, r.term);
    CascadeShape(db1, r.student, r.term);
    AgreesAfterCascade(db, i, r, AfterTerm(db1, r.student, r.term).0);
  }

  /** A graded row and the cascade that follows, whoever the student is. */
  lemma GradingKeepsRows(db: Db, i: nat, r: Registration)
    requires RowGraded(db, i, r)
    ensures RowsAgree(AfterTerm(db.(regs := db.regs[i := r]), r.student, r.term).0)
  {
    hide TermFiguresOf, CumulativeFiguresOf, Position, RowsAgree, RowGraded, AfterCgpa, UpsertedTerm, OfTerm;
    if Known(db, r.student) {
      KnownStudentGraded(db, i, r);
    } else {
      UnknownStudentGraded(db, i, r);
    }
  }

  // ---------- every step, every run ----------

  lemma TermLeavesRows(db: Db, student: Id, term: Id)
    ensures AfterTerm(db, student, term).0.regs == db.regs && AfterTerm(db, student, term).0.configs == db.configs
  {}

  lemma ResultIgnoresOldResult(r: Registration, result: Option<SubjectResult>, config: Config)
    ensures SubjectResultOf(r.(result := result), config) == SubjectResultOf(r, config)
  {}

  /** What a score update does: nothing, or a score without a result, or a graded row and its cascade. */
  lemma ScoreShape(db: Db, u: ScoreUpdate)
    ensures var i := IndexOfSubject(db.regs, u.student, u.subject, u.term);
            var after := AfterScore(db, u).0;
            if i == -1 then after == db
            else
              var scored := WithScore(db.regs[i], u.component, u.percentage);
              var config := GetConfig(db.configs, scored.tenant);
              var graded := scored.(result := Some(SubjectResultOf(scored, config)));
              && scored == db.regs[i].(ca := scored.ca)
              && after == if !WeightsValid(config) then db.(regs := db.regs[i := scored])
                          else AfterTerm(db.(regs := db.regs[i := graded]), graded.student, graded.term).0
  {
    hide SubjectResultOf, AfterTerm;
    var i := IndexOfSubject(db.regs, u.student, u.subject, u.term);
    if i != -1 {
      var scored := WithScore(db.regs[i], u.component, u.percentage);
      var graded := scored.(result := Some(SubjectResultOf(scored, GetConfig(db.configs, scored.tenant))));
      assert db.regs[i := scored][i := graded] == db.regs[i := graded];
    }
  }

  /** One score update, whatever its outcome and whatever the configurations, keeps the derived rows in agreement. */
  lemma ScoreKeepsRows(db: Db, u: ScoreUpdate)
    requires RowsAgree(db)
    ensures RowsAgree(AfterScore(db, u).0)
  {
    hide SubjectResultOf, AfterTerm, AfterScore, RowsAgree, GetConfig;
    ScoreShape(db, u);
    var i := IndexOfSubject(db.regs, u.student, u.subject, u.term);
    if i != -1 {
      var scored := WithScore(db.regs[i], u.component, u.percentage);
      var config := GetConfig(db.configs, scored.tenant);
      if WeightsValid(config) {
        GradingKeepsRows(db, i, scored.(result := Some(SubjectResultOf(scored, config))));
      } else {
        ScoreLeavesRows(db, i, scored);
      }
    }
  }

  /** Every registration is graded by its own scores, after an update as before. */
  lemma ScoreKeepsSubjects(db: Db, u: ScoreUpdate)
    requires SubjectsAgree(db)
    ensures SubjectsAgree(AfterScore(db, u).0)
  {
    hide SubjectResultOf, AfterTerm, AfterScore;
    ScoreShape(db, u);
    var after := AfterScore(db, u).0;
    var i := IndexOfSubject(db.regs, u.student, u.subject, u.term);
    if i != -1 {
      var scored := WithScore(db.regs[i], u.component, u.percentage);
      var config := GetConfig(db.configs, scored.tenant);
      var graded := scored.(result := Some(SubjectResultOf(scored, config)));
      TermLeavesRows(db.(regs := db.regs[i := graded]), graded.student, graded.term);
      ResultIgnoresOldResult(scored, graded.result, config);
      assert SubjectAgrees(db, db.regs[i]);
      forall r | r in after.regs ensures SubjectAgrees(after, r) {
        var k :| 0 <= k < |after.regs| && after.regs[k] == r;
        assert k != i ==> SubjectAgrees(db, db.regs[k]);
      }
    }
  }

  /** One score update, whatever its outcome, keeps all three levels in agreement. */
  lemma ScoreKeepsAgreement(db: Db, u: ScoreUpdate)
    requires Agrees(db)
    ensures Agrees(AfterScore(db, u).0)
  {
    hide AfterScore, SubjectsAgree, RowsAgree;
    ScoreKeepsSubjects(db, u);
    ScoreKeepsRows(db, u);
  }

  lemma {:induction false} RunKeepsAgreement(db: Db, updates: seq<ScoreUpdate>)
    requires Agrees(db)
    ensures Agrees(Run(db, updates))
    decreases |updates|
  {
    if updates != [] {
      ScoreKeepsAgreement(db, updates[0]);
      RunKeepsAgreement(AfterScore(db, updates[0]).0, updates[1..]);
    }
  }

  // ---------- configurations that change ----------

  datatype Event =
    | Scored(update: ScoreUpdate)
    | Configured(configs: map<Id, Config>)

  function AfterEvent(db: Db, e: Event): Db {
    match e
    case Scored(update) => AfterScore(db, update).0
    case Configured(configs) => db.(configs := configs)
  }

  function RunEvents(db: Db, events: seq<Event>): Db
    decreases |events|
  {
    if events == [] then db else RunEvents(AfterEvent(db, events[0]), events[1..])
  }

  lemma ConfiguringKeepsRows(db: Db, configs: map<Id, Config>)
    requires RowsAgree(db)
    ensures RowsAgree(db.(configs := configs))
  {
    hide TermFiguresOf, CumulativeFiguresOf, OfStudent, OfTerm, SessionsOf, ProfileOf;
    var db' := db.(configs := configs);
    forall k | k in db'.terms ensures TermAgrees(db', k) {
      assert TermAgrees(db, k);
    }
    forall k | k in db'.cumulative ensures CumulativeAgrees(db', k) {
      assert CumulativeAgrees(db, k);
    }
    forall s, t ensures Graded(db', s, t) <==> Graded(db, s, t) {}
    forall s ensures HasTermResult(db', s) <==> HasTermResult(db, s) {}
    forall s ensures Known(db', s) <==> Known(db, s) {}
  }

  /** Weights, scales and pass marks may change between updates: term and cumulative rows still agree. */
  lemma {:induction false} EventsKeepRows(db: Db, events: seq<Event>)
    requires RowsAgree(db)
    ensures RowsAgree(RunEvents(db, events))
    decreases |events|
  {
    hide RowsAgree, AfterScore;
    if events != [] {
      match events[0] {
        case Scored(update) => ScoreKeepsRows(db, update);
        case Configured(configs) => ConfiguringKeepsRows(db, configs);
      }
      EventsKeepRows(AfterEvent(db, events[0]), events[1..]);
    }
  }

  ghost predicate NothingGraded(db: Db) {
    db.terms == map[] && db.cumulative == map[] && forall r :: r in db.regs ==> r.result.None?
  }

  /** From registrations without results, after any run of score updates, everything agrees. */
  lemma {:induction false} AnyRunAgrees(db: Db, updates: seq<ScoreUpdate>)
    requires NothingGraded(db)
    ensures Agrees(Run(db, updates))
  {
    assert Agrees(db) by {
      forall k: (Id, Id) ensures !Graded(db, k.0, k.1) && !HasTermResult(db, k.0) {}
    }
    RunKeepsAgreement(db, updates);
  }

  /** From registrations without results, whatever the scores and the configurations between them. */
  lemma AnyEventsAgree(db: Db, events: seq<Event>)
    requires NothingGraded(db)
    ensures RowsAgree(RunEvents(db, events))
  {
    assert RowsAgree(db) by {
      forall k: (Id, Id) ensures !Graded(db, k.0, k.1) && !HasTermResult(db, k.0) {}
    }
    EventsKeepRows(db, events);
  }

  ghost predicate SameFor(db: Db, db': Db, student: Id) {
    && OfStudent(db'.regs, student) == OfStudent(db.regs, student)
    && (forall k: (Id, Id) :: k.0 == student ==>
      (k in db'.terms <==> k in db.terms) && (k in db'.cumulative <==> k in db.cumulative))
    && (forall k :: k in db.terms && k.0 == student ==> db'.terms[k] == db.terms[k])
    && (forall k :: k in db.cumulative && k.0 == student ==> db'.cumulative[k] == db.cumulative[k])
  }

  lemma TermLeavesOthers(db: Db, student: Id, term: Id, other: Id)
    requires other != student
    ensures SameFor(db, AfterTerm(db, student, term).0, other)
  {
    hide SubjectResultOf, TermFiguresOf, CumulativeFiguresOf, Position, AfterCgpa, OfStudent, SessionsOf, Sort;
    if Known(db, student) && OfTerm(db.regs, student, term) != [] {
      CascadeShape(db, student, term);
    }
  }

  /** A step for one student changes no row of any other student. */
  lemma OtherStudentsUntouched(db: Db, u: ScoreUpdate, other: Id)
    requires other != u.student
    ensures SameFor(db, AfterScore(db, u).0, other)
  {
    hide SubjectResultOf, TermFiguresOf, CumulativeFiguresOf, Position, AfterTerm;
    var i := IndexOfSubject(db.regs, u.student, u.subject, u.term);
    if i != -1 {
      var scored := WithScore(db.regs[i], u.component, u.percentage);
      OtherRowsKept(db.regs, i, scored, other, u.term);
      var db1 := db.(regs := db.regs[i := scored]);
      var config := GetConfig(db.configs, scored.tenant);
      var r := scored.(result := Some(SubjectResultOf(scored, config)));
      OtherRowsKept(db1.regs, i, r, other, u.term);
      TermLeavesOthers(db1.(regs := db1.regs[i := r]), r.student, r.term, other);
    }
  }

  /** A student's stored lifetime CGPA lies between two of the student's stored session CGPAs. */
  lemma StoredLifetimeBetweenSessions(db: Db, key: (Id, Id)) returns (lowest: Id, highest: Id)
    requires RowsAgree(db) && key in db.cumulative
    requires CreditsNonNegative(OfStudent(db.regs, key.0)) && SumBy(Units, OfStudent(db.regs, key.0)) > 0.0
    ensures (key.0, lowest) in db.cumulative && (key.0, highest) in db.cumulative
    ensures db.cumulative[(key.0, lowest)].figures.creditsEarned > 0.0
    ensures db.cumulative[(key.0, highest)].figures.creditsEarned > 0.0
    ensures db.cumulative[(key.0, lowest)].figures.sessionCgpa
            <= db.cumulative[key].figures.lifetimeCgpa
            <= db.cumulative[(key.0, highest)].figures.sessionCgpa
  {
    lowest, highest := LifetimeBetweenSessions(OfStudent(db.regs, key.0));
    assert CumulativeAgrees(db, key) && HasTermResult(db, key.0);
    assert (key.0, lowest) in db.cumulative && (key.0, highest) in db.cumulative;
    assert CumulativeAgrees(db, (key.0, lowest)) && CumulativeAgrees(db, (key.0, highest));
  }
}
