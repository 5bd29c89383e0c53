/** The result engine as it runs: rows read, folded and written back one by one. */
module ResultEngine {
  import opened Basics
  import opened Rounding
  import opened Sums
  import opened Sorting
  import opened GradeScale
  import opened SchoolConfig
  import opened Registrations
  import opened SubjectScore
  import opened Gpa
  import opened SessionResults
  import opened ClassPosition
  import opened ResultDb

  /** The figures do not depend on the order of the rows: the engine reads them sorted by total. */
  lemma TermFiguresIgnoreOrder(a: seq<Registration>, b: seq<Registration>)
    requires a != [] && multiset(a) == multiset(b)
    ensures b != [] && TermFiguresOf(a) == TermFiguresOf(b)
  {
    SameElements(a, b);
    SumByPermutation(TotalScore, a, b);
    SumByPermutation(Units, a, b);
    WeightedGpaPermutation(a, b);
  }

  /** Filing one more session. */
  lemma SessionRowsStep(db: Db, student: Id, rows: seq<Registration>, done: set<Id>, x: Id)
    requires student in db.users && x !in done
    ensures (student, x) in db.cumulative + SessionRows(db, student, rows, done) <==> (student, x) in db.cumulative
    ensures (student, x) in db.cumulative ==>
      (db.cumulative + SessionRows(db, student, rows, done))[(student, x)] == db.cumulative[(student, x)]
    ensures db.cumulative + SessionRows(db, student, rows, done + {x})
            == (db.cumulative + SessionRows(db, student, rows, done))[(student, x) := Upserted(db, student, x, rows)]
  {
    hide Upserted;
  }

  class ResultEngine {
    const configs: map<Id, Config>
    const users: map<Id, Id>
    const profiles: seq<Profile>
    var regs: seq<Registration>
    var terms: map<(Id, Id), TermResult>
    var cumulative: map<(Id, Id), CumulativeResult>

    constructor (configs: map<Id, Config>, users: map<Id, Id>, profiles: seq<Profile>, regs: seq<Registration>)
      ensures State() == Db(configs, users, profiles, regs, map[], map[])
    {
      this.configs, this.users, this.profiles := configs, users, profiles;
      this.regs, terms, cumulative := regs, map[], map[];
    }

    ghost function State(): Db
      reads this
    {
      Db(configs, users, profiles, regs, terms, cumulative)
    }

    method RecalculateCgpa(student: Id) returns (outcome: Outcome)
      modifies this`cumulative
      ensures (State(), outcome) == AfterCgpa(old(State()), student)
    {
      if student !in users {
        return UserNotFound;
      }
      if forall k :: k in terms ==> k.0 != student {
        return Done;
      }
      var all := OfStudent(regs, student);
      var lifetime := Cgpa(all);
      var totalCredits := SumBy(Units, all);
      var bySession := GroupBySession(all);
      var todo := bySession.Keys;
      ghost var before := State();
      while todo != {}
        invariant todo <= bySession.Keys
        invariant cumulative == before.cumulative + SessionRows(before, student, all, bySession.Keys - todo)
      {
        var session :| session in todo;
        var rows := bySession[session];
        var figures := CumulativeFigures(Cgpa(rows), lifetime, SumBy(Units, rows), totalCredits);
        var key := (student, session);
        SessionRowsStep(before, student, all, bySession.Keys - todo, session);
        assert bySession.Keys - (todo - {session}) == bySession.Keys - todo + {session};
        if key in cumulative {
          cumulative := cumulative[key := cumulative[key].(figures := figures)];
        } else {
          cumulative := cumulative[key := CumulativeResult(users[student], figures)];
        }
        todo := todo - {session};
      }
      assert bySession.Keys - todo == SessionsOf(all);
      assert State() == AfterCgpa(before, student).0;
      outcome := Done;
    }

    method RecalculateTermResult(student: Id, term: Id) returns (outcome: Outcome)
      modifies this`terms, this`cumulative
      ensures (State(), outcome) == AfterTerm(old(State()), student, term)
    {
      if student !in users {
        return UserNotFound;
      }
      var rows := OfTerm(regs, student, term);
      var subjects := Sort(TotalDescending, rows);
      SameElements(subjects, rows);
      if |subjects| == 0 {
        return Done;
      }
      TermFiguresIgnoreOrder(rows, subjects);
      var total := SumBy(TotalScore, subjects);
      var credits := SumBy(Units, subjects);
      var average := total / |subjects| as real;
      var gpa := WeightedGpa(subjects);
      var figures := TermFigures(total, Round2(average), credits, gpa);
      var profile := ProfileOf(profiles, student);
      if profile.None? {
        return UserNotFound;
      }
      var place := Position(ClassResults(profiles, profile.value.classId, term, terms), student);
      var key := (student, term);
      if key in terms {
        terms := terms[key := terms[key].(figures := figures, position := place.0, outOf := place.1)];
      } else {
        terms := terms[key :=
          TermResult(users[student], subjects[0].classId, subjects[0].session, figures, place.0, place.1)];
      }
      outcome := RecalculateCgpa(student);
    }

    method RecalculateSubjectResult(id: Id) returns (outcome: Outcome)
      modifies this`regs, this`terms, this`cumulative
      ensures var i := IndexOfId(old(regs), id);
              if i == -1 then State() == old(State()) && outcome == RegistrationNotFound
              else (State(), outcome) == AfterSubject(old(State()), i)
    {
      var i := IndexOfId(regs, id);
      if i == -1 {
        return RegistrationNotFound;
      }
      var reg := regs[i];
      var config := GetConfig(configs, reg.tenant);
      if config.caWeight == 0 || config.examWeight == 0 {
        return WeightsNotSet;
      } else if config.caWeight + config.examWeight != 100 {
        return WeightsNotHundred;
      }
      var caTotal := CaTotal(reg.ca, config.caWeight);
      var finalScore := Round2(caTotal + ExamPart(reg.exam, config.examWeight));
      var grading := ApplyGradeScale(finalScore, config.gradingScale);
      var passed := grading.points >= config.passMark.GetOr(40) as real;
      regs := regs[i := reg.(result := Some(SubjectResult(caTotal, finalScore, grading, passed)))];
      outcome := RecalculateTermResult(reg.student, reg.term);
    }

    /** Feeds an assessment percentage into the student's registration and recalculates. */
    method UpdateSubjectScore(u: ScoreUpdate) returns (outcome: Outcome)
      requires UniqueIds(regs)
      modifies this`regs, this`terms, this`cumulative
      ensures (State(), outcome) == AfterScore(old(State()), u)
    {
      var i := IndexOfSubject(regs, u.student, u.subject, u.term);
      if i == -1 {
        return Done;
      }
      regs := regs[i := WithScore(regs[i], u.component, u.percentage)];
      IdFindsRow(regs, i);
      outcome := RecalculateSubjectResult(regs[i].id);
    }
  }
}
