/**
 The tables behind the result pipeline and what one recalculation does to them
 (src/result-engine/result-engine.service.ts, src/assessment/grading.service.ts:224-265).
 */
module ResultDb {
  import opened Basics
  import opened Rounding
  import opened Sums
  import opened Sorting
  import opened GradeScale
  import opened SchoolConfig
  import opened Registrations
  import opened SubjectScore
  import opened Gpa
  import opened SessionResults
  import opened ClassPosition

  datatype TermFigures = TermFigures(total: real, average: real, creditUnits: real, gpa: real)

  datatype TermResult = TermResult(
    tenant: Id, classId: Id, session: Id, figures: TermFigures, position: nat, outOf: nat)

  datatype CumulativeFigures = CumulativeFigures(
    sessionCgpa: real, lifetimeCgpa: real, creditsEarned: real, creditsAttempted: real)

  datatype CumulativeResult = CumulativeResult(tenant: Id, figures: CumulativeFigures)

  datatype Profile = Profile(user: Id, classId: Option<Id>)

  /** terms is keyed by (student, term), cumulative by (student, session); users gives each user's tenant. */
  datatype Db = Db(
    configs: map<Id, Config>,
    users: map<Id, Id>,
    profiles: seq<Profile>,
    regs: seq<Registration>,
    terms: map<(Id, Id), TermResult>,
    cumulative: map<(Id, Id), CumulativeResult>)

  datatype Outcome = Done | RegistrationNotFound | WeightsNotSet | WeightsNotHundred | UserNotFound

  /** The percentage of an assessment that feeds a CA component (or none). */
  datatype ScoreUpdate = ScoreUpdate(student: Id, subject: Id, term: Id, component: Option<CaComponent>,
      percentage: real)

  // ---------- queries ----------

  function OfTerm(regs: seq<Registration>, student: Id, term: Id): seq<Registration> {
    if regs == [] then []
    else if regs[0].student == student && regs[0].term == term then [regs[0]] + OfTerm(regs[1..], student, term)
    else OfTerm(regs[1..], student, term)
  }

  function OfStudent(regs: seq<Registration>, student: Id): seq<Registration> {
    if regs == [] then []
    else if regs[0].student == student then [regs[0]] + OfStudent(regs[1..], student)
    else OfStudent(regs[1..], student)
  }

  /** The index of the registration with this id, or -1. */
  function IndexOfId(regs: seq<Registration>, id: Id): (i: int)
    ensures -1 <= i < |regs| && (0 <= i ==> regs[i].id == id)
    ensures i == -1 ==> forall r :: r in regs ==> r.id != id
  {
    if regs == [] then -1
    else if regs[0].id == id then 0
    else
      var i := IndexOfId(regs[1..], id);
      if i == -1 then -1 else i + 1
  }

  /** The index of the student's registration for a subject in a term, or -1. */
  function IndexOfSubject(regs: seq<Registration>, student: Id, subject: Id, term: Id): (i: int)
    ensures -1 <= i < |regs|
      && (0 <= i ==> regs[i].student == student && regs[i].subject == subject && regs[i].term == term)
    ensures i == -1 ==> forall r :: r in regs ==> r.student != student || r.subject != subject || r.term != term
  {
    if regs == [] then -1
    else if regs[0].student == student && regs[0].subject == subject && regs[0].term == term then 0
    else
      var i := IndexOfSubject(regs[1..], student, subject, term);
      if i == -1 then -1 else i + 1
  }

  function ProfileOf(profiles: seq<Profile>, user: Id): (p: Option<Profile>)
    ensures p.Some? ==> p.value in profiles && p.value.user == user
    ensures p.None? ==> forall q :: q in profiles ==> q.user != user
  {
    if profiles == [] then None
    else if profiles[0].user == user then Some(profiles[0])
    else ProfileOf(profiles[1..], user)
  }

  /** The stored term averages of everyone in a class. */
  function ClassResults(profiles: seq<Profile>, classId: Option<Id>, term: Id,
      terms: map<(Id, Id), TermResult>): seq<ClassResult> {
    if profiles == [] then []
    else
      var rest := ClassResults(profiles[1..], classId, term, terms);
      var key := (profiles[0].user, term);
      if profiles[0].classId == classId && key in terms
      then [ClassResult(profiles[0].user, terms[key].figures.average)] + rest
      else rest
  }

  predicate TotalDescending(a: Registration, b: Registration) {
    a.result.None? || (b.result.Some? && a.result.value.total >= b.result.value.total)
  }

  // ---------- the three levels of derived figures ----------

  predicate WeightsSet(config: Config) {
    config.caWeight != 0 && config.examWeight != 0
  }

  predicate WeightsValid(config: Config) {
    WeightsSet(config) && config.caWeight + config.examWeight == 100
  }

  /** is_passed compares grade points with the pass mark, as the source does. */
  function SubjectResultOf(r: Registration, config: Config): SubjectResult {
    var total := FinalScore(r.ca, r.exam, config.caWeight, config.examWeight);
    var grading := ApplyGradeScale(total, config.gradingScale);
    SubjectResult(CaTotal(r.ca, config.caWeight), total, grading, grading.points >= config.passMark.GetOr(40) as real)
  }

  function TermFiguresOf(rows: seq<Registration>): TermFigures
    requires rows != []
  {
    var total := SumBy(TotalScore, rows);
    TermFigures(total, Round2(total / |rows| as real), SumBy(Units, rows), WeightedGpa(rows))
  }

  function CumulativeFiguresOf(rows: seq<Registration>, session: Id): CumulativeFigures {
    CumulativeFigures(SessionCgpa(rows, session), Cgpa(rows), SessionCredits(rows, session), SumBy(Units, rows))
  }

  // ---------- what each recalculation leaves behind ----------

  function Upserted(db: Db, student: Id, session: Id, rows: seq<Registration>): CumulativeResult
    requires student in db.users
  {
    var key := (student, session);
    CumulativeResult(
      if key in db.cumulative then db.cumulative[key].tenant else db.users[student],
      CumulativeFiguresOf(rows, session))
  }

  function SessionRows(db: Db, student: Id, rows: seq<Registration>, sessions: set<Id>): map<(Id, Id), CumulativeResult>
    requires student in db.users
  {
    map x | x in sessions :: (student, x) := Upserted(db, student, x, rows)
  }

  function AfterCgpa(db: Db, student: Id): (Db, Outcome) {
    if student !in db.users then (db, UserNotFound)
    else if forall k :: k in db.terms ==> k.0 != student then (db, Done)
    else
      var rows := OfStudent(db.regs, student);
      (db.(cumulative := db.cumulative + SessionRows(db, student, rows, SessionsOf(rows))), Done)
  }

  function UpsertedTerm(db: Db, student: Id, term: Id, place: (nat, nat)): TermResult
    requires student in db.users && OfTerm(db.regs, student, term) != []
  {
    var rows := OfTerm(db.regs, student, term);
    var key := (student, term);
    var sorted := Sort(TotalDescending, rows);
    SameElements(sorted, rows);
    var figures := TermFiguresOf(rows);
    if key in db.terms then db.terms[key].(figures := figures, position := place.0, outOf := place.1)
    else TermResult(db.users[student], sorted[0].classId, sorted[0].session, figures, place.0, place.1)
  }

  function AfterTerm(db: Db, student: Id, term: Id): (Db, Outcome) {
    if student !in db.users then (db, UserNotFound)
    else if OfTerm(db.regs, student, term) == [] then (db, Done)
    else
      match ProfileOf(db.profiles, student)
      case None => (db, UserNotFound)
      case Some(profile) =>
        var place := Position(ClassResults(db.profiles, profile.classId, term, db.terms), student);
        AfterCgpa(db.(terms := db.terms[(student, term) := UpsertedTerm(db, student, term, place)]), student)
  }

  /** The primary key of the registration table. */
  ghost predicate UniqueIds(regs: seq<Registration>) {
    forall i, j :: 0 <= i < j < |regs| ==> regs[i].id != regs[j].id
  }

  lemma {:induction false} IdFindsRow(regs: seq<Registration>, i: nat)
    requires UniqueIds(regs) && i < |regs|
    ensures IndexOfId(regs, regs[i].id) == i
  {
    if 0 < i {
      IdFindsRow(regs[1..], i - 1);
    }
  }

  function AfterSubject(db: Db, i: nat): (Db, Outcome)
    requires i < |db.regs|
  {
    var r := db.regs[i];
    var config := GetConfig(db.configs, r.tenant);
    if !WeightsSet(config) then (db, WeightsNotSet)
    else if !WeightsValid(config) then (db, WeightsNotHundred)
    else AfterTerm(db.(regs := db.regs[i := r.(result := Some(SubjectResultOf(r, config)))]), r.student, r.term)
  }

  function ComponentIndex(c: CaComponent): (i: nat)
    ensures i < 5
  {
    match c case CA1 => 0 case CA2 => 1 case CA3 => 2 case CA4 => 3 case CA5 => 4
  }

  function WithScore(r: Registration, component: Option<CaComponent>, percentage: real): Registration {
    match component
    case None => r
    case Some(c) => r.(ca := r.ca[ComponentIndex(c) := Some(percentage)])
  }

  function AfterScore(db: Db, u: ScoreUpdate): (Db, Outcome) {
    var i := IndexOfSubject(db.regs, u.student, u.subject, u.term);
    if i == -1 then (db, Done)
    else AfterSubject(db.(regs := db.regs[i := WithScore(db.regs[i], u.component, u.percentage)]), i)
  }

  function Run(db: Db, updates: seq<ScoreUpdate>): Db
    decreases |updates|
  {
    if updates == [] then db else Run(AfterScore(db, updates[0]).0, updates[1..])
  }
}
