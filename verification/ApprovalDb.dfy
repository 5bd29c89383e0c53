/**
 Assessments from draft to publication, and the approval log
 (src/assessment/assessment.service.ts:45-173, 283-301; src/approval/approval-workflow.service.ts:28-204).
 */
module ApprovalDb {
  import opened Basics
  import opened SchoolConfig
  import opened GradingSafety
  import Grading = GradingDb

  type Question = Grading.Question

  datatype AssessmentType = TEST | EXAM | ASSIGNMENT | POP_QUIZ | CLASSWORK | PROJECT | PRESENTATION

  /** The statuses that some operation sets. */
  datatype Status = DRAFT | PENDING_APPROVAL | APPROVED | REJECTED | PUBLISHED

  /** What students are given. */
  datatype Content = Content(
    title: string,
    instructions: Option<string>,
    startTime: Option<int>,
    endTime: Option<int>,
    durationMins: Option<nat>,
    shuffleQuestions: bool,
    shuffleOptions: bool,
    questions: seq<Question>)

  /** The part of an assessment that approval is about. */
  datatype Body = Body(
    tenant: Id,
    kind: AssessmentType,
    teachers: seq<Id>,
    content: Content,
    totalMarks: real,
    maxAttempts: Option<nat>)

  datatype Assessment = Assessment(
    body: Body,
    status: Status,
    approvedBy: Option<Id>,
    rejectedBy: Option<Id>,
    rejectedReason: Option<string>)

  /** The fields of an update; a null is written like a value, where the column can be null. */
  datatype Changes = Changes(
    title: Sent<string>,
    instructions: Sent<string>,
    startTime: Sent<int>,
    endTime: Sent<int>,
    durationMins: Sent<nat>,
    shuffleQuestions: Sent<bool>,
    shuffleOptions: Sent<bool>)

  datatype Resource = AssessmentResource | ResultResource

  datatype Action = Submitted | Approved | Rejected

  datatype Entry = Entry(tenant: Id, id: nat, resource: Resource, action: Action, actor: Id, comment: Option<string>)

  datatype User = User(tenant: Id, role: Id)

  const APPROVER_ROLES: seq<Id> :=
    ["PRINCIPAL", "HEAD_TEACHER", "VICE_PRINCIPAL", "ASST_HEAD_TEACHER", "HOD", "SCHOOL_OWNER"]

  datatype Db = Db(
    users: map<Id, User>,
    configs: map<Id, Config>,
    assessments: map<nat, Assessment>,
    log: seq<Entry>,
    attempts: map<(nat, Id), nat>,
    nextId: nat)

  datatype Outcome =
    | Done | NoActiveTerm | WeightsNotConfigured | AssessmentNotFound | NotOwner | NotDraft | NoQuestions
    | RowMissing | Referenced | UserNotFound | NotApprover | ReasonRequired | NotApproved
    | NotStarted | Ended | AttemptsUsedUp | NullRefused

  // ---------- creating, changing and removing drafts ----------

  predicate AutoGradable(kind: Grading.QuestionType) {
    kind == Grading.MULTIPLE_CHOICE || kind == Grading.TRUE_FALSE || kind == Grading.FILL_IN_THE_BLANK
  }

  /** The question rows that a request's questions become. */
  function QuestionRows(questions: seq<Question>): seq<Question> {
    if questions == [] then []
    else [questions[0].(isAutoGradable := AutoGradable(questions[0].kind))] + QuestionRows(questions[1..])
  }

  predicate WeightsConfigured(config: Config) {
    config.caWeight + config.examWeight == 100
  }

  /** The attempt limit column defaults to 1. */
  function AfterCreate(
    db: Db, tenant: Id, teacher: Id, kind: AssessmentType, content: Content, maxAttempts: Option<nat>,
    isExamComponent: bool, hasTerm: bool): (Db, Outcome)
  {
    if !hasTerm then (db, NoActiveTerm)
    else if isExamComponent && !WeightsConfigured(GetConfig(db.configs, tenant)) then (db, WeightsNotConfigured)
    else
      var body := Body(tenant, kind, [teacher], content.(questions := QuestionRows(content.questions)),
                       TotalMarks(content.questions), Some(maxAttempts.GetOr(1)));
      var row := Assessment(body, DRAFT, None, None, None);
      (db.(assessments := db.assessments[db.nextId := row], nextId := db.nextId + 1), Done)
  }

  predicate InTenant(db: Db, id: nat, tenant: Id) {
    id in db.assessments && db.assessments[id].body.tenant == tenant
  }

  /** What every operation on a draft checks first. */
  function DraftCheck(db: Db, tenant: Id, id: nat, teacher: Id): Outcome {
    if !InTenant(db, id, tenant) then AssessmentNotFound
    else if teacher !in db.assessments[id].body.teachers then NotOwner
    else if db.assessments[id].status != DRAFT then NotDraft
    else Done
  }

  function Changed(content: Content, changes: Changes): Content {
    content.(
      title := changes.title.GetOr(content.title),
      instructions := changes.instructions.Over(content.instructions),
      startTime := changes.startTime.Over(content.startTime),
      endTime := changes.endTime.Over(content.endTime),
      durationMins := changes.durationMins.Over(content.durationMins),
      shuffleQuestions := changes.shuffleQuestions.GetOr(content.shuffleQuestions),
      shuffleOptions := changes.shuffleOptions.GetOr(content.shuffleOptions))
  }

  /** The columns of these fields cannot be null: the database refuses the row. */
  predicate NullsRefused(changes: Changes) {
    changes.title == Null || changes.shuffleQuestions == Null || changes.shuffleOptions == Null
  }

  function AfterUpdate(db: Db, tenant: Id, id: nat, changes: Changes, teacher: Id): (Db, Outcome) {
    var check := DraftCheck(db, tenant, id, teacher);
    if check != Done then (db, check)
    else if NullsRefused(changes) then (db, NullRefused)
    else
      var a := db.assessments[id];
      var row := a.(body := a.body.(content := Changed(a.body.content, changes)));
      (db.(assessments := db.assessments[id := row]), Done)
  }

  /** Log entries and submissions refer to the assessment by restricting foreign keys. */
  predicate IsReferenced(db: Db, id: nat) {
    || (exists e :: e in db.log && e.id == id)
    || (exists k :: k in db.attempts && k.0 == id && db.attempts[k] > 0)
  }

  function AfterRemove(db: Db, tenant: Id, id: nat, teacher: Id): (Db, Outcome) {
    var check := DraftCheck(db, tenant, id, teacher);
    if check != Done then (db, check)
    else if IsReferenced(db, id) then (db, Referenced)
    else (db.(assessments := db.assessments - {id}), Done)
  }

  // ---------- approval ----------

  function Logged(db: Db, tenant: Id, id: nat, resource: Resource, action: Action, actor: Id,
      comment: Option<string>): Db {
    db.(log := db.log + [Entry(tenant, id, resource, action, actor, comment)])
  }

  /** No status is required: submitting, approving and rejecting apply to an assessment in any status. */
  function AfterSubmit(db: Db, tenant: Id, id: nat, resource: Resource, actor: Id): (Db, Outcome) {
    if id !in db.assessments then (db, RowMissing)
    else
      var row := db.assessments[id].(status := PENDING_APPROVAL);
      var updated := if resource == AssessmentResource then db.(assessments := db.assessments[id := row]) else db;
      (Logged(updated, tenant, id, resource, Action.Submitted, actor, None), Done)
  }

  predicate IsApprover(users: map<Id, User>, tenant: Id, user: Id) {
    user in users && users[user].tenant == tenant && users[user].role in APPROVER_ROLES
  }

  function ApproverCheck(db: Db, tenant: Id, user: Id): Outcome {
    if !(user in db.users && db.users[user].tenant == tenant) then UserNotFound
    else if db.users[user].role !in APPROVER_ROLES then NotApprover
    else Done
  }

  function AfterApprove(db: Db, tenant: Id, id: nat, resource: Resource, approver: Id,
      comment: Option<string>): (Db, Outcome) {
    var check := ApproverCheck(db, tenant, approver);
    if check != Done then (db, check)
    else if id !in db.assessments then (db, RowMissing)
    else
      var row := db.assessments[id].(status := APPROVED, approvedBy := Some(approver));
      var updated := if resource == AssessmentResource then db.(assessments := db.assessments[id := row]) else db;
      (Logged(updated, tenant, id, resource, Action.Approved, approver, comment), Done)
  }

  predicate Blank(reason: Option<string>) {
    reason == None || forall c :: c in reason.value ==> Grading.IsSpace(c)
  }

  function AfterReject(db: Db, tenant: Id, id: nat, resource: Resource, rejector: Id,
      reason: Option<string>): (Db, Outcome) {
    var check := ApproverCheck(db, tenant, rejector);
    if Blank(reason) then (db, ReasonRequired)
    else if check != Done then (db, check)
    else if id !in db.assessments then (db, RowMissing)
    else
      var row := db.assessments[id].(status := REJECTED, rejectedBy := Some(rejector), rejectedReason := reason);
      var updated := if resource == AssessmentResource then db.(assessments := db.assessments[id := row]) else db;
      (Logged(updated, tenant, id, resource, Action.Rejected, rejector, reason), Done)
  }

  // ---------- publication ----------

  function WithStatus(db: Db, id: nat, status: Status): Db
    requires id in db.assessments
  {
    db.(assessments := db.assessments[id := db.assessments[id].(status := status)])
  }

  predicate NeedsApproval(db: Db, id: nat, tenant: Id)
    requires id in db.assessments
  {
    db.assessments[id].body.kind == EXAM && GetConfig(db.configs, tenant).requireExamApproval
  }

  function AfterPublish(db: Db, tenant: Id, id: nat, teacher: Id): (Db, Outcome) {
    var check := DraftCheck(db, tenant, id, teacher);
    if check != Done then (db, check)
    else if db.assessments[id].body.content.questions == [] then (db, NoQuestions)
    else if NeedsApproval(db, id, tenant) then AfterSubmit(db, tenant, id, AssessmentResource, teacher)
    else (WithStatus(db, id, PUBLISHED), Done)
  }

  function AfterPublishApproved(db: Db, id: nat): (Db, Outcome) {
    if id !in db.assessments then (db, AssessmentNotFound)
    else if db.assessments[id].status != APPROVED then (db, NotApproved)
    else (WithStatus(db, id, PUBLISHED), Done)
  }

  // ---------- attempts ----------

  function AttemptsOf(attempts: map<(nat, Id), nat>, id: nat, student: Id): nat {
    if (id, student) in attempts then attempts[(id, student)] else 0
  }

  /** Starting a submission checks the time window and the attempts made, not the status. */
  function AfterStart(db: Db, tenant: Id, id: nat, student: Id, now: int): (Db, Outcome) {
    if !InTenant(db, id, tenant) then (db, AssessmentNotFound)
    else
      var body := db.assessments[id].body;
      var made := AttemptsOf(db.attempts, id, student);
      if body.content.startTime.Some? && now < body.content.startTime.value then (db, NotStarted)
      else if body.content.endTime.Some? && now > body.content.endTime.value then (db, Ended)
      else if made >= body.maxAttempts.GetOr(1) then (db, AttemptsUsedUp)
      else (db.(attempts := db.attempts[(id, student) := made + 1]), Done)
  }
}
