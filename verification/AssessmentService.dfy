/**
 The assessment service and the approval workflow it calls, over the tables they share: rows overwritten,
 entries appended to the log.
 */
module AssessmentService {
  import opened Basics
  import opened SchoolConfig
  import opened GradingSafety
  import opened ApprovalDb
  import opened ApprovalSafety

  class AssessmentService {
    var users: map<Id, User>
    var configs: map<Id, Config>
    var assessments: map<nat, Assessment>
    var log: seq<Entry>
    var attempts: map<(nat, Id), nat>
    var nextId: nat

    function Tables(): Db
      reads this
    {
      Db(users, configs, assessments, log, attempts, nextId)
    }

    constructor (users: map<Id, User>, configs: map<Id, Config>)
      ensures Tables() == Db(users, configs, map[], [], map[], 0)
      ensures Valid(Tables())
    {
      this.users, this.configs := users, configs;
      assessments, log, attempts, nextId := map[], [], map[], 0;
      NothingYet(users, configs);
    }

    // ---------- drafts ----------

    method CreateAssessment(
      tenant: Id, teacher: Id, kind: AssessmentType, content: Content, maxAttempts: Option<nat>,
      isExamComponent: bool, hasTerm: bool) returns (outcome: Outcome)
      modifies this`assessments, this`nextId
      ensures (Tables(), outcome)
        == AfterCreate(old(Tables()), tenant, teacher, kind, content, maxAttempts, isExamComponent, hasTerm)
      ensures old(Valid(Tables())) ==> Valid(Tables())
    {
      hide Valid;
      if Valid(Tables()) {
        CreateKeeps(Tables(),
          ApprovalSafety.Create(tenant, teacher, kind, content, maxAttempts, isExamComponent, hasTerm));
      }
      if !hasTerm {
        return NoActiveTerm;
      }
      if isExamComponent && !WeightsConfigured(GetConfig(configs, tenant)) {
        return WeightsNotConfigured;
      }
      var rows := content.(questions := QuestionRows(content.questions));
      var body := Body(tenant, kind, [teacher], rows, TotalMarks(content.questions), Some(maxAttempts.GetOr(1)));
      assessments := assessments[nextId := Assessment(body, DRAFT, None, None, None)];
      nextId := nextId + 1;
      outcome := Done;
    }

    method Update(tenant: Id, id: nat, changes: Changes, teacher: Id) returns (outcome: Outcome)
      modifies this`assessments
      ensures (Tables(), outcome) == AfterUpdate(old(Tables()), tenant, id, changes, teacher)
      ensures old(Valid(Tables())) ==> Valid(Tables())
    {
      hide Valid;
      if Valid(Tables()) {
        UpdateKeeps(Tables(), tenant, id, changes, teacher);
      }
      outcome := AssertOwnDraft(tenant, id, teacher);
      if outcome != Done {
        return;
      }
      if NullsRefused(changes) {
        return NullRefused;
      }
      var a := assessments[id];
      assessments := assessments[id := a.(body := a.body.(content := Changed(a.body.content, changes)))];
    }

    method Remove(tenant: Id, id: nat, teacher: Id) returns (outcome: Outcome)
      modifies this`assessments
      ensures (Tables(), outcome) == AfterRemove(old(Tables()), tenant, id, teacher)
      ensures old(Valid(Tables())) ==> Valid(Tables())
    {
      hide Valid;
      if Valid(Tables()) {
        RemoveKeeps(Tables(), ApprovalSafety.Remove(tenant, id, teacher));
      }
      outcome := AssertOwnDraft(tenant, id, teacher);
      if outcome != Done {
        return;
      }
      if IsReferenced(Tables(), id) {
        return Referenced;
      }
      assessments := assessments - {id};
    }

    method AssertOwnDraft(tenant: Id, id: nat, teacher: Id) returns (outcome: Outcome)
      ensures outcome == DraftCheck(Tables(), tenant, id, teacher)
      ensures outcome == Done ==> id in assessments
    {
      if id !in assessments || assessments[id].body.tenant != tenant {
        return AssessmentNotFound;
      }
      if teacher !in assessments[id].body.teachers {
        return NotOwner;
      }
      outcome := if assessments[id].status == DRAFT then Done else NotDraft;
    }

    // ---------- publication ----------

    method Publish(tenant: Id, id: nat, teacher: Id) returns (outcome: Outcome)
      modifies this`assessments, this`log
      ensures (Tables(), outcome) == AfterPublish(old(Tables()), tenant, id, teacher)
      ensures old(Valid(Tables())) ==> Valid(Tables())
    {
      hide Valid;
      if Valid(Tables()) {
        PublishKeeps(Tables(), tenant, id, teacher);
      }
      outcome := AssertOwnDraft(tenant, id, teacher);
      if outcome != Done {
        return;
      }
      if assessments[id].body.content.questions == [] {
        return NoQuestions;
      }
      if assessments[id].body.kind == EXAM && GetConfig(configs, tenant).requireExamApproval {
        outcome := SubmitForApproval(tenant, id, AssessmentResource, teacher);
      } else {
        assessments := assessments[id := assessments[id].(status := PUBLISHED)];
      }
    }

    method PublishApproved(id: nat) returns (outcome: Outcome)
      modifies this`assessments
      ensures (Tables(), outcome) == AfterPublishApproved(old(Tables()), id)
      ensures old(Valid(Tables())) ==> Valid(Tables())
    {
      hide Valid;
      if Valid(Tables()) {
        PublishApprovedKeeps(Tables(), id);
      }
      if id !in assessments {
        return AssessmentNotFound;
      }
      if assessments[id].status != APPROVED {
        return NotApproved;
      }
      assessments := assessments[id := assessments[id].(status := PUBLISHED)];
      outcome := Done;
    }

    // ---------- approval ----------

    method SubmitForApproval(tenant: Id, id: nat, resource: Resource, actor: Id) returns (outcome: Outcome)
      modifies this`assessments, this`log
      ensures (Tables(), outcome) == AfterSubmit(old(Tables()), tenant, id, resource, actor)
      ensures old(Valid(Tables())) ==> Valid(Tables())
    {
      hide Valid;
      if Valid(Tables()) {
        SubmitKeeps(Tables(), tenant, id, resource, actor);
      }
      if id !in assessments {
        return RowMissing;
      }
      if resource == AssessmentResource {
        assessments := assessments[id := assessments[id].(status := PENDING_APPROVAL)];
      }
      log := log + [Entry(tenant, id, resource, Action.Submitted, actor, None)];
      outcome := Done;
    }

    method Approve(tenant: Id, id: nat, resource: Resource, approver: Id, comment: Option<string>)
        returns (outcome: Outcome)
      modifies this`assessments, this`log
      ensures (Tables(), outcome) == AfterApprove(old(Tables()), tenant, id, resource, approver, comment)
      ensures old(Valid(Tables())) ==> Valid(Tables())
    {
      hide Valid;
      if Valid(Tables()) {
        ApproveKeeps(Tables(), tenant, id, resource, approver, comment);
      }
      outcome := ApproverCheck(Tables(), tenant, approver);
      if outcome != Done {
        return;
      }
      if id !in assessments {
        return RowMissing;
      }
      if resource == AssessmentResource {
        assessments := assessments[id := assessments[id].(status := APPROVED, approvedBy := Some(approver))];
      }
      log := log + [Entry(tenant, id, resource, Action.Approved, approver, comment)];
    }

    method Reject(tenant: Id, id: nat, resource: Resource, rejector: Id, reason: Option<string>)
        returns (outcome: Outcome)
      modifies this`assessments, this`log
      ensures (Tables(), outcome) == AfterReject(old(Tables()), tenant, id, resource, rejector, reason)
      ensures old(Valid(Tables())) ==> Valid(Tables())
    {
      hide Valid;
      if Valid(Tables()) {
        RejectKeeps(Tables(), tenant, id, resource, rejector, reason);
      }
      if Blank(reason) {
        return ReasonRequired;
      }
      outcome := ApproverCheck(Tables(), tenant, rejector);
      if outcome != Done {
        return;
      }
      if id !in assessments {
        return RowMissing;
      }
      if resource == AssessmentResource {
        assessments := assessments[id :=
          assessments[id].(status := REJECTED, rejectedBy := Some(rejector), rejectedReason := reason)];
      }
      log := log + [Entry(tenant, id, resource, Action.Rejected, rejector, reason)];
    }

    // ---------- attempts ----------

    method StartSubmission(tenant: Id, id: nat, student: Id, now: int) returns (outcome: Outcome)
      modifies this`attempts
      ensures (Tables(), outcome) == AfterStart(old(Tables()), tenant, id, student, now)
      ensures old(Valid(Tables())) ==> Valid(Tables())
    {
      hide Valid;
      if Valid(Tables()) {
        StartKeeps(Tables(), ApprovalSafety.StartSubmission(tenant, id, student, now));
      }
      if id !in assessments || assessments[id].body.tenant != tenant {
        return AssessmentNotFound;
      }
      var body := assessments[id].body;
      if body.content.startTime.Some? && now < body.content.startTime.value {
        return NotStarted;
      }
      if body.content.endTime.Some? && now > body.content.endTime.value {
        return Ended;
      }
      var made := AttemptsOf(attempts, id, student);
      if made >= body.maxAttempts.GetOr(1) {
        return AttemptsUsedUp;
      }
      attempts := attempts[(id, student) := made + 1];
      outcome := Done;
    }
  }
}
