/**
 What every run of the assessment operations keeps: an assessment that left the draft stage is frozen,
 its status is explained by the approval log, and an exam is published only as an approver approved it.
 Handing it out is another matter: starting a submission does not look at the status.
 */
module ApprovalSafety {
  import opened Basics
  import opened SchoolConfig
  import opened GradingSafety
  import opened ApprovalDb

  datatype Step =
    | Create(tenant: Id, teacher: Id, kind: AssessmentType, content: Content, maxAttempts: Option<nat>,
             isExamComponent: bool, hasTerm: bool)
    | Update(tenant: Id, id: nat, changes: Changes, teacher: Id)
    | Remove(tenant: Id, id: nat, teacher: Id)
    | Publish(tenant: Id, id: nat, teacher: Id)
    | Submit(tenant: Id, id: nat, resource: Resource, actor: Id)
    | Approve(tenant: Id, id: nat, resource: Resource, actor: Id, comment: Option<string>)
    | Reject(tenant: Id, id: nat, resource: Resource, actor: Id, reason: Option<string>)
    | PublishApproved(id: nat)
    | StartSubmission(tenant: Id, id: nat, student: Id, now: int)
    | OtherTables(users: map<Id, User>, configs: map<Id, Config>) // users and configurations change elsewhere

  function Result(db: Db, step: Step): (Db, Outcome) {
    match step
    case Create(tenant, teacher, kind, content, maxAttempts, isExamComponent, hasTerm) =>
      AfterCreate(db, tenant, teacher, kind, content, maxAttempts, isExamComponent, hasTerm)
    case Update(tenant, id, changes, teacher) => AfterUpdate(db, tenant, id, changes, teacher)
    case Remove(tenant, id, teacher) => AfterRemove(db, tenant, id, teacher)
    case Publish(tenant, id, teacher) => AfterPublish(db, tenant, id, teacher)
    case Submit(tenant, id, resource, actor) => AfterSubmit(db, tenant, id, resource, actor)
    case Approve(tenant, id, resource, actor, comment) => AfterApprove(db, tenant, id, resource, actor, comment)
    case Reject(tenant, id, resource, actor, reason) => AfterReject(db, tenant, id, resource, actor, reason)
    case PublishApproved(id) => AfterPublishApproved(db, id)
    case StartSubmission(tenant, id, student, now) => AfterStart(db, tenant, id, student, now)
    case OtherTables(users, configs) => (db.(users := users, configs := configs), Done)
  }

  function After(db: Db, step: Step): Db {
    Result(db, step).0
  }

  /** The tables after the first `n` steps. */
  function StateAt(db: Db, steps: seq<Step>, n: nat): Db
    requires n <= |steps|
  {
    if n == 0 then db else After(StateAt(db, steps, n - 1), steps[n - 1])
  }

  // ---------- out of draft, and frozen ----------

  /** Left the draft stage with this body. */
  ghost predicate Frozen(db: Db, id: nat, body: Body) {
    id in db.assessments && db.assessments[id].status != DRAFT && db.assessments[id].body == body
  }

  lemma StepKeepsFrozen(db: Db, step: Step, id: nat, body: Body)
    requires Frozen(db, id, body) && id < db.nextId
    ensures Frozen(After(db, step), id, body) && id < After(db, step).nextId
  {}

  /** An assessment that left the draft stage never returns to it, is never removed, and never changes. */
  lemma {:induction false} LeftDraftIsFrozen(db: Db, steps: seq<Step>, i: nat, j: nat, id: nat)
    requires i <= j <= |steps|
    requires id in StateAt(db, steps, i).assessments && id < StateAt(db, steps, i).nextId
    requires StateAt(db, steps, i).assessments[id].status != DRAFT
    ensures Frozen(StateAt(db, steps, j), id, StateAt(db, steps, i).assessments[id].body)
    ensures id < StateAt(db, steps, j).nextId
    decreases j
  {
    if i < j {
      LeftDraftIsFrozen(db, steps, i, j - 1, id);
      StepKeepsFrozen(StateAt(db, steps, j - 1), steps[j - 1], id, StateAt(db, steps, i).assessments[id].body);
    }
  }

  function Sending<T>(column: Option<T>): Sent<T> {
    if column.Some? then Value(column.value) else Null
  }

  /** A request that sends every field, null where there is no value. */
  function SendingAll(content: Content): Changes {
    Changes(Value(content.title), Sending(content.instructions), Sending(content.startTime),
            Sending(content.endTime), Sending(content.durationMins),
            Value(content.shuffleQuestions), Value(content.shuffleOptions))
  }

  /** One update turns a draft into any other with the same questions, and touches nothing else. */
  lemma UpdateReachesAnyContent(db: Db, tenant: Id, id: nat, teacher: Id, wanted: Content)
    requires DraftCheck(db, tenant, id, teacher) == Done
    ensures var (after, outcome) := AfterUpdate(db, tenant, id, SendingAll(wanted), teacher);
            && outcome == Done && id in after.assessments
            && after == db.(assessments := db.assessments[id := after.assessments[id]])
            && var a := db.assessments[id];
            after.assessments[id] ==
              a.(body := a.body.(content := wanted.(questions := a.body.content.questions)))
  {}

  // ---------- what every reachable state satisfies ----------

  /** The last thing the log says about the assessment itself. */
  function LastEntry(log: seq<Entry>, id: nat): Option<Entry> {
    if log == [] then None
    else
      var e := log[|log| - 1];
      if e.id == id && e.resource == AssessmentResource then Some(e) else LastEntry(log[..|log| - 1], id)
  }

  predicate LastWas(last: Option<Entry>, action: Action) {
    last.Some? && last.value.action == action
  }

  /** The status, and the columns that go with it, are what the last entry stands for. */
  predicate Explains(last: Option<Entry>, a: Assessment) {
    match a.status
    case DRAFT => last == None
    case PENDING_APPROVAL => LastWas(last, Action.Submitted)
    case APPROVED => LastWas(last, Action.Approved) && a.approvedBy == Some(last.value.actor)
    case REJECTED =>
      LastWas(last, Action.Rejected) && a.rejectedBy == Some(last.value.actor)
      && a.rejectedReason == last.value.comment && !Blank(a.rejectedReason)
    case PUBLISHED => last == None || (LastWas(last, Action.Approved) && a.approvedBy == Some(last.value.actor))
  }

  ghost predicate QuestionsFit(body: Body) {
    && body.totalMarks == TotalMarks(body.content.questions)
    && forall q :: q in body.content.questions ==> (q.isAutoGradable <==> AutoGradable(q.kind))
  }

  ghost predicate AttemptsFit(db: Db, key: (nat, Id)) {
    key in db.attempts && db.attempts[key] > 0 ==>
      key.0 in db.assessments && db.attempts[key] <= db.assessments[key.0].body.maxAttempts.GetOr(1)
  }

  ghost predicate Valid(db: Db) {
    && (forall id :: id in db.assessments ==> id < db.nextId)
    && (forall id :: id in db.assessments ==> Explains(LastEntry(db.log, id), db.assessments[id]))
    && (forall id :: id in db.assessments ==> QuestionsFit(db.assessments[id].body))
    && (forall e :: e in db.log ==> e.id in db.assessments)
    && (forall key: (nat, Id) :: AttemptsFit(db, key))
  }

  lemma NothingYet(users: map<Id, User>, configs: map<Id, Config>)
    ensures Valid(Db(users, configs, map[], [], map[], 0))
  {}

  lemma {:induction false} RowsKeepMarks(questions: seq<Question>)
    ensures TotalMarks(QuestionRows(questions)) == TotalMarks(questions)
    ensures forall q :: q in QuestionRows(questions) ==> (q.isAutoGradable <==> AutoGradable(q.kind))
  {
    if questions != [] {
      RowsKeepMarks(questions[1..]);
      assert QuestionRows(questions)[1..] == QuestionRows(questions[1..]);
    }
  }

  lemma {:induction false} NeverLogged(log: seq<Entry>, id: nat)
    requires forall e :: e in log ==> e.id != id
    ensures LastEntry(log, id) == None
  {
    if log != [] {
      assert log[|log| - 1] in log;
      NeverLogged(log[..|log| - 1], id);
    }
  }

  lemma LoggedLast(log: seq<Entry>, e: Entry, id: nat)
    ensures LastEntry(log + [e], id) ==
            if e.id == id && e.resource == AssessmentResource then Some(e) else LastEntry(log, id)
  {
    assert (log + [e])[..|log|] == log;
  }

  lemma CreateKeeps(db: Db, step: Step)
    requires Valid(db) && step.Create?
    ensures Valid(After(db, step))
  {
    var after := After(db, step);
    RowsKeepMarks(step.content.questions);
    NeverLogged(db.log, db.nextId);
    forall key: (nat, Id) ensures AttemptsFit(after, key) {
      assert AttemptsFit(db, key);
    }
  }

  /** A step that changes one assessment's row, but neither its questions nor its attempt limit. */
  lemma RowKeeps(db: Db, after: Db, id: nat)
    requires Valid(db) && id in db.assessments && id in after.assessments
    requires after.assessments == db.assessments[id := after.assessments[id]] && after.nextId == db.nextId
    requires after.attempts == db.attempts
    requires after.log == db.log || exists e :: after.log == db.log + [e] && e.id == id
    requires Explains(LastEntry(after.log, id), after.assessments[id])
    requires var old_, new_ := db.assessments[id].body, after.assessments[id].body;
             new_ == old_.(content := new_.content) && new_.content.questions == old_.content.questions
    ensures Valid(after)
  {
    forall other | other in after.assessments && other != id
      ensures Explains(LastEntry(after.log, other), after.assessments[other])
    {
      if after.log != db.log {
        var e :| after.log == db.log + [e] && e.id == id;
        LoggedLast(db.log, e, other);
      }
    }
    assert QuestionsFit(db.assessments[id].body);
    forall key: (nat, Id) ensures AttemptsFit(after, key) {
      assert AttemptsFit(db, key);
    }
  }

  lemma RemoveKeeps(db: Db, step: Step)
    requires Valid(db) && step.Remove?
    ensures Valid(After(db, step))
  {
    var after := After(db, step);
    if after != db {
      assert !IsReferenced(db, step.id);
      forall key: (nat, Id) ensures AttemptsFit(after, key) {
        assert AttemptsFit(db, key);
      }
    }
  }

  lemma StartKeeps(db: Db, step: Step)
    requires Valid(db) && step.StartSubmission?
    ensures Valid(After(db, step))
  {
    var after := After(db, step);
    forall key: (nat, Id) ensures AttemptsFit(after, key) {
      assert AttemptsFit(db, key);
    }
  }

  lemma UpdateKeeps(db: Db, tenant: Id, id: nat, changes: Changes, teacher: Id)
    requires Valid(db)
    ensures Valid(AfterUpdate(db, tenant, id, changes, teacher).0)
  {
    hide Valid;
    var (after, outcome) := AfterUpdate(db, tenant, id, changes, teacher);
    if outcome == Done {
      StatusExplained(db, id);
      RowKeeps(db, after, id);
    }
  }

  /** An entry about this assessment, and the status it stands for. */
  lemma LoggedKeeps(db: Db, after: Db, id: nat, e: Entry)
    requires Valid(db) && id in db.assessments && id in after.assessments
    requires after == db.(assessments := db.assessments[id := after.assessments[id]], log := db.log + [e]) && e.id == id
    requires after.assessments[id].body == db.assessments[id].body
    requires if e.resource == AssessmentResource then Explains(Some(e), after.assessments[id])
             else after.assessments[id] == db.assessments[id]
    ensures Valid(after)
  {
    hide Valid;
    StatusExplained(db, id);
    LoggedLast(db.log, e, id);
    RowKeeps(db, after, id);
  }

  lemma StatusExplained(db: Db, id: nat)
    requires Valid(db) && id in db.assessments
    ensures Explains(LastEntry(db.log, id), db.assessments[id])
  {}

  lemma SubmitKeeps(db: Db, tenant: Id, id: nat, resource: Resource, actor: Id)
    requires Valid(db)
    ensures Valid(AfterSubmit(db, tenant, id, resource, actor).0)
  {
    hide Valid;
    var (after, outcome) := AfterSubmit(db, tenant, id, resource, actor);
    if outcome == Done {
      assert db.assessments == db.assessments[id := db.assessments[id]];
      LoggedKeeps(db, after, id, Entry(tenant, id, resource, Action.Submitted, actor, None));
    }
  }

  lemma ApproveKeeps(db: Db, tenant: Id, id: nat, resource: Resource, approver: Id, comment: Option<string>)
    requires Valid(db)
    ensures Valid(AfterApprove(db, tenant, id, resource, approver, comment).0)
  {
    hide Valid;
    var (after, outcome) := AfterApprove(db, tenant, id, resource, approver, comment);
    if outcome == Done {
      assert db.assessments == db.assessments[id := db.assessments[id]];
      LoggedKeeps(db, after, id, Entry(tenant, id, resource, Action.Approved, approver, comment));
    }
  }

  lemma RejectKeeps(db: Db, tenant: Id, id: nat, resource: Resource, rejector: Id, reason: Option<string>)
    requires Valid(db)
    ensures Valid(AfterReject(db, tenant, id, resource, rejector, reason).0)
  {
    hide Valid;
    var (after, outcome) := AfterReject(db, tenant, id, resource, rejector, reason);
    if outcome == Done {
      assert db.assessments == db.assessments[id := db.assessments[id]];
      LoggedKeeps(db, after, id, Entry(tenant, id, resource, Action.Rejected, rejector, reason));
    }
  }

  lemma PublishKeeps(db: Db, tenant: Id, id: nat, teacher: Id)
    requires Valid(db)
    ensures Valid(AfterPublish(db, tenant, id, teacher).0)
  {
    hide Valid, AfterSubmit;
    SubmitKeeps(db, tenant, id, AssessmentResource, teacher);
    if id in db.assessments && db.assessments[id].status == DRAFT {
      StatusExplained(db, id);
      RowKeeps(db, WithStatus(db, id, PUBLISHED), id);
    }
  }

  lemma PublishApprovedKeeps(db: Db, id: nat)
    requires Valid(db)
    ensures Valid(AfterPublishApproved(db, id).0)
  {
    hide Valid;
    if AfterPublishApproved(db, id).1 == Done {
      StatusExplained(db, id);
      RowKeeps(db, WithStatus(db, id, PUBLISHED), id);
    }
  }

  lemma StepKeeps(db: Db, step: Step)
    requires Valid(db)
    ensures Valid(After(db, step))
  {
    OtherTablesKeep(db, After(db, step));
    hide Valid, AfterUpdate, AfterPublish, AfterSubmit, AfterApprove, AfterReject, AfterPublishApproved;
    match step
    case Create(_, _, _, _, _, _, _) => CreateKeeps(db, step);
    case Update(tenant, id, changes, teacher) => UpdateKeeps(db, tenant, id, changes, teacher);
    case Remove(_, _, _) => RemoveKeeps(db, step);
    case Publish(tenant, id, teacher) => PublishKeeps(db, tenant, id, teacher);
    case Submit(tenant, id, resource, actor) => SubmitKeeps(db, tenant, id, resource, actor);
    case Approve(tenant, id, resource, actor, comment) => ApproveKeeps(db, tenant, id, resource, actor, comment);
    case Reject(tenant, id, resource, actor, reason) => RejectKeeps(db, tenant, id, resource, actor, reason);
    case PublishApproved(id) => PublishApprovedKeeps(db, id);
    case StartSubmission(_, _, _, _) => StartKeeps(db, step);
    case OtherTables(_, _) =>
  }

  lemma OtherTablesKeep(db: Db, after: Db)
    requires Valid(db)
    ensures after == db.(users := after.users, configs := after.configs) ==> Valid(after)
  {
    if after == db.(users := after.users, configs := after.configs) {
      forall key: (nat, Id) ensures AttemptsFit(after, key) {
        assert AttemptsFit(db, key);
      }
    }
  }

  /** Over every run: statuses follow the log, total marks follow the questions, attempts stay within the limit. */
  lemma {:induction false} RunKeeps(db: Db, steps: seq<Step>, n: nat)
    requires Valid(db) && n <= |steps|
    ensures Valid(StateAt(db, steps, n))
  {
    if n > 0 {
      RunKeeps(db, steps, n - 1);
      StepKeeps(StateAt(db, steps, n - 1), steps[n - 1]);
    }
  }

  /** In every state reached from empty tables. */
  lemma ReachableIsValid(users: map<Id, User>, configs: map<Id, Config>, steps: seq<Step>, n: nat)
    requires n <= |steps|
    ensures Valid(StateAt(Db(users, configs, map[], [], map[], 0), steps, n))
  {
    NothingYet(users, configs);
    RunKeeps(Db(users, configs, map[], [], map[], 0), steps, n);
  }

  // ---------- what was approved is what is published ----------

  /** The step is an approval of this body by someone who holds an approver role, and is logged. */
  ghost predicate Approves(before: Db, step: Step, id: nat, body: Body) {
    && step.Approve? && step.id == id && step.resource == AssessmentResource
    && IsApprover(before.users, step.tenant, step.actor)
    && id in before.assessments && before.assessments[id].body == body
    && var after := After(before, step);
    && Frozen(after, id, body) && after.assessments[id].status == APPROVED
    && after.log == before.log + [Approval(step, id)]
  }

  function Approval(step: Step, id: nat): Entry
    requires step.Approve?
  {
    Entry(step.tenant, id, AssessmentResource, Action.Approved, step.actor, step.comment)
  }

  /** The step publishes this body straight from draft, no approval being needed. */
  ghost predicate PublishesFreely(before: Db, step: Step, id: nat, body: Body) {
    && step.Publish? && step.id == id
    && InTenant(before, id, step.tenant) && before.assessments[id].status == DRAFT
    && before.assessments[id].body == body
    && !NeedsApproval(before, id, step.tenant)
    && var after := After(before, step);
    && Frozen(after, id, body) && after.assessments[id].status == PUBLISHED
  }

  ghost predicate Cleared(db: Db, steps: seq<Step>, k: nat, id: nat, body: Body) {
    && k < |steps|
    && (Approves(StateAt(db, steps, k), steps[k], id, body)
      || PublishesFreely(StateAt(db, steps, k), steps[k], id, body))
  }

  /** The assessment is still to be created, or a draft. */
  predicate NotYetOut(db: Db, id: nat) {
    id in db.assessments ==> db.assessments[id].status == DRAFT
  }

  predicate Out(db: Db, id: nat) {
    id in db.assessments && (db.assessments[id].status == APPROVED || db.assessments[id].status == PUBLISHED)
  }

  lemma MostStepsDoNotApprove(before: Db, step: Step, id: nat)
    requires !step.Approve?
    requires var after := After(before, step); id in after.assessments && after.assessments[id].status == APPROVED
    ensures id in before.assessments && before.assessments[id].status == APPROVED
    ensures before.assessments[id].body == After(before, step).assessments[id].body
  {
    hide QuestionRows, Changed, IsReferenced, AttemptsOf, Blank, WeightsConfigured, TotalMarks, ApproverCheck,
      GetConfig;
  }

  lemma OnlyApprovalApproves(before: Db, step: Step, id: nat)
    requires var after := After(before, step); id in after.assessments && after.assessments[id].status == APPROVED
    ensures var body := After(before, step).assessments[id].body;
            || Approves(before, step, id, body)
            || (id in before.assessments && before.assessments[id].status == APPROVED
              && before.assessments[id].body == body)
  {
    if !step.Approve? {
      hide After, Approves;
      MostStepsDoNotApprove(before, step, id);
    }
  }

  lemma MostStepsDoNotPublish(before: Db, step: Step, id: nat)
    requires !step.Publish? && !step.PublishApproved?
    requires var after := After(before, step); id in after.assessments && after.assessments[id].status == PUBLISHED
    ensures Out(before, id) && before.assessments[id].body == After(before, step).assessments[id].body
  {
    hide QuestionRows, Changed, IsReferenced, AttemptsOf, Blank, WeightsConfigured, TotalMarks, ApproverCheck,
      GetConfig;
  }

  lemma OnlyTwoWaysToPublish(before: Db, step: Step, id: nat)
    requires var after := After(before, step); id in after.assessments && after.assessments[id].status == PUBLISHED
    ensures var body := After(before, step).assessments[id].body;
            || PublishesFreely(before, step, id, body)
            || (Out(before, id) && before.assessments[id].body == body)
  {
    if !step.Publish? && !step.PublishApproved? {
      hide After, PublishesFreely;
      MostStepsDoNotPublish(before, step, id);
    }
  }

  /** A step that brings an assessment out is an approval or a free publication; any other finds it out already. */
  lemma StepBringsOut(before: Db, step: Step, id: nat)
    requires Out(After(before, step), id)
    ensures var body := After(before, step).assessments[id].body;
            || Approves(before, step, id, body) || PublishesFreely(before, step, id, body)
            || (Out(before, id) && before.assessments[id].body == body)
  {
    hide After, Approves, PublishesFreely;
    if After(before, step).assessments[id].status == APPROVED {
      OnlyApprovalApproves(before, step, id);
    } else {
      OnlyTwoWaysToPublish(before, step, id);
    }
  }

  /** The step takes an assessment back: it is submitted for approval anew, or rejected. */
  ghost predicate SentBack(before: Db, step: Step, id: nat) {
    && (step.Submit? || step.Reject?) && step.id == id && step.resource == AssessmentResource
    && Result(before, step).1 == Done
  }

  lemma SendingBackEnds(before: Db, step: Step, id: nat)
    requires SentBack(before, step, id)
    ensures !Out(After(before, step), id)
  {}

  lemma OnlySendingBackEnds(before: Db, step: Step, id: nat)
    requires Out(before, id) && id < before.nextId && !SentBack(before, step, id)
    ensures Out(After(before, step), id)
  {
    hide QuestionRows, Changed, IsReferenced, AttemptsOf, WeightsConfigured, TotalMarks, GetConfig;
  }

  /** Cleared at step k, and sent back by no later step. */
  ghost predicate ClearedSince(db: Db, steps: seq<Step>, k: nat, n: nat, id: nat, body: Body) {
    && k < n <= |steps| && Cleared(db, steps, k, id, body)
    && forall j :: k < j < n ==> !SentBack(StateAt(db, steps, j), steps[j], id)
  }

  lemma StillCleared(db: Db, steps: seq<Step>, k: nat, n: nat, id: nat, body: Body)
    requires ClearedSince(db, steps, k, n, id, body) && n < |steps|
    requires !SentBack(StateAt(db, steps, n), steps[n], id)
    ensures ClearedSince(db, steps, k, n + 1, id, body)
  {
    hide SentBack, Cleared;
  }

  /** Whatever is approved or published was cleared by an earlier step, with the very content it has now. */
  lemma {:induction false} OutWasCleared(db: Db, steps: seq<Step>, n: nat, id: nat) returns (k: nat)
    requires n <= |steps| && NotYetOut(db, id) && Out(StateAt(db, steps, n), id)
    ensures ClearedSince(db, steps, k, n, id, StateAt(db, steps, n).assessments[id].body)
    ensures forall j :: k < j <= n ==> Out(StateAt(db, steps, j), id)
  {
    var body := StateAt(db, steps, n).assessments[id].body;
    var before, step := StateAt(db, steps, n - 1), steps[n - 1];
    StepBringsOut(before, step, id);
    hide After, Approves, PublishesFreely, Out, SentBack;
    if Cleared(db, steps, n - 1, id, body) {
      k := n - 1;
    } else {
      k := OutWasCleared(db, steps, n - 1, id);
      hide Cleared, ClearedSince;
      if SentBack(before, step, id) {
        SendingBackEnds(before, step, id);
      }
      StillCleared(db, steps, k, n - 1, id, body);
    }
  }

  /** Cleared content stays out until it is sent back. */
  lemma {:induction false} ClearedStaysOut(db: Db, steps: seq<Step>, k: nat, n: nat, id: nat, body: Body)
    requires Valid(db) && ClearedSince(db, steps, k, n, id, body)
    ensures Out(StateAt(db, steps, n), id)
    decreases n
  {
    hide Valid, After, Out, SentBack;
    if n == k + 1 {
      ClearedIsOut(db, steps, k, id, body);
    } else {
      ClearedStaysOut(db, steps, k, n - 1, id, body);
      RunKeeps(db, steps, n - 1);
      RowNumbered(StateAt(db, steps, n - 1), id);
      OnlySendingBackEnds(StateAt(db, steps, n - 1), steps[n - 1], id);
    }
  }

  lemma ClearedIsOut(db: Db, steps: seq<Step>, k: nat, id: nat, body: Body)
    requires Cleared(db, steps, k, id, body)
    ensures Out(StateAt(db, steps, k + 1), id)
  {
    hide After;
  }

  lemma RowNumbered(db: Db, id: nat)
    requires Valid(db) && Out(db, id)
    ensures id < db.nextId
  {}

  /** The school required exam approval whenever the assessment's own teachers could ask to publish it. */
  ghost predicate AlwaysRequired(db: Db, steps: seq<Step>, id: nat) {
    forall k :: 0 <= k < |steps| && steps[k].Publish? && steps[k].id == id
                && InTenant(StateAt(db, steps, k), id, steps[k].tenant) ==>
      GetConfig(StateAt(db, steps, k).configs, steps[k].tenant).requireExamApproval
  }

  lemma StepLogGrows(db: Db, step: Step)
    ensures db.log <= After(db, step).log
  {}

  lemma {:induction false} LogGrows(db: Db, steps: seq<Step>, i: nat, j: nat)
    requires i <= j <= |steps|
    ensures StateAt(db, steps, i).log <= StateAt(db, steps, j).log
    decreases j
  {
    hide After;
    if i < j {
      LogGrows(db, steps, i, j - 1);
      StepLogGrows(StateAt(db, steps, j - 1), steps[j - 1]);
    }
  }

  /** Step k approved the exam with this body, and the log says so. */
  ghost predicate ApprovedAt(db: Db, steps: seq<Step>, k: nat, n: nat, id: nat, body: Body) {
    && k < n <= |steps| && Approves(StateAt(db, steps, k), steps[k], id, body)
    && Approval(steps[k], id) in StateAt(db, steps, n).log
  }

  lemma {:induction false} OutExamWasApproved(db: Db, steps: seq<Step>, n: nat, id: nat) returns (k: nat)
    requires n <= |steps| && NotYetOut(db, id) && AlwaysRequired(db, steps, id)
    requires Out(StateAt(db, steps, n), id) && StateAt(db, steps, n).assessments[id].body.kind == EXAM
    ensures ApprovedAt(db, steps, k, n, id, StateAt(db, steps, n).assessments[id].body)
    ensures forall j :: k < j <= n ==> Out(StateAt(db, steps, j), id)
  {
    hide After;
    var body := StateAt(db, steps, n).assessments[id].body;
    k := OutWasCleared(db, steps, n, id);
    assert !PublishesFreely(StateAt(db, steps, k), steps[k], id, body);
    LogGrows(db, steps, k + 1, n);
    assert StateAt(db, steps, k + 1).log[|StateAt(db, steps, k).log|] == Approval(steps[k], id);
  }

  /**
   An exam published while approval is required was approved at an earlier step by a holder of an
   approver role, with exactly the content it was published with, and the log says so.
   */
  lemma {:induction false} PublishedExamWasApproved(db: Db, steps: seq<Step>, id: nat) returns (k: nat)
    requires NotYetOut(db, id) && AlwaysRequired(db, steps, id)
    requires var end := StateAt(db, steps, |steps|);
             id in end.assessments && end.assessments[id].body.kind == EXAM && end.assessments[id].status == PUBLISHED
    ensures ApprovedAt(db, steps, k, |steps|, id, StateAt(db, steps, |steps|).assessments[id].body)
  {
    hide StateAt, AlwaysRequired, ApprovedAt;
    k := OutExamWasApproved(db, steps, |steps|, id);
  }

  // ---------- whose approver ----------

  /** The approver is checked against the caller's school, the assessment against none. */
  lemma ApprovedByOwnSchoolIff(db: Db, tenant: Id, id: nat, approver: Id, comment: Option<string>)
    requires AfterApprove(db, tenant, id, AssessmentResource, approver, comment).1 == Done
    ensures id in db.assessments
    ensures IsApprover(db.users, db.assessments[id].body.tenant, approver) <==> db.assessments[id].body.tenant == tenant
  {}

  /** The head of another school approves an exam, which can then be published. */
  lemma ForeignApproverApproves()
    ensures var users := map["head" := User("other", "PRINCIPAL")];
            var steps := [Create("school", "teacher", EXAM, PAPER, None, false, true),
                          Approve("other", 0, AssessmentResource, "head", None)];
            var end := StateAt(Db(users, map[], map[], [], map[], 0), steps, 2);
            0 in end.assessments && end.assessments[0].status == APPROVED && end.assessments[0].body.tenant == "school"
  {
    var users := map["head" := User("other", "PRINCIPAL")];
    var steps := [Create("school", "teacher", EXAM, PAPER, None, false, true),
                  Approve("other", 0, AssessmentResource, "head", None)];
    var db := Db(users, map[], map[], [], map[], 0);
    assert StateAt(db, steps, 0) == db;
    var created := StateAt(db, steps, 1);
    assert 0 in created.assessments && created.assessments[0].body.tenant == "school" && created.users == users;
    assert "PRINCIPAL" == APPROVER_ROLES[0];
  }

  // ---------- what is handed out ----------

  /** The step starts a submission: a student is given the questions of this assessment. */
  ghost predicate HandsOut(before: Db, step: Step, id: nat) {
    step.StartSubmission? && step.id == id && Result(before, step).1 == Done
  }

  lemma HandedOutExists(before: Db, step: Step, id: nat)
    requires HandsOut(before, step, id)
    ensures id in before.assessments
  {}

  ghost predicate ClearedContent(db: Db, steps: seq<Step>, n: nat, id: nat, body: Body) {
    exists k :: ClearedSince(db, steps, k, n, id, body)
  }

  /**
   A student was given content that an earlier step had cleared, and that no later step had sent back, if
   and only if the assessment was approved or published at that moment: a check that starting a submission
   does not make.
   */
  lemma {:induction false} HandsOutClearedIff(db: Db, steps: seq<Step>, n: nat, id: nat)
    requires n < |steps| && Valid(db) && NotYetOut(db, id) && HandsOut(StateAt(db, steps, n), steps[n], id)
    ensures id in StateAt(db, steps, n).assessments
    ensures ClearedContent(db, steps, n, id, StateAt(db, steps, n).assessments[id].body) <==>
      Out(StateAt(db, steps, n), id)
  {
    hide Valid, After, ClearedSince, HandsOut, Out;
    HandedOutExists(StateAt(db, steps, n), steps[n], id);
    var body := StateAt(db, steps, n).assessments[id].body;
    if Out(StateAt(db, steps, n), id) {
      var k := OutWasCleared(db, steps, n, id);
      assert ClearedSince(db, steps, k, n, id, body);
    }
    if ClearedContent(db, steps, n, id, body) {
      var k :| ClearedSince(db, steps, k, n, id, body);
      ClearedStaysOut(db, steps, k, n, id, body);
    }
  }

  const PAPER: Content := Content("Mathematics", None, None, None, None, false, false, [CHOICE])

  /** An exam that was only just created, in a school that requires approval, is handed out on request. */
  lemma DraftExamIsHandedOut()
    ensures var steps := [Create("school", "teacher", EXAM, PAPER, None, false, true),
                          StartSubmission("school", 0, "student", 0)];
            var before := StateAt(Db(map[], map[], map[], [], map[], 0), steps, 1);
            && Valid(before) && 0 in before.assessments && before.assessments[0].status == DRAFT
            && NeedsApproval(before, 0, "school") && before.log == []
            && HandsOut(before, steps[1], 0) && !Out(before, 0)
  {
    var steps := [Create("school", "teacher", EXAM, PAPER, None, false, true),
                  StartSubmission("school", 0, "student", 0)];
    ReachableIsValid(map[], map[], steps, 1);
    hide Valid;
    assert StateAt(Db(map[], map[], map[], [], map[], 0), steps, 0) == Db(map[], map[], map[], [], map[], 0);
  }
}
