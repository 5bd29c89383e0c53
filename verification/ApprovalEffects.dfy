/** What each operation on an assessment answers, and what its row and the log hold afterwards. */
module ApprovalEffects {
  import opened Basics
  import opened SchoolConfig
  import opened GradingSafety
  import opened ApprovalDb

  /** Only the row of this assessment is written. */
  ghost predicate RowWritten(db: Db, after: Db, id: nat) {
    id in after.assessments
      && after == db.(assessments := db.assessments[id := after.assessments[id]], log := after.log)
  }

  // ---------- drafts ----------

  /** A draft of the teacher's own, with the request's content and the marks of its questions. */
  lemma CreateMakesDraft(db: Db, tenant: Id, teacher: Id, kind: AssessmentType, content: Content,
      maxAttempts: Option<nat>, isExamComponent: bool, hasTerm: bool)
    ensures var (after, outcome) :=
      AfterCreate(db, tenant, teacher, kind, content, maxAttempts, isExamComponent, hasTerm);
            var config := GetConfig(db.configs, tenant);
            && outcome == (if !hasTerm then NoActiveTerm
                           else if isExamComponent && config.caWeight + config.examWeight != 100
                           then WeightsNotConfigured
                           else Done)
            && (outcome != Done ==> after == db)
            && (outcome == Done ==>
                && after.nextId == db.nextId + 1 && after.log == db.log && after.attempts == db.attempts
                && after.users == db.users && after.configs == db.configs
                && db.nextId in after.assessments
                && after.assessments == db.assessments[db.nextId := after.assessments[db.nextId]]
                && var a := after.assessments[db.nextId];
                && a.status == DRAFT && a.approvedBy == None && a.rejectedBy == None && a.rejectedReason == None
                && a.body.tenant == tenant && a.body.kind == kind && a.body.teachers == [teacher]
                && a.body.totalMarks == TotalMarks(content.questions)
                && a.body.maxAttempts == (if maxAttempts == None then Some(1) else maxAttempts)
                && a.body.content == content.(questions := a.body.content.questions)
                && AsRows(content.questions, a.body.content.questions))
  {
    RowsOfQuestions(content.questions);
  }

  /** The same questions, gradable without a teacher exactly for choices, true or false, and blanks. */
  ghost predicate AsRows(questions: seq<Question>, rows: seq<Question>) {
    && |rows| == |questions|
    && forall k :: 0 <= k < |rows| ==>
         && rows[k] == questions[k].(isAutoGradable := rows[k].isAutoGradable)
         && (rows[k].isAutoGradable <==>
             rows[k].kind != Grading.ESSAY && rows[k].kind != Grading.SHORT_ANSWER)
  }

  lemma {:induction false} RowsOfQuestions(questions: seq<Question>)
    ensures AsRows(questions, QuestionRows(questions))
  {
    if questions != [] {
      RowsOfQuestions(questions[1..]);
    }
  }

  /** What every operation on a draft answers first. */
  ghost predicate OwnDraft(db: Db, tenant: Id, id: nat, teacher: Id) {
    && id in db.assessments && db.assessments[id].body.tenant == tenant
    && teacher in db.assessments[id].body.teachers && db.assessments[id].status == DRAFT
  }

  ghost predicate RefusedDraft(db: Db, tenant: Id, id: nat, teacher: Id, outcome: Outcome) {
    || (outcome == AssessmentNotFound && !(id in db.assessments && db.assessments[id].body.tenant == tenant))
    || (outcome == NotOwner && id in db.assessments && db.assessments[id].body.tenant == tenant
        && teacher !in db.assessments[id].body.teachers)
    || (outcome == NotDraft && id in db.assessments && db.assessments[id].body.tenant == tenant
        && teacher in db.assessments[id].body.teachers && db.assessments[id].status != DRAFT)
  }

  /** A column whose field is left out is as it was, one sent as null is null, one sent with a value holds it. */
  ghost predicate Holds<T(!new)>(before: Option<T>, sent: Sent<T>, after: Option<T>) {
    && (sent == Absent ==> after == before)
    && (sent == Null ==> after == None)
    && forall v :: sent == Value(v) ==> after == Some(v)
  }

  lemma UpdateWritesSentFields(db: Db, tenant: Id, id: nat, changes: Changes, teacher: Id)
    ensures var (after, outcome) := AfterUpdate(db, tenant, id, changes, teacher);
            && (!OwnDraft(db, tenant, id, teacher) ==> RefusedDraft(db, tenant, id, teacher, outcome))
            && (OwnDraft(db, tenant, id, teacher) ==>
                (outcome == NullRefused <==>
                 changes.title == Null || changes.shuffleQuestions == Null || changes.shuffleOptions == Null)
                && (outcome == NullRefused || outcome == Done))
            && (outcome != Done ==> after == db)
            && (outcome == Done ==>
                && RowWritten(db, after, id) && after.log == db.log && id in db.assessments
                && var a, w := db.assessments[id], after.assessments[id];
                && w == a.(body := a.body.(content := w.body.content))
                && var c, d := a.body.content, w.body.content;
                && d.questions == c.questions
                && Holds(Some(c.title), changes.title, Some(d.title))
                && Holds(c.instructions, changes.instructions, d.instructions)
                && Holds(c.startTime, changes.startTime, d.startTime)
                && Holds(c.endTime, changes.endTime, d.endTime)
                && Holds(c.durationMins, changes.durationMins, d.durationMins)
                && Holds(Some(c.shuffleQuestions), changes.shuffleQuestions, Some(d.shuffleQuestions))
                && Holds(Some(c.shuffleOptions), changes.shuffleOptions, Some(d.shuffleOptions)))
  {}

  /** The row of an own draft goes unless a log entry or an attempt refers to it. */
  lemma RemoveDeletesDraft(db: Db, tenant: Id, id: nat, teacher: Id)
    ensures var (after, outcome) := AfterRemove(db, tenant, id, teacher);
            && (!OwnDraft(db, tenant, id, teacher) ==> RefusedDraft(db, tenant, id, teacher, outcome))
            && (OwnDraft(db, tenant, id, teacher) ==>
                outcome == if (exists e :: e in db.log && e.id == id) || Attempted(db, id) then Referenced else Done)
            && (outcome != Done ==> after == db)
            && (outcome == Done ==> after == db.(assessments := db.assessments - {id}))
  {}

  ghost predicate Attempted(db: Db, id: nat) {
    exists k :: k in db.attempts && k.0 == id && db.attempts[k] > 0
  }

  // ---------- publication ----------

  /** An entry of the log about this assessment is added, and no other. */
  predicate EntryAdded(db: Db, after: Db, tenant: Id, id: nat, resource: Resource, action: Action, actor: Id,
      comment: Option<string>) {
    after.log == db.log + [Entry(tenant, id, resource, action, actor, comment)]
  }

  /**
   An own draft with questions: an exam in a school that requires approval waits for it, and the log says
   so; anything else is published at once, and the log says nothing.
   */
  lemma PublishByKind(db: Db, tenant: Id, id: nat, teacher: Id)
    ensures var (after, outcome) := AfterPublish(db, tenant, id, teacher);
            && (!OwnDraft(db, tenant, id, teacher) ==> RefusedDraft(db, tenant, id, teacher, outcome))
            && (OwnDraft(db, tenant, id, teacher) ==>
                outcome == if db.assessments[id].body.content.questions == [] then NoQuestions else Done)
            && (outcome != Done ==> after == db)
            && (outcome == Done ==>
                && id in db.assessments && RowWritten(db, after, id)
                && var a := db.assessments[id];
                if a.body.kind == EXAM && GetConfig(db.configs, tenant).requireExamApproval then
                  && after.assessments[id] == a.(status := PENDING_APPROVAL)
                  && EntryAdded(db, after, tenant, id, AssessmentResource, Action.Submitted, teacher, None)
                else
                  after.assessments[id] == a.(status := PUBLISHED) && after.log == db.log)
  {}

  /** Only an approved assessment is published this way, and only its status changes. */
  lemma PublishApprovedPublishes(db: Db, id: nat)
    ensures var (after, outcome) := AfterPublishApproved(db, id);
            && outcome == (if id !in db.assessments then AssessmentNotFound
                           else if db.assessments[id].status != APPROVED then NotApproved else Done)
            && (outcome != Done ==> after == db)
            && (outcome == Done ==>
                id in db.assessments && after == db.(assessments := db.assessments[id := after.assessments[id]])
                && after.assessments[id] == db.assessments[id].(status := PUBLISHED))
  {}

  // ---------- approval ----------

  lemma SubmitMarksAndLogs(db: Db, tenant: Id, id: nat, resource: Resource, actor: Id)
    ensures var (after, outcome) := AfterSubmit(db, tenant, id, resource, actor);
            && outcome == (if id in db.assessments then Done else RowMissing)
            && (outcome != Done ==> after == db)
            && (outcome == Done ==>
                && id in db.assessments && RowWritten(db, after, id)
                && EntryAdded(db, after, tenant, id, resource, Action.Submitted, actor, None)
                && after.assessments[id] ==
                     if resource == AssessmentResource then db.assessments[id].(status := PENDING_APPROVAL)
                     else db.assessments[id])
  {}

  predicate HasRole(db: Db, tenant: Id, user: Id) {
    && user in db.users && db.users[user].tenant == tenant
    && (db.users[user].role == "PRINCIPAL" || db.users[user].role == "HEAD_TEACHER"
        || db.users[user].role == "VICE_PRINCIPAL" || db.users[user].role == "ASST_HEAD_TEACHER"
        || db.users[user].role == "HOD" || db.users[user].role == "SCHOOL_OWNER")
  }

  lemma Roles(role: Id)
    ensures role in APPROVER_ROLES <==>
      || role == "PRINCIPAL" || role == "HEAD_TEACHER" || role == "VICE_PRINCIPAL" || role == "ASST_HEAD_TEACHER"
      || role == "HOD" || role == "SCHOOL_OWNER"
  {
    assert APPROVER_ROLES[0] == "PRINCIPAL" && APPROVER_ROLES[1] == "HEAD_TEACHER";
    assert APPROVER_ROLES[2] == "VICE_PRINCIPAL" && APPROVER_ROLES[3] == "ASST_HEAD_TEACHER";
    assert APPROVER_ROLES[4] == "HOD" && APPROVER_ROLES[5] == "SCHOOL_OWNER";
  }

  lemma ApproveMarksAndLogs(db: Db, tenant: Id, id: nat, resource: Resource, approver: Id, comment: Option<string>)
    ensures var (after, outcome) := AfterApprove(db, tenant, id, resource, approver, comment);
            && (outcome == Done <==> HasRole(db, tenant, approver) && id in db.assessments)
            && (outcome == UserNotFound <==> !(approver in db.users && db.users[approver].tenant == tenant))
            && (outcome == RowMissing <==> HasRole(db, tenant, approver) && id !in db.assessments)
            && (outcome != Done ==> after == db)
            && (outcome == Done ==>
                && RowWritten(db, after, id)
                && EntryAdded(db, after, tenant, id, resource, Action.Approved, approver, comment)
                && after.assessments[id] ==
                     if resource == AssessmentResource
                     then db.assessments[id].(status := APPROVED, approvedBy := Some(approver)) else db.assessments[id])
  {
    if approver in db.users {
      Roles(db.users[approver].role);
    }
  }

  /** A reason that says something. */
  predicate Says(reason: Option<string>) {
    reason.Some? && exists k :: 0 <= k < |reason.value| && !Grading.IsSpace(reason.value[k])
  }

  lemma RejectMarksAndLogs(db: Db, tenant: Id, id: nat, resource: Resource, rejector: Id, reason: Option<string>)
    ensures var (after, outcome) := AfterReject(db, tenant, id, resource, rejector, reason);
            && (outcome == Done <==> Says(reason) && HasRole(db, tenant, rejector) && id in db.assessments)
            && (outcome == ReasonRequired <==> !Says(reason))
            && (outcome != Done ==> after == db)
            && (outcome == Done ==>
                && RowWritten(db, after, id)
                && EntryAdded(db, after, tenant, id, resource, Action.Rejected, rejector, reason)
                && after.assessments[id] ==
                     if resource == AssessmentResource
                     then db.assessments[id].(
                            status := REJECTED, rejectedBy := Some(rejector), rejectedReason := reason)
                     else db.assessments[id])
  {
    if rejector in db.users {
      Roles(db.users[rejector].role);
    }
    assert Says(reason) <==> !Blank(reason);
  }

  // ---------- attempts ----------

  /** Within the times of the assessment and below its limit, one more attempt of the student is counted. */
  lemma StartCountsAttempt(db: Db, tenant: Id, id: nat, student: Id, now: int)
    ensures var (after, outcome) := AfterStart(db, tenant, id, student, now);
            && (outcome == AssessmentNotFound <==> !(id in db.assessments && db.assessments[id].body.tenant == tenant))
            && (outcome != AssessmentNotFound ==>
                var body := db.assessments[id].body;
                var made := if (id, student) in db.attempts then db.attempts[(id, student)] else 0;
                outcome ==
                  if body.content.startTime != None && now < body.content.startTime.value then NotStarted
                  else if body.content.endTime != None && body.content.endTime.value < now then Ended
                  else if (if body.maxAttempts == None then 1 else body.maxAttempts.value) <= made then AttemptsUsedUp
                  else Done)
            && (outcome != Done ==> after == db)
            && (outcome == Done ==>
                && (id, student) in after.attempts
                && after == db.(attempts := db.attempts[(id, student) := after.attempts[(id, student)]])
                && after.attempts[(id, student)]
                   == (if (id, student) in db.attempts then db.attempts[(id, student)] else 0) + 1)
  {}
}
