/**
 What a suspension is worth: attempts to log in do not even start a call, so a user with nothing in flight
 stays without tokens until the suspension is lifted, whatever is attempted.
 */
module TokenSuspension {
  import opened Basics
  import opened TokenProtocol
  import opened TokenRevocation

  /** Reactivating the user, or writing another status over the suspension. */
  predicate Lifts(step: Step, user: Id) {
    || step == Reactivate(user)
    || (step.MarkUser? && step.user == user && step.status != None && step.status != Some(SUSPENDED))
  }

  // ---------- single steps on users ----------

  /** A login call is started exactly for an existing user in another status than these, with the right password. */
  lemma LoginStarts(s: State, call: nat, user: Id, passwordMatches: bool)
    requires call !in s.calls
    ensures var after := Next(s, FindUser(call, user, passwordMatches));
            if user in s.users && s.users[user] != SUSPENDED && s.users[user] != PENDING && s.users[user] != INACTIVE
               && passwordMatches
            then after == s.(calls := s.calls[call := ToRecordLogin(user)])
            else after == s
  {}

  /** Reactivating sets the status, removing a user takes the row and the user's tokens; both leave all others alone. */
  lemma UserSteps(s: State, user: Id, other: Id, v: string)
    requires other != user
    ensures var after := Next(s, Reactivate(user));
            && after.tokens == s.tokens && after.calls == s.calls
            && (other in after.users <==> other in s.users)
            && (other in s.users ==> after.users[other] == s.users[other])
            && (user in after.users <==> user in s.users) && (user in s.users ==> after.users[user] == ACTIVE)
    ensures var after := Next(s, RemoveUser(user));
            && user !in after.users && after.calls == s.calls
            && (other in after.users <==> other in s.users)
            && (other in s.users ==> after.users[other] == s.users[other])
            && (user in s.users ==> (v in after.tokens <==> v in s.tokens && s.tokens[v].user != user))
            && (v in after.tokens ==> v in s.tokens && after.tokens[v] == s.tokens[v])
  {}

  // ---------- over runs ----------

  /** Suspended (or removed), no token, nothing in flight that would store one. */
  ghost predicate ShutOut(s: State, user: Id) {
    && (user in s.users ==> s.users[user] == SUSPENDED)
    && TokensOf(s.tokens, user) == {} && Issuing(s.calls, user) == {}
  }

  lemma MostStepsKeepShutOut(s: State, step: Step, user: Id)
    requires ShutOut(s, user) && !Lifts(step, user) && !step.Rotate? && !step.Issue? && !NewLogin(step, user)
    ensures ShutOut(Next(s, step), user)
  {
    MostStepsShrink(s, step, user);
    hide TokensOf, Issuing;
  }

  lemma LoginKeepsShutOut(s: State, call: nat, user: Id, passwordMatches: bool)
    requires ShutOut(s, user)
    ensures Next(s, FindUser(call, user, passwordMatches)) == s
  {}

  lemma RotateKeepsShutOut(s: State, call: nat, user: Id)
    requires ShutOut(s, user) && OwnersRemembered(s)
    ensures ShutOut(Next(s, Rotate(call)), user)
  {
    var after := Next(s, Rotate(call));
    if call in s.calls && s.calls[call].ToRotate? {
      OwnerOfRow(s, call);
      if RowPresent(s, s.calls[call].value, s.calls[call].id) {
        assert s.calls[call].value !in TokensOf(s.tokens, user);
      }
    }
    assert Shrinks(s, after, user);
  }

  lemma IssueKeepsShutOut(s: State, call: nat, value: string, expiresAt: int, user: Id)
    requires ShutOut(s, user)
    ensures ShutOut(Next(s, Issue(call, value, expiresAt)), user)
  {
    assert call !in Issuing(s.calls, user);
    assert Shrinks(s, Next(s, Issue(call, value, expiresAt)), user);
  }

  lemma {:induction false} RunKeepsShutOut(s: State, steps: seq<Step>, user: Id)
    requires ShutOut(s, user) && OwnersRemembered(s) && RowsSingleUse(s)
    requires forall step :: step in steps ==> !Lifts(step, user)
    ensures ShutOut(Run(s, steps), user)
    decreases |steps|
  {
    hide Next, OwnersRemembered, RowsSingleUse, ShutOut;
    if steps != [] {
      var step := steps[0];
      if step.Rotate? {
        RotateKeepsShutOut(s, step.call, user);
      } else if step.Issue? {
        IssueKeepsShutOut(s, step.call, step.value, step.expiresAt, user);
      } else if NewLogin(step, user) {
        LoginKeepsShutOut(s, step.call, user, step.passwordMatches);
      } else {
        MostStepsKeepShutOut(s, step, user);
      }
      StepKeepsOwners(s, step);
      StepKeepsRowsSingleUse(s, step);
      RunKeepsShutOut(Next(s, step), steps[1..], user);
    }
  }

  /**
   A suspension revokes the user's tokens while nothing of the user has passed its checks: until it is
   lifted the user holds no token, even if logins are attempted.
   */
  lemma SuspensionHolds(users: map<Id, Status>, before: seq<Step>, call: nat, user: Id, later: seq<Step>)
    requires var s := Run(Start(users), before);
             && call in s.calls && s.calls[call] == ToRevoke(user) && Issuing(s.calls, user) == {}
             && user in s.users && s.users[user] == SUSPENDED
    requires forall step :: step in later ==> !Lifts(step, user)
    ensures TokensOf(Run(Next(Run(Start(users), before), Revoke(call)), later).tokens, user) == {}
  {
    hide OwnersRemembered, RowsSingleUse, Run;
    var s := Run(Start(users), before);
    NothingIssued(users);
    ReachableRemembersOwners(Start(users), before);
    StepKeepsOwners(s, Revoke(call));
    StepKeepsRowsSingleUse(s, Revoke(call));
    var revoked := Next(s, Revoke(call));
    assert TokensOf(revoked.tokens, user) == {};
    assert Issuing(revoked.calls, user) == Issuing(s.calls, user);
    assert ShutOut(revoked, user);
    RunKeepsShutOut(revoked, later, user);
  }
}
