/**
 What revoking a user's tokens achieves while other calls are in flight: calls that had already passed
 their checks may still store a token, and nothing else can.
 */
module TokenRevocation {
  import opened Basics
  import opened Counting
  import opened TokenProtocol

  /** The user's calls that will store a token without looking at the user's status or password again. */
  function Issuing(calls: map<nat, Call>, user: Id): set<nat> {
    set c | c in calls && WillIssue(calls[c], user)
  }

  predicate WillIssue(c: Call, user: Id) {
    c == ToRecordLogin(user) || (c.ToIssue? && c.user == user)
  }

  /** Live tokens and those still to come. */
  function Reach(s: State, user: Id): nat {
    |TokensOf(s.tokens, user)| + |Issuing(s.calls, user)|
  }

  predicate NewLogin(step: Step, user: Id) {
    step.FindUser? && step.user == user
  }

  /** Fewer tokens, and no call that did not already issue for the user. */
  ghost predicate Shrinks(s: State, after: State, user: Id) {
    && TokensOf(after.tokens, user) <= TokensOf(s.tokens, user)
    && Issuing(after.calls, user) <= Issuing(s.calls, user)
  }

  lemma ShrinkingLowersReach(s: State, after: State, user: Id)
    requires Shrinks(s, after, user)
    ensures Reach(after, user) <= Reach(s, user)
  {
    hide TokensOf, Issuing;
    SubsetCount(TokensOf(after.tokens, user), TokensOf(s.tokens, user));
    SubsetCount(Issuing(after.calls, user), Issuing(s.calls, user));
  }

  lemma MostStepsShrink(s: State, step: Step, user: Id)
    requires !step.Rotate? && !step.Issue? && !NewLogin(step, user)
    ensures Shrinks(s, Next(s, step), user)
  {}

  /** A rotation turns a live token of its owner into one still to come. */
  lemma RotateKeepsReach(s: State, call: nat, user: Id)
    requires OwnersRemembered(s)
    ensures Reach(Next(s, Rotate(call)), user) <= Reach(s, user)
  {
    var after := Next(s, Rotate(call));
    if call in s.calls && s.calls[call].ToRotate? && RowPresent(s, s.calls[call].value, s.calls[call].id) {
      var value := s.calls[call].value;
      OwnerOfRow(s, call);
      if s.calls[call].user == user {
        assert TokensOf(after.tokens, user) == TokensOf(s.tokens, user) - {value};
        assert Issuing(after.calls, user) == Issuing(s.calls, user) + {call};
      } else {
        assert Shrinks(s, after, user);
        ShrinkingLowersReach(s, after, user);
      }
    } else {
      assert Shrinks(s, after, user);
      ShrinkingLowersReach(s, after, user);
    }
  }

  lemma FinishedIssuing(s: State, call: nat, user: Id)
    ensures Issuing(Finished(s, call).calls, user) == Issuing(s.calls, user) - {call}
  {}

  /** A token stored by the call that was to issue it. */
  lemma StoredKeepsReach(s: State, call: nat, value: string, row: Token, tokens: map<string, Token>, user: Id)
    requires call in s.calls && s.calls[call].ToIssue? && s.calls[call].user == row.user
    requires value !in s.tokens && tokens == s.tokens[value := row]
    ensures |TokensOf(tokens, user)| + |Issuing(Finished(s, call).calls, user)| <= Reach(s, user)
  {
    StoringAdds(s.tokens, value, row, user);
    FinishedIssuing(s, call, user);
    SubsetCount(Issuing(s.calls, user) - {call}, Issuing(s.calls, user));
    hide TokensOf;
    assert user == row.user ==> call in Issuing(s.calls, user);
  }

  /** Issuing turns a token to come into a live one, or gives it up. */
  lemma IssueKeepsReach(s: State, call: nat, value: string, expiresAt: int, user: Id)
    ensures Reach(Next(s, Issue(call, value, expiresAt)), user) <= Reach(s, user)
  {
    hide TokensOf, Issuing;
    if call in s.calls && s.calls[call].ToIssue? {
      var row := Token(s.nextId, s.calls[call].user, expiresAt);
      if row.user in s.users && value !in s.tokens {
        StoredKeepsReach(s, call, value, row, s.tokens[value := row], user);
      } else {
        FinishedIssuing(s, call, user);
        SubsetCount(Issuing(s.calls, user) - {call}, Issuing(s.calls, user));
      }
    }
  }

  lemma StepKeepsReach(s: State, step: Step, user: Id)
    requires OwnersRemembered(s) && !NewLogin(step, user)
    ensures Reach(Next(s, step), user) <= Reach(s, user)
  {
    hide Next, OwnersRemembered, Reach;
    if step.Rotate? {
      RotateKeepsReach(s, step.call, user);
    } else if step.Issue? {
      IssueKeepsReach(s, step.call, step.value, step.expiresAt, user);
    } else {
      MostStepsShrink(s, step, user);
      ShrinkingLowersReach(s, Next(s, step), user);
    }
  }

  lemma {:induction false} RunKeepsReach(s: State, steps: seq<Step>, user: Id)
    requires OwnersRemembered(s) && RowsSingleUse(s)
    requires forall step :: step in steps ==> !NewLogin(step, user)
    ensures Reach(Run(s, steps), user) <= Reach(s, user)
    decreases |steps|
  {
    hide Next, OwnersRemembered, RowsSingleUse, Reach;
    if steps != [] {
      StepKeepsReach(s, steps[0], user);
      StepKeepsOwners(s, steps[0]);
      StepKeepsRowsSingleUse(s, steps[0]);
      RunKeepsReach(Next(s, steps[0]), steps[1..], user);
    }
  }

  lemma {:induction false} ReachableRemembersOwners(s: State, steps: seq<Step>)
    requires OwnersRemembered(s) && RowsSingleUse(s)
    ensures OwnersRemembered(Run(s, steps)) && RowsSingleUse(Run(s, steps))
    decreases |steps|
  {
    hide Next, OwnersRemembered, RowsSingleUse;
    if steps != [] {
      StepKeepsOwners(s, steps[0]);
      StepKeepsRowsSingleUse(s, steps[0]);
      ReachableRemembersOwners(Next(s, steps[0]), steps[1..]);
    }
  }

  /**
   From the moment a suspension or a change of password revokes a user's tokens, in any interleaving and
   until a new login starts, the user's live tokens never outnumber the logins and refreshes that had
   passed their checks by then.
   */
  lemma RevocationBound(users: map<Id, Status>, before: seq<Step>, call: nat, user: Id, later: seq<Step>)
    requires var s := Run(Start(users), before); call in s.calls && s.calls[call] == ToRevoke(user)
    requires forall step :: step in later ==> !NewLogin(step, user)
    ensures var s := Run(Start(users), before);
            |TokensOf(Run(Next(s, Revoke(call)), later).tokens, user)| <= |Issuing(s.calls, user)|
  {
    hide OwnersRemembered, RowsSingleUse, Run;
    assert OwnersRemembered(Start(users)) && RowsSingleUse(Start(users)) by {
      NothingIssued(users);
    }
    var s := Run(Start(users), before);
    ReachableRemembersOwners(Start(users), before);
    StepKeepsOwners(s, Revoke(call));
    StepKeepsRowsSingleUse(s, Revoke(call));
    var revoked := Next(s, Revoke(call));
    assert TokensOf(revoked.tokens, user) == {};
    assert Issuing(revoked.calls, user) == Issuing(s.calls, user);
    RunKeepsReach(revoked, later, user);
  }

  lemma NothingIssued(users: map<Id, Status>)
    ensures OwnersRemembered(Start(users)) && RowsSingleUse(Start(users))
  {}

  // ---------- exactly when a revoked user stays without tokens ----------

  ghost predicate Gone(s: State, user: Id) {
    user !in s.users && TokensOf(s.tokens, user) == {}
  }

  /** A removed user never comes back, and nothing can be stored for one. */
  lemma StepKeepsGone(s: State, step: Step, user: Id)
    requires Gone(s, user)
    ensures Gone(Next(s, step), user)
  {
    var after := Next(s, step);
    assert TokensOf(after.tokens, user) <= TokensOf(s.tokens, user);
  }

  lemma {:induction false} RunKeepsGone(s: State, steps: seq<Step>, user: Id)
    requires Gone(s, user)
    ensures Gone(Run(s, steps), user)
    decreases |steps|
  {
    hide Next, Gone;
    if steps != [] {
      StepKeepsGone(s, steps[0], user);
      RunKeepsGone(Next(s, steps[0]), steps[1..], user);
    }
  }

  /** A value that is in none of these. */
  lemma {:induction false} UnusedValue(values: set<string>) returns (v: string)
    ensures forall w :: w in values ==> |w| < |v|
  {
    if values == {} {
      v := "";
    } else {
      var w :| w in values;
      var u := UnusedValue(values - {w});
      v := u + w + "'";
      forall x | x in values ensures |x| < |v| {
        assert x == w || x in values - {w};
      }
    }
  }

  /** A call past its checks stores a token as soon as it is let go on, if its user still exists. */
  lemma IssuingStores(s: State, c: nat, user: Id) returns (later: seq<Step>)
    requires c in s.calls && WillIssue(s.calls[c], user) && user in s.users
    ensures forall step :: step in later ==> !NewLogin(step, user)
    ensures TokensOf(Run(s, later).tokens, user) != {}
  {
    var v := UnusedValue(s.tokens.Keys);
    later := [RecordLogin(c), Issue(c, v, 0)];
    TwoSteps(s, later[0], later[1]);
    hide Run;
    var ready := Next(s, later[0]);
    assert c in ready.calls && ready.calls[c].ToIssue? && ready.calls[c].user == user;
    assert ready.tokens == s.tokens && ready.users == s.users;
    assert v !in ready.tokens;
    var after := Next(ready, later[1]);
    assert v in after.tokens && after.tokens[v].user == user;
    assert v in TokensOf(after.tokens, user);
  }

  /** In no continuation without a new login does the user hold a token. */
  ghost predicate StaysOut(s: State, user: Id) {
    forall later :: (forall step :: step in later ==> !NewLogin(step, user)) ==>
      TokensOf(Run(s, later).tokens, user) == {}
  }

  /**
   After the revocation the user stays without tokens until a new login if and only if no login or
   refresh of the user had passed its checks when the tokens were revoked, or the user's row was gone.
   */
  lemma RevokedStaysOutIff(users: map<Id, Status>, before: seq<Step>, call: nat, user: Id)
    requires var s := Run(Start(users), before); call in s.calls && s.calls[call] == ToRevoke(user)
    ensures var s := Run(Start(users), before);
            StaysOut(Next(s, Revoke(call)), user) <==> Issuing(s.calls, user) == {} || user !in s.users
  {
    hide Run;
    var s := Run(Start(users), before);
    var revoked := Next(s, Revoke(call));
    assert TokensOf(revoked.tokens, user) == {} && revoked.users == s.users;
    assert Issuing(revoked.calls, user) == Issuing(s.calls, user);
    hide Next;
    if Issuing(s.calls, user) == {} || user !in s.users {
      forall later | forall step :: step in later ==> !NewLogin(step, user)
        ensures TokensOf(Run(revoked, later).tokens, user) == {}
      {
        if user !in s.users {
          RunKeepsGone(revoked, later, user);
        } else {
          RevocationBound(users, before, call, user, later);
        }
      }
    } else {
      var c :| c in Issuing(s.calls, user);
      assert c in Issuing(revoked.calls, user);
      var later := IssuingStores(revoked, c, user);
    }
  }

  // ---------- an input ----------

  const SIGN_IN: seq<Step> :=
    [FindUser(0, "user", true), RecordLogin(0), Issue(0, "first", 9), FindToken(1, "first", 0)]
  const SUSPEND: seq<Step> :=
    [Rotate(1), MarkUser(2, "user", Some(SUSPENDED)), Revoke(2), Issue(1, "second", 9)]

  /** The bound is met: a refresh past its checks leaves a suspended user with a live token. */
  lemma SuspendedUserCanHoldToken()
    ensures var s := Run(Start(map["user" := ACTIVE]), SIGN_IN + SUSPEND);
            && "user" in s.users && s.users["user"] == SUSPENDED
            && "second" in s.tokens && s.tokens["second"].user == "user"
  {
    var s := Start(map["user" := ACTIVE]);
    SignedIn(s);
    RunConcat(s, SIGN_IN, SUSPEND);
    Suspended(Run(s, SIGN_IN));
  }

  lemma SignedIn(s: State)
    requires s == Start(map["user" := ACTIVE])
    ensures var after := Run(s, SIGN_IN);
            && after.users == s.users && after.tokens == map["first" := Token(0, "user", 9)]
            && after.calls == map[1 := ToRotate("first", 0, "user")] && after.redeemed == multiset{}
  {
    FourSteps(s, SIGN_IN[0], SIGN_IN[1], SIGN_IN[2], SIGN_IN[3]);
    hide Run;
    var s2 := Next(Next(s, SIGN_IN[0]), SIGN_IN[1]);
    assert s2 == s.(calls := map[0 := ToIssue("user", true)]);
    var s3 := Next(s2, SIGN_IN[2]);
    assert s3.calls == map[] && s3.tokens == map["first" := Token(0, "user", 9)];
  }

  lemma Suspended(s: State)
    requires "user" in s.users && s.tokens == map["first" := Token(0, "user", 9)]
    requires s.calls == map[1 := ToRotate("first", 0, "user")]
    ensures var after := Run(s, SUSPEND);
            && "user" in after.users && after.users["user"] == SUSPENDED
            && "second" in after.tokens && after.tokens["second"].user == "user"
  {
    FourSteps(s, SUSPEND[0], SUSPEND[1], SUSPEND[2], SUSPEND[3]);
    hide Run, Next;
    Rotated(s);
    Marked(Next(s, SUSPEND[0]));
    Revoked(Next(Next(s, SUSPEND[0]), SUSPEND[1]));
    Reissued(Next(Next(Next(s, SUSPEND[0]), SUSPEND[1]), SUSPEND[2]));
  }

  lemma Rotated(s: State)
    requires s.tokens == map["first" := Token(0, "user", 9)] && s.calls == map[1 := ToRotate("first", 0, "user")]
    ensures var after := Next(s, SUSPEND[0]);
            && after.users == s.users && after.tokens == map[]
            && after.calls == map[1 := ToIssue("user", false)]
  {}

  lemma Marked(s: State)
    requires "user" in s.users && s.tokens == map[] && s.calls == map[1 := ToIssue("user", false)]
    ensures var after := Next(s, SUSPEND[1]);
            && after.users == s.users["user" := SUSPENDED] && after.tokens == map[]
            && after.calls == map[1 := ToIssue("user", false), 2 := ToRevoke("user")]
  {}

  lemma Revoked(s: State)
    requires s.tokens == map[] && s.calls == map[1 := ToIssue("user", false), 2 := ToRevoke("user")]
    ensures var after := Next(s, SUSPEND[2]);
            after.users == s.users && after.tokens == map[] && after.calls == map[1 := ToIssue("user", false)]
  {}

  lemma Reissued(s: State)
    requires "user" in s.users && s.tokens == map[] && s.calls == map[1 := ToIssue("user", false)]
    ensures var after := Next(s, SUSPEND[3]);
            && after.users == s.users
            && "second" in after.tokens && after.tokens["second"].user == "user"
  {}
}
