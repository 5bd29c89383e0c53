/**
 Refresh tokens under concurrency. Every asynchronous call is cut into its database calls; a step is
 one of them together with the local code up to the next one. Steps of any number of calls may be
 interleaved in any order (src/auth/auth.service.ts:31-172, 211-239; src/users/users.service.ts:972-1108).
 */
module TokenProtocol {
  import opened Basics

  datatype Status = ACTIVE | SUSPENDED | INACTIVE | PENDING | BLOCKED | DELETED

  /** A row of the token table, which is keyed by the (unique) token value; `id` is the primary key. */
  datatype Token = Token(id: nat, user: Id, expiresAt: int)

  /** What a call in flight will do next. */
  datatype Call =
    | ToDropExpired(value: string, id: nat)
    | ToRotate(value: string, id: nat, user: Id)
    | ToRecordLogin(user: Id)
    | ToIssue(user: Id, login: bool)
    | ToRevoke(user: Id)

  /**
   The tables and the calls in flight, and a history: the values and rows redeemed by a refresh, the
   values issued, each user's successful logins, and each user's sessions that have ended.
   */
  datatype State = State(
    users: map<Id, Status>,
    tokens: map<string, Token>,
    nextId: nat,
    calls: map<nat, Call>,
    redeemed: multiset<string>,
    redeemedRows: multiset<nat>,
    issued: multiset<string>,
    logins: multiset<Id>,
    ended: multiset<Id>)

  datatype Step =
    | FindToken(call: nat, value: string, now: int)
    | DropExpired(call: nat)
    | Rotate(call: nat)
    | FindUser(call: nat, user: Id, passwordMatches: bool)
    | RecordLogin(call: nat)
    | Issue(call: nat, value: string, expiresAt: int)
    | Logout(value: string, user: Id)
    | LogoutAll(user: Id)
    | MarkUser(call: nat, user: Id, status: Option<Status>)
    | Revoke(call: nat)
    | Reactivate(user: Id)
    | RemoveUser(user: Id)

  // ---------- database calls ----------

  function Finished(s: State, call: nat): State {
    s.(calls := s.calls - {call})
  }

  predicate RowPresent(s: State, value: string, id: nat) {
    value in s.tokens && s.tokens[value].id == id
  }

  /** Removing one token ends a session, unless a refresh takes it over. */
  function WithoutToken(s: State, value: string): State
    requires value in s.tokens
  {
    var user := s.tokens[value].user;
    s.(tokens := s.tokens - {value}, ended := s.ended[user := s.ended[user] + 1])
  }

  function TokensOf(tokens: map<string, Token>, user: Id): set<string> {
    set v | v in tokens && tokens[v].user == user
  }

  function WithoutTokensOf(s: State, user: Id): State {
    var values := TokensOf(s.tokens, user);
    s.(tokens := s.tokens - values, ended := s.ended[user := s.ended[user] + |values|])
  }

  function AfterFindToken(s: State, call: nat, value: string, now: int): State {
    if value !in s.tokens || s.tokens[value].user !in s.users then s
    else
      var row := s.tokens[value];
      if row.expiresAt < now then s.(calls := s.calls[call := ToDropExpired(value, row.id)])
      else if s.users[row.user] != ACTIVE then s
      else s.(calls := s.calls[call := ToRotate(value, row.id, row.user)])
  }

  function AfterRotate(s: State, call: nat, value: string, id: nat, user: Id): State {
    if !RowPresent(s, value, id) then Finished(s, call)
    else s.(tokens := s.tokens - {value},
            calls := s.calls[call := ToIssue(user, false)],
            redeemed := s.redeemed + multiset{value},
            redeemedRows := s.redeemedRows + multiset{id})
  }

  /** The insert fails without its user or with a value that is already stored. */
  function AfterIssue(s: State, call: nat, user: Id, login: bool, value: string, expiresAt: int): State {
    if user !in s.users || value in s.tokens
    then Finished(s.(ended := if login then s.ended else s.ended[user := s.ended[user] + 1]), call)
    else Finished(s.(tokens := s.tokens[value := Token(s.nextId, user, expiresAt)],
                     nextId := s.nextId + 1,
                     issued := s.issued + multiset{value},
                     logins := if login then s.logins[user := s.logins[user] + 1] else s.logins), call)
  }

  predicate LoginRefused(status: Status) {
    status == SUSPENDED || status == PENDING || status == INACTIVE
  }

  /** A step that does not fit the state of its call does nothing. */
  function Next(s: State, step: Step): State {
    match step
    case FindToken(call, value, now) =>
      if call in s.calls then s else AfterFindToken(s, call, value, now)
    case DropExpired(call) =>
      if call !in s.calls || !s.calls[call].ToDropExpired? then s
      else
        var c := s.calls[call];
        Finished(if RowPresent(s, c.value, c.id) then WithoutToken(s, c.value) else s, call)
    case Rotate(call) =>
      if call !in s.calls || !s.calls[call].ToRotate? then s
      else AfterRotate(s, call, s.calls[call].value, s.calls[call].id, s.calls[call].user)
    case FindUser(call, user, passwordMatches) =>
      if call in s.calls || user !in s.users || LoginRefused(s.users[user]) || !passwordMatches then s
      else s.(calls := s.calls[call := ToRecordLogin(user)])
    case RecordLogin(call) =>
      if call !in s.calls || !s.calls[call].ToRecordLogin? then s
      else
        var user := s.calls[call].user;
        if user !in s.users then Finished(s, call) else s.(calls := s.calls[call := ToIssue(user, true)])
    case Issue(call, value, expiresAt) =>
      if call !in s.calls || !s.calls[call].ToIssue? then s
      else AfterIssue(s, call, s.calls[call].user, s.calls[call].login, value, expiresAt)
    case Logout(value, user) =>
      if value in s.tokens && s.tokens[value].user == user then WithoutToken(s, value) else s
    case LogoutAll(user) => WithoutTokensOf(s, user)
    case MarkUser(call, user, status) =>
      if call in s.calls || user !in s.users then s
      else s.(users := s.users[user := status.GetOr(s.users[user])], calls := s.calls[call := ToRevoke(user)])
    case Revoke(call) =>
      if call !in s.calls || !s.calls[call].ToRevoke? then s
      else Finished(WithoutTokensOf(s, s.calls[call].user), call)
    case Reactivate(user) =>
      if user !in s.users then s else s.(users := s.users[user := ACTIVE])
    case RemoveUser(user) =>
      if user !in s.users then s else WithoutTokensOf(s.(users := s.users - {user}), user)
  }

  function Run(s: State, steps: seq<Step>): State
    decreases |steps|
  {
    if steps == [] then s else Run(Next(s, steps[0]), steps[1..])
  }

  function Start(users: map<Id, Status>): State {
    State(users, map[], 0, map[], multiset{}, multiset{}, multiset{}, multiset{}, multiset{})
  }

  // ---------- a token row is redeemed at most once ----------

  /** Row ids are never reused, so a redeemed row is not in the table any more. */
  ghost predicate RowsSingleUse(s: State) {
    && (forall v :: v in s.tokens ==> s.tokens[v].id < s.nextId && s.redeemedRows[s.tokens[v].id] == 0)
    && (forall v, w :: v in s.tokens && w in s.tokens && s.tokens[v].id == s.tokens[w].id ==> v == w)
    && (forall id :: s.redeemedRows[id] <= 1 && (s.nextId <= id ==> s.redeemedRows[id] == 0))
  }

  /** Everything but rotating and issuing only ever removes rows. */
  ghost predicate OnlyRemoves(s: State, after: State) {
    && after.nextId == s.nextId && after.redeemed == s.redeemed && after.redeemedRows == s.redeemedRows
    && after.issued == s.issued
    && forall v :: v in after.tokens ==> v in s.tokens && after.tokens[v] == s.tokens[v]
  }

  lemma MostStepsOnlyRemove(s: State, step: Step)
    requires !step.Rotate? && !step.Issue?
    ensures OnlyRemoves(s, Next(s, step))
  {}

  lemma StepKeepsRowsSingleUse(s: State, step: Step)
    requires RowsSingleUse(s)
    ensures RowsSingleUse(Next(s, step))
  {
    hide Next;
    if !step.Rotate? && !step.Issue? {
      MostStepsOnlyRemove(s, step);
    } else if step.Rotate? {
      RotateKeepsRowsSingleUse(s, step.call);
    } else {
      IssueKeepsRowsSingleUse(s, step.call, step.value, step.expiresAt);
    }
  }

  lemma RotateKeepsRowsSingleUse(s: State, call: nat)
    requires RowsSingleUse(s)
    ensures RowsSingleUse(Next(s, Rotate(call)))
  {}

  lemma IssueKeepsRowsSingleUse(s: State, call: nat, value: string, expiresAt: int)
    requires RowsSingleUse(s)
    ensures RowsSingleUse(Next(s, Issue(call, value, expiresAt)))
  {}

  /** However the steps interleave, no row of the token table is redeemed twice. */
  lemma {:induction false} RowRedeemedOnce(s: State, steps: seq<Step>)
    requires RowsSingleUse(s)
    ensures RowsSingleUse(Run(s, steps))
    ensures forall id :: Run(s, steps).redeemedRows[id] <= 1
    decreases |steps|
  {
    if steps != [] {
      StepKeepsRowsSingleUse(s, steps[0]);
      RowRedeemedOnce(Next(s, steps[0]), steps[1..]);
    }
  }

  // ---------- a token value is redeemed at most as often as it was issued ----------

  /**
   Nothing is assumed about the values that signing yields: a value signed twice within a second is the
   same token. Each time a value was issued is at most one redemption, or the live row.
   */
  ghost predicate IssuesCover(s: State) {
    forall v :: s.redeemed[v] + (if v in s.tokens then 1 else 0) <= s.issued[v]
  }

  lemma StepKeepsIssuesCover(s: State, step: Step)
    requires IssuesCover(s)
    ensures IssuesCover(Next(s, step))
  {
    hide Next;
    if !step.Rotate? && !step.Issue? {
      MostStepsOnlyRemove(s, step);
    } else if step.Rotate? {
      RotateKeepsIssuesCover(s, step.call);
    } else {
      IssueKeepsIssuesCover(s, step.call, step.value, step.expiresAt);
    }
  }

  lemma RotateKeepsIssuesCover(s: State, call: nat)
    requires IssuesCover(s)
    ensures IssuesCover(Next(s, Rotate(call)))
  {}

  lemma IssueKeepsIssuesCover(s: State, call: nat, value: string, expiresAt: int)
    requires IssuesCover(s)
    ensures IssuesCover(Next(s, Issue(call, value, expiresAt)))
  {}

  /** However the steps interleave, a refresh token is redeemed at most as often as it was issued. */
  lemma {:induction false} RedeemedWithinIssued(s: State, steps: seq<Step>)
    requires IssuesCover(s)
    ensures IssuesCover(Run(s, steps))
    ensures forall v :: Run(s, steps).redeemed[v] <= Run(s, steps).issued[v]
    decreases |steps|
  {
    hide Next;
    if steps != [] {
      StepKeepsIssuesCover(s, steps[0]);
      RedeemedWithinIssued(Next(s, steps[0]), steps[1..]);
    }
  }

  // ---------- sessions are conserved ----------

  /** Refreshes that have deleted the old token and not yet stored the new one. */
  function InFlight(calls: map<nat, Call>, user: Id): set<nat> {
    set c | c in calls && calls[c] == ToIssue(user, false)
  }

  /** Each successful login is one live token, one refresh in flight, or one ended session. */
  ghost predicate Conserved(s: State, user: Id) {
    |TokensOf(s.tokens, user)| + |InFlight(s.calls, user)| + s.ended[user] == s.logins[user]
  }

  lemma FinishedConserves(s: State, call: nat, user: Id)
    requires call in s.calls
    ensures TokensOf(Finished(s, call).tokens, user) == TokensOf(s.tokens, user)
    ensures InFlight(Finished(s, call).calls, user) == InFlight(s.calls, user) - {call}
    ensures |InFlight(Finished(s, call).calls, user)|
      == |InFlight(s.calls, user)| - if s.calls[call] == ToIssue(user, false) then 1 else 0
  {
    assert InFlight(Finished(s, call).calls, user) == InFlight(s.calls, user) - {call};
  }

  lemma WithoutTokenConserves(s: State, value: string, user: Id)
    requires value in s.tokens && Conserved(s, user)
    ensures Conserved(WithoutToken(s, value), user)
  {
    assert TokensOf(WithoutToken(s, value).tokens, user) == TokensOf(s.tokens, user) - {value};
    assert InFlight(WithoutToken(s, value).calls, user) == InFlight(s.calls, user);
  }

  lemma WithoutTokensOfConserves(s: State, owner: Id, user: Id)
    requires Conserved(s, user)
    ensures Conserved(WithoutTokensOf(s, owner), user)
  {
    var after := WithoutTokensOf(s, owner);
    assert TokensOf(after.tokens, user) == if user == owner then {} else TokensOf(s.tokens, user);
    assert InFlight(after.calls, user) == InFlight(s.calls, user);
  }

  /** Starting a call, or moving one on, touches neither tokens nor refreshes in flight. */
  lemma CallChangeConserves(s: State, after: State, call: nat, c: Call, user: Id)
    requires Conserved(s, user)
    requires call in s.calls ==> s.calls[call] != ToIssue(user, false)
    requires c != ToIssue(user, false)
    requires after == s.(users := after.users, calls := s.calls[call := c])
    ensures Conserved(after, user)
  {
    assert TokensOf(after.tokens, user) == TokensOf(s.tokens, user);
    assert InFlight(after.calls, user) == InFlight(s.calls, user);
  }

  lemma RotateConserves(s: State, call: nat, user: Id)
    requires Conserved(s, user) && call in s.calls && s.calls[call].ToRotate?
    requires RowPresent(s, s.calls[call].value, s.calls[call].id) ==>
      s.tokens[s.calls[call].value].user == s.calls[call].user
    ensures Conserved(Next(s, Rotate(call)), user)
  {
    var c := s.calls[call];
    var after := Next(s, Rotate(call));
    if RowPresent(s, c.value, c.id) {
      assert TokensOf(after.tokens, user) == TokensOf(s.tokens, user) - {c.value};
      assert InFlight(after.calls, user) == if user == c.user then InFlight(s.calls, user) + {call}
        else InFlight(s.calls, user);
    } else {
      FinishedConserves(s, call, user);
    }
  }

  lemma IssueConserves(s: State, call: nat, value: string, expiresAt: int, user: Id)
    requires Conserved(s, user) && call in s.calls && s.calls[call].ToIssue?
    ensures Conserved(Next(s, Issue(call, value, expiresAt)), user)
  {
    var c := s.calls[call];
    if c.user !in s.users || value in s.tokens {
      FinishedConserves(s.(ended := if c.login then s.ended else s.ended[c.user := s.ended[c.user] + 1]), call, user);
    } else {
      StoredConserves(s, call, value, Token(s.nextId, c.user, expiresAt), user);
    }
  }

  lemma StoringAdds(tokens: map<string, Token>, value: string, row: Token, user: Id)
    requires value !in tokens
    ensures |TokensOf(tokens[value := row], user)| == |TokensOf(tokens, user)| + if user == row.user then 1 else 0
  {
    assert TokensOf(tokens[value := row], user) == TokensOf(tokens, user) + if user == row.user then {value} else {};
  }

  lemma StoredConserves(s: State, call: nat, value: string, row: Token, user: Id)
    requires Conserved(s, user) && value !in s.tokens
    requires call in s.calls && s.calls[call].ToIssue? && s.calls[call].user == row.user
    ensures Conserved(
      Finished(s.(tokens := s.tokens[value := row], nextId := s.nextId + 1, issued := s.issued + multiset{value},
                  logins := if s.calls[call].login then s.logins[row.user := s.logins[row.user] + 1] else s.logins),
               call),
      user)
  {
    hide TokensOf, InFlight;
    StoringAdds(s.tokens, value, row, user);
    FinishedConserves(s, call, user);
  }

  /** A refresh remembers the owner of the row it found, and ids are given out in order. */
  ghost predicate OwnersRemembered(s: State) {
    && (forall v :: v in s.tokens ==> s.tokens[v].id < s.nextId)
    && (forall c :: c in s.calls && s.calls[c].ToRotate? ==> s.calls[c].id < s.nextId)
    && forall c, v :: c in s.calls && s.calls[c].ToRotate? && v in s.tokens && s.tokens[v].id == s.calls[c].id ==>
        s.tokens[v].user == s.calls[c].user
  }

  /** Steps other than finding and issuing leave no new rows and no new calls about to rotate. */
  ghost predicate NothingNew(s: State, after: State) {
    && after.nextId == s.nextId
    && (forall v :: v in after.tokens ==> v in s.tokens && after.tokens[v] == s.tokens[v])
    && (forall c :: c in after.calls && after.calls[c].ToRotate? ==> c in s.calls && after.calls[c] == s.calls[c])
  }

  lemma MostStepsBringNothingNew(s: State, step: Step)
    requires !step.FindToken? && !step.Issue?
    ensures NothingNew(s, Next(s, step))
  {}

  lemma StepKeepsOwners(s: State, step: Step)
    requires OwnersRemembered(s) && RowsSingleUse(s)
    ensures OwnersRemembered(Next(s, step))
  {
    hide Next;
    if !step.FindToken? && !step.Issue? {
      MostStepsBringNothingNew(s, step);
    } else if step.FindToken? {
      FindKeepsOwners(s, step.call, step.value, step.now);
    } else {
      IssueKeepsOwners(s, step.call, step.value, step.expiresAt);
    }
  }

  lemma FindKeepsOwners(s: State, call: nat, value: string, now: int)
    requires OwnersRemembered(s) && RowsSingleUse(s)
    ensures OwnersRemembered(Next(s, FindToken(call, value, now)))
  {
    var after := Next(s, FindToken(call, value, now));
    forall c, v | c in after.calls && after.calls[c].ToRotate? && v in after.tokens
      && after.tokens[v].id == after.calls[c].id
      ensures after.tokens[v].user == after.calls[c].user
    {
      if c == call && c !in s.calls {
        assert value in s.tokens && s.tokens[value].id == s.tokens[v].id;
      }
    }
  }

  lemma IssueKeepsOwners(s: State, call: nat, value: string, expiresAt: int)
    requires OwnersRemembered(s)
    ensures OwnersRemembered(Next(s, Issue(call, value, expiresAt)))
  {}

  lemma StepConserves(s: State, step: Step, user: Id)
    requires Conserved(s, user) && OwnersRemembered(s)
    ensures Conserved(Next(s, step), user)
  {
    hide Conserved, OwnersRemembered;
    var after := Next(s, step);
    if after != s {
      match step {
        case FindToken(call, value, now) =>
          CallChangeConserves(s, after, call, after.calls[call], user);
        case DropExpired(call) =>
          var c := s.calls[call];
          if RowPresent(s, c.value, c.id) {
            WithoutTokenConserves(s, c.value, user);
            CallEndConserves(WithoutToken(s, c.value), call, user);
          } else {
            CallEndConserves(s, call, user);
          }
        case Rotate(call) =>
          OwnerOfRow(s, call);
          RotateConserves(s, call, user);
        case FindUser(call, _, _) =>
          CallChangeConserves(s, after, call, after.calls[call], user);
        case RecordLogin(call) =>
          if s.calls[call].user !in s.users {
            CallEndConserves(s, call, user);
          } else {
            CallChangeConserves(s, after, call, after.calls[call], user);
          }
        case Issue(call, value, expiresAt) =>
          IssueConserves(s, call, value, expiresAt, user);
        case Logout(value, _) =>
          WithoutTokenConserves(s, value, user);
        case LogoutAll(owner) =>
          WithoutTokensOfConserves(s, owner, user);
        case MarkUser(call, _, _) =>
          CallChangeConserves(s, after, call, after.calls[call], user);
        case Revoke(call) =>
          WithoutTokensOfConserves(s, s.calls[call].user, user);
          CallEndConserves(WithoutTokensOf(s, s.calls[call].user), call, user);
        case Reactivate(who) =>
          UsersChangeConserves(s, after.users, user);
        case RemoveUser(who) =>
          UsersChangeConserves(s, s.users - {who}, user);
          WithoutTokensOfConserves(s.(users := s.users - {who}), who, user);
      }
    }
  }

  lemma OwnerOfRow(s: State, call: nat)
    requires OwnersRemembered(s) && call in s.calls && s.calls[call].ToRotate?
    ensures RowPresent(s, s.calls[call].value, s.calls[call].id) ==>
      s.tokens[s.calls[call].value].user == s.calls[call].user
  {}

  lemma CallEndConserves(s: State, call: nat, user: Id)
    requires Conserved(s, user) && call in s.calls && s.calls[call] != ToIssue(user, false)
    ensures Conserved(Finished(s, call), user)
  {
    FinishedConserves(s, call, user);
  }

  lemma UsersChangeConserves(s: State, users: map<Id, Status>, user: Id)
    requires Conserved(s, user)
    ensures Conserved(s.(users := users), user)
  {
    assert TokensOf(s.(users := users).tokens, user) == TokensOf(s.tokens, user);
    assert InFlight(s.(users := users).calls, user) == InFlight(s.calls, user);
  }

  lemma {:induction false} RunConserves(s: State, steps: seq<Step>, user: Id)
    requires Conserved(s, user) && OwnersRemembered(s) && RowsSingleUse(s)
    ensures Conserved(Run(s, steps), user)
    decreases |steps|
  {
    if steps != [] {
      StepConserves(s, steps[0], user);
      StepKeepsOwners(s, steps[0]);
      StepKeepsRowsSingleUse(s, steps[0]);
      RunConserves(Next(s, steps[0]), steps[1..], user);
    }
  }

  /**
   From empty tables, after any interleaving: no row is redeemed twice, no value more often than it was
   issued (so once, if signing never repeats it), and a user's live tokens and refreshes in flight
   together never outnumber the user's successful logins.
   */
  lemma AnyInterleaving(users: map<Id, Status>, steps: seq<Step>, user: Id)
    ensures var s := Run(Start(users), steps);
            && (forall id :: s.redeemedRows[id] <= 1)
            && |TokensOf(s.tokens, user)| + |InFlight(s.calls, user)| + s.ended[user] == s.logins[user]
            && |TokensOf(s.tokens, user)| + |InFlight(s.calls, user)| <= s.logins[user]
            && (forall v :: s.redeemed[v] + (if v in s.tokens then 1 else 0) <= s.issued[v])
  {
    var s := Start(users);
    assert TokensOf(s.tokens, user) == {} && InFlight(s.calls, user) == {};
    RowRedeemedOnce(s, steps);
    RunConserves(s, steps, user);
    RedeemedWithinIssued(s, steps);
  }

  // ---------- short runs ----------

  lemma TwoSteps(s: State, a: Step, b: Step)
    ensures Run(s, [a, b]) == Next(Next(s, a), b)
  {
    assert [a, b][1..] == [b] && [b][1..] == [];
    assert Run(Next(s, a), [b]) == Run(Next(Next(s, a), b), []);
  }

  lemma ThreeSteps(s: State, a: Step, b: Step, c: Step)
    ensures Run(s, [a, b, c]) == Next(Next(Next(s, a), b), c)
  {
    assert [a, b, c][1..] == [b, c];
    TwoSteps(Next(s, a), b, c);
  }

  lemma FourSteps(s: State, a: Step, b: Step, c: Step, d: Step)
    ensures Run(s, [a, b, c, d]) == Next(Next(Next(Next(s, a), b), c), d)
  {
    assert [a, b, c, d][1..] == [b, c, d];
    ThreeSteps(Next(s, a), b, c, d);
  }

  lemma {:induction false} RunConcat(s: State, a: seq<Step>, b: seq<Step>)
    ensures Run(s, a + b) == Run(Run(s, a), b)
    decreases |a|
  {
    if a == [] {
      assert a + b == b;
    } else {
      assert (a + b)[1..] == a[1..] + b;
      RunConcat(Next(s, a[0]), a[1..], b);
    }
  }
}
