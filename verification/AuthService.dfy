/**
 The same calls as they run when nothing interrupts them: each is the run of its own steps of the
 protocol, one after the other.
 */
module AuthService {
  import opened Basics
  import opened TokenProtocol

  datatype Outcome =
    | Issued | SignedOut | InvalidCredentials | AccountSuspended | AccountPending | AccountInactive
    | TokenInvalid | TokenExpired | StoreFailed

  class AuthService {
    var users: map<Id, Status>
    var tokens: map<string, Token>
    var nextId: nat

    /** The protocol state: these tables, the calls of others in flight, and the history. */
    ghost var s: State

    ghost predicate Valid()
      reads this
    {
      users == s.users && tokens == s.tokens && nextId == s.nextId
    }

    constructor (users: map<Id, Status>)
      ensures Valid() && s == Start(users)
    {
      this.users, tokens, nextId := users, map[], 0;
      s := Start(users);
    }

    /** The last step of login and refresh: storing the new token. */
    method GenerateTokens(ghost call: nat, user: Id, login: bool, value: string, expiresAt: int)
        returns (outcome: Outcome)
      requires Valid() && call in s.calls && s.calls[call] == ToIssue(user, login)
      modifies this
      ensures Valid() && s == Next(old(s), Issue(call, value, expiresAt))
      ensures outcome == if user in old(users) && value !in old(tokens) then Issued else StoreFailed
      ensures outcome == Issued ==> tokens == old(tokens)[value := Token(old(nextId), user, expiresAt)]
      ensures outcome != Issued ==> tokens == old(tokens)
      ensures users == old(users)
    {
      s := Next(s, Issue(call, value, expiresAt));
      if user !in users || value in tokens {
        return StoreFailed;
      }
      tokens := tokens[value := Token(nextId, user, expiresAt)];
      nextId := nextId + 1;
      outcome := Issued;
    }

    method Login(ghost call: nat, user: Id, passwordMatches: bool, value: string, expiresAt: int)
        returns (outcome: Outcome)
      requires Valid() && call !in s.calls
      modifies this
      ensures Valid()
      ensures s == Run(old(s),
        [FindUser(call, user, passwordMatches), RecordLogin(call), Issue(call, value, expiresAt)])
      ensures outcome == Issued <==>
        && user in users && users[user] != SUSPENDED && users[user] != PENDING && users[user] != INACTIVE
        && passwordMatches && value !in old(tokens)
      ensures outcome == AccountSuspended <==> user in users && users[user] == SUSPENDED
      ensures outcome == AccountPending <==> user in users && users[user] == PENDING
      ensures outcome == AccountInactive <==> user in users && users[user] == INACTIVE
      ensures outcome == InvalidCredentials <==>
        || user !in users
        || (users[user] != SUSPENDED && users[user] != PENDING && users[user] != INACTIVE && !passwordMatches)
      ensures outcome == Issued ==> tokens == old(tokens)[value := Token(old(nextId), user, expiresAt)]
      ensures outcome != Issued ==> tokens == old(tokens)
      ensures users == old(users)
    {
      ThreeSteps(s, FindUser(call, user, passwordMatches), RecordLogin(call), Issue(call, value, expiresAt));
      s := Next(s, FindUser(call, user, passwordMatches));
      s := Next(s, RecordLogin(call));
      if user in users && !LoginRefused(users[user]) && passwordMatches {
        outcome := GenerateTokens(call, user, true, value, expiresAt);
      } else {
        s := Next(s, Issue(call, value, expiresAt));
        outcome :=
          if user !in users then InvalidCredentials
          else if users[user] == SUSPENDED then AccountSuspended
          else if users[user] == PENDING then AccountPending
          else if users[user] == INACTIVE then AccountInactive
          else InvalidCredentials;
      }
    }

    /** A refresh that succeeds replaces the token by a new one of the same user; the old one is gone. */
    method RefreshTokens(ghost call: nat, token: string, now: int, value: string, expiresAt: int)
        returns (outcome: Outcome)
      requires Valid() && call !in s.calls
      modifies this
      ensures Valid()
      ensures s == Run(old(s),
        [FindToken(call, token, now), DropExpired(call), Rotate(call), Issue(call, value, expiresAt)])
      ensures outcome == TokenInvalid <==> token !in old(tokens) || old(tokens)[token].user !in users
      ensures outcome == TokenExpired <==>
        token in old(tokens) && old(tokens)[token].user in users && old(tokens)[token].expiresAt < now
      ensures outcome == AccountInactive <==>
        && token in old(tokens) && old(tokens)[token].user in users && now <= old(tokens)[token].expiresAt
        && users[old(tokens)[token].user] != ACTIVE
      ensures outcome == Issued || outcome == StoreFailed <==>
        && token in old(tokens) && old(tokens)[token].user in users && now <= old(tokens)[token].expiresAt
        && users[old(tokens)[token].user] == ACTIVE
      ensures outcome == StoreFailed ==> value in old(tokens) && value != token
      ensures outcome == Issued ==>
        && (value !in old(tokens) || value == token)
        && tokens == (old(tokens) - {token})[value := Token(old(nextId), old(tokens)[token].user, expiresAt)]
      ensures outcome == TokenExpired || outcome == StoreFailed ==> tokens == old(tokens) - {token}
      ensures outcome == TokenInvalid || outcome == AccountInactive ==> tokens == old(tokens)
      ensures users == old(users)
    {
      hide Next;
      FourSteps(s, FindToken(call, token, now), DropExpired(call), Rotate(call), Issue(call, value, expiresAt));
      TakenToken(s, call, token, now);
      s := Next(s, FindToken(call, token, now));
      s := Next(s, DropExpired(call));
      s := Next(s, Rotate(call));
      NothingToIssue(s, call, value, expiresAt);
      if token !in tokens || tokens[token].user !in users {
        s := Next(s, Issue(call, value, expiresAt));
        return TokenInvalid;
      }
      var stored := tokens[token];
      if stored.expiresAt < now {
        s := Next(s, Issue(call, value, expiresAt));
        tokens := tokens - {token};
        return TokenExpired;
      }
      if users[stored.user] != ACTIVE {
        s := Next(s, Issue(call, value, expiresAt));
        return AccountInactive;
      }
      tokens := tokens - {token};
      outcome := GenerateTokens(call, stored.user, false, value, expiresAt);
    }

    method Logout(token: string, user: Id) returns (outcome: Outcome)
      requires Valid()
      modifies this
      ensures Valid() && s == Next(old(s), TokenProtocol.Logout(token, user))
      ensures token in tokens ==> tokens[token].user != user
      ensures users == old(users)
      ensures tokens ==
        if token in old(tokens) && old(tokens)[token].user == user then old(tokens) - {token} else old(tokens)
    {
      s := Next(s, TokenProtocol.Logout(token, user));
      if token in tokens && tokens[token].user == user {
        tokens := tokens - {token};
      }
      outcome := SignedOut;
    }

    method LogoutAllDevices(user: Id) returns (outcome: Outcome)
      requires Valid()
      modifies this
      ensures Valid() && s == Next(old(s), LogoutAll(user))
      ensures users == old(users)
      ensures forall v :: v in tokens <==> v in old(tokens) && old(tokens)[v].user != user
      ensures forall v :: v in tokens ==> tokens[v] == old(tokens)[v]
    {
      s := Next(s, LogoutAll(user));
      tokens := tokens - TokensOf(tokens, user);
      outcome := SignedOut;
    }

    /** The end of suspend (with a status), changePassword and adminResetPassword (without). */
    method MarkAndRevoke(ghost call: nat, user: Id, status: Option<Status>)
      requires Valid() && call !in s.calls && user in users
      modifies this
      ensures Valid() && s == Run(old(s), [MarkUser(call, user, status), Revoke(call)])
      ensures users == if status == None then old(users) else old(users)[user := status.value]
      ensures forall v :: v in tokens <==> v in old(tokens) && old(tokens)[v].user != user
      ensures forall v :: v in tokens ==> tokens[v] == old(tokens)[v]
    {
      TwoSteps(s, MarkUser(call, user, status), Revoke(call));
      s := Next(s, MarkUser(call, user, status));
      s := Next(s, Revoke(call));
      users := users[user := status.GetOr(users[user])];
      tokens := tokens - TokensOf(tokens, user);
    }
  }

  /** What the steps of a refresh before its last one come to, when nothing interrupts them. */
  lemma TakenToken(s: State, call: nat, token: string, now: int)
    requires call !in s.calls
    ensures var after := Next(Next(Next(s, FindToken(call, token, now)), DropExpired(call)), Rotate(call));
            && after.users == s.users && after.nextId == s.nextId
            && if token !in s.tokens || s.tokens[token].user !in s.users then
                 after.tokens == s.tokens && call !in after.calls
               else if s.tokens[token].expiresAt < now then
                 after.tokens == s.tokens - {token} && call !in after.calls
               else if s.users[s.tokens[token].user] != ACTIVE then
                 after.tokens == s.tokens && call !in after.calls
               else
                 after.tokens == s.tokens - {token} && call in after.calls
                 && after.calls[call] == ToIssue(s.tokens[token].user, false)
  {
    hide Next;
    var found := Next(s, FindToken(call, token, now));
    FindIs(s, call, token, now);
    DropIs(found, call);
    RotateIs(Next(found, DropExpired(call)), call);
  }

  lemma FindIs(s: State, call: nat, token: string, now: int)
    requires call !in s.calls
    ensures Next(s, FindToken(call, token, now)) == AfterFindToken(s, call, token, now)
  {}

  lemma DropIs(s: State, call: nat)
    ensures Next(s, DropExpired(call)) ==
            if call !in s.calls || !s.calls[call].ToDropExpired? then s
            else
              var c := s.calls[call];
              Finished(if RowPresent(s, c.value, c.id) then WithoutToken(s, c.value) else s, call)
  {}

  lemma RotateIs(s: State, call: nat)
    ensures Next(s, Rotate(call)) ==
            if call !in s.calls || !s.calls[call].ToRotate? then s
            else AfterRotate(s, call, s.calls[call].value, s.calls[call].id, s.calls[call].user)
  {}

  lemma NothingToIssue(s: State, call: nat, value: string, expiresAt: int)
    ensures call !in s.calls ==> Next(s, Issue(call, value, expiresAt)) == s
  {}
}
