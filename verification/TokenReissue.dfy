/**
 Signing puts nothing into a refresh token that tells two of the same second apart: the same value can
 be issued again, and redeemed again.
 */
module TokenReissue {
  import opened TokenProtocol
  import opened TokenRevocation

  const REISSUE: seq<Step> :=
    [Rotate(1), Issue(1, "first", 9), FindToken(2, "first", 0), Rotate(2)]

  /** A refresh that is answered within the second of the login yields the login's own token. */
  lemma SameValueCanBeRedeemedTwice()
    ensures Run(Start(map["user" := ACTIVE]), SIGN_IN + REISSUE).redeemed["first"] == 2
  {
    var s := Start(map["user" := ACTIVE]);
    SignedIn(s);
    RunConcat(s, SIGN_IN, REISSUE);
    Redeemed(Run(s, SIGN_IN));
  }

  lemma Redeemed(s: State)
    requires s.users == map["user" := ACTIVE] && s.tokens == map["first" := Token(0, "user", 9)]
    requires s.calls == map[1 := ToRotate("first", 0, "user")] && s.redeemed == multiset{}
    ensures Run(s, REISSUE).redeemed["first"] == 2
  {
    FourSteps(s, REISSUE[0], REISSUE[1], REISSUE[2], REISSUE[3]);
    hide Run, Next;
    var s1 := Next(s, REISSUE[0]);
    Rotated(s);
    RotatedCounts(s, 1);
    var s2 := Next(s1, REISSUE[1]);
    IssuedAgain(s1);
    var s3 := Next(s2, REISSUE[2]);
    FoundAgain(s2);
    RotatedCounts(s3, 2);
  }

  lemma RotatedCounts(s: State, call: nat)
    requires call in s.calls && s.calls[call].ToRotate?
    requires RowPresent(s, s.calls[call].value, s.calls[call].id)
    ensures Next(s, Rotate(call)).redeemed == s.redeemed + multiset{s.calls[call].value}
  {}

  lemma IssuedAgain(s: State)
    requires s.users == map["user" := ACTIVE] && s.tokens == map[] && s.calls == map[1 := ToIssue("user", false)]
    ensures var after := Next(s, REISSUE[1]);
            && after.users == s.users && after.calls == map[] && after.redeemed == s.redeemed
            && after.tokens == map["first" := Token(s.nextId, "user", 9)]
  {}

  lemma FoundAgain(s: State)
    requires s.users == map["user" := ACTIVE] && s.calls == map[]
    requires "first" in s.tokens && s.tokens["first"].user == "user" && s.tokens["first"].expiresAt == 9
    ensures var after := Next(s, REISSUE[2]);
            && after.tokens == s.tokens && after.redeemed == s.redeemed
            && 2 in after.calls && after.calls[2] == ToRotate("first", s.tokens["first"].id, "user")
  {}
}
