/** What the authentication and account calls answer, all that each of them changes, and who
    stays locked out. */
module SessionEffects {
  import opened Wrappers
  import opened Sessions

  // ----- what is revoked ------------------------------------------------------------

  /** The user's live tokens are revoked now; every other token is as it was. */
  ghost predicate UserRevoked(before: seq<Token>, after: seq<Token>, u: nat, now: int) {
    && |after| == |before|
    && forall i :: 0 <= i < |before| ==>
         after[i] == if before[i].user == u && before[i].revokedAt.None? then before[i].(revokedAt := Some(now))
                     else before[i]
  }

  /** The family's live tokens are revoked now; of the others, and of all else, nothing moves
      but the mark of reuse on the token that was presented. */
  ghost predicate FamilyRevoked(before: seq<Token>, after: seq<Token>, presented: nat, reused: bool, now: int)
    requires presented < |before|
  {
    && |after| == |before|
    && forall i :: 0 <= i < |before| ==>
         && after[i].reuseDetectedAt == (if reused && i == presented then Some(now) else before[i].reuseDetectedAt)
         && after[i].revokedAt == (if before[i].family == before[presented].family && before[i].revokedAt.None?
                                   then Some(now) else before[i].revokedAt)
         && after[i] == before[i].(reuseDetectedAt := after[i].reuseDetectedAt, revokedAt := after[i].revokedAt)
  }

  /** Of the accounts only this one becomes another. */
  ghost predicate AccountBecomes(before: seq<User>, after: seq<User>, u: nat, account: User) {
    u < |before| && after == before[u := account]
  }

  ghost predicate Exists(s: Store, u: nat) {
    u < |s.users| && !s.users[u].deleted
  }

  // ----- accounts -------------------------------------------------------------------

  /** A change of activity does what it says: the account is active as asked afterwards, and
      if it was not before, its sessions end. No other account and no other user's token
      changes; an unknown or deleted account is refused. */
  lemma SetActiveExact(s: Store, u: nat, active: bool, now: int)
    ensures var r := SetActive(s, u, active, now);
      if !Exists(s, u) then r == Outcome(s, Unknown)
      else if s.users[u].active == active then r == Outcome(s, Done)
      else
        && r.reply == Done && r.store.issued == s.issued
        && AccountBecomes(s.users, r.store.users, u, User(active, false, s.users[u].epoch + 1))
        && UserRevoked(s.tokens, r.store.tokens, u, now)
  {
  }

  /** A deleted account is inactive, and its sessions end. */
  lemma DeleteUserExact(s: Store, u: nat, now: int)
    ensures var r := DeleteUser(s, u, now);
      if !Exists(s, u) then r == Outcome(s, Unknown)
      else
        && r.reply == Done && r.store.issued == s.issued
        && AccountBecomes(s.users, r.store.users, u, User(false, true, s.users[u].epoch + 1))
        && UserRevoked(s.tokens, r.store.tokens, u, now)
  {
  }

  /** A new password ends the sessions of the account and leaves its activity alone. */
  lemma NewPasswordExact(s: Store, u: nat, now: int)
    ensures var r := NewPassword(s, u, now);
      if !Exists(s, u) then r == Outcome(s, Unknown)
      else
        && r.reply == Done && r.store.issued == s.issued
        && AccountBecomes(s.users, r.store.users, u, User(s.users[u].active, false, s.users[u].epoch + 1))
        && UserRevoked(s.tokens, r.store.tokens, u, now)
  {
  }

  /** A new account is active, and nothing else changes. */
  lemma CreateUserExact(s: Store)
    ensures CreateUser(s) == Outcome(s.(users := s.users + [User(true, false, 0)]), Done)
  {
  }

  // ----- sessions -------------------------------------------------------------------

  /** A login with the right password issues a pair exactly for an active account: a token
      that starts a family of its own, and an access token of the account's epoch. */
  lemma LoginExact(s: Store, u: nat, now: int, ttl: nat)
    requires Inv(s)
    ensures var r := Login(s, u, now, ttl);
      var n := |s.tokens|;
      if u < |s.users| && s.users[u].active then
        && r.reply == Issued(n) && r.store.users == s.users
        && |r.store.tokens| == n + 1 && r.store.tokens[..n] == s.tokens
        && r.store.tokens[n].user == u && r.store.tokens[n].expiresAt == now + ttl
        && (forall i :: 0 <= i < n ==> r.store.tokens[n].family != s.tokens[i].family)
        && r.store.issued == s.issued + [AccessToken(u, s.users[u].epoch)]
        && AccessAccepted(r.store, r.store.issued[|s.issued|])
      else r == Outcome(s, Denied)
  {
    forall i | 0 <= i < |s.tokens|
      ensures s.tokens[i].family < |s.tokens|
    {
      assert ParentOk(s, i);
    }
  }

  /** A refresh answers by what it finds. An unknown token or an inactive account changes
      nothing; a token used before ends its family and the user's epoch; an expired one is
      revoked; any other is exchanged for one of its family that lasts as long from now. */
  lemma RefreshExact(s: Store, i: nat, now: int, ttl: nat)
    requires Inv(s)
    ensures var r := Refresh(s, i, now, ttl);
      if i >= |s.tokens| || s.tokens[i].user >= |s.users| || !s.users[s.tokens[i].user].active then
        r == Outcome(s, InvalidRefresh)
      else
        var t, n, account := s.tokens[i], |s.tokens|, s.users[s.tokens[i].user];
        if t.revokedAt.Some? then
          && r.reply == Reused && r.store.issued == s.issued
          && AccountBecomes(s.users, r.store.users, t.user, account.(epoch := account.epoch + 1))
          && FamilyRevoked(s.tokens, r.store.tokens, i, true, now)
        else if t.expiresAt <= now then
          r == Outcome(s.(tokens := s.tokens[i := t.(revokedAt := Some(now))]), InvalidRefresh)
        else
          && r.reply == Issued(n) && r.store.users == s.users
          && |r.store.tokens| == n + 1
          && (forall j :: 0 <= j < n && j != i ==> r.store.tokens[j] == s.tokens[j])
          && r.store.tokens[i] == t.(revokedAt := Some(now), replacedBy := Some(n))
          && r.store.tokens[n] == Token(t.user, t.family, Some(i), None, None, now + ttl, None)
          && r.store.issued == s.issued + [AccessToken(t.user, account.epoch)]
  {
    if i < |s.tokens| {
      assert ParentOk(s, i) && ReplacementOk(s, i);
    }
  }

  /** A logout ends the family of a known token and the user's epoch, and nothing else. */
  lemma LogoutExact(s: Store, i: nat, now: int)
    requires Inv(s)
    ensures var r := Logout(s, i, now);
      if i >= |s.tokens| then r == Outcome(s, Unknown)
      else
        var u := s.tokens[i].user;
        && u < |s.users| && r.reply == Done && r.store.issued == s.issued
        && AccountBecomes(s.users, r.store.users, u, s.users[u].(epoch := s.users[u].epoch + 1))
        && FamilyRevoked(s.tokens, r.store.tokens, i, false, now)
  {
    if i < |s.tokens| {
      assert ParentOk(s, i);
    }
  }

  // ----- who stays out ----------------------------------------------------------------

  /** Nothing the account's holder presents is accepted. */
  ghost predicate LockedOut(s: Store, u: nat) {
    && (forall now, ttl :: Login(s, u, now, ttl).reply == Denied)
    && (forall i, now, ttl :: 0 <= i < |s.tokens| && s.tokens[i].user == u ==> !Refresh(s, i, now, ttl).reply.Issued?)
    && (forall a: AccessToken :: a.user == u ==> !AccessAccepted(s, a))
  }

  lemma InactiveIsLockedOut(s: Store, u: nat)
    requires u < |s.users| && !s.users[u].active
    ensures LockedOut(s, u)
  {
  }

  lemma InactiveStep(s: Store, e: Event, u: nat)
    requires u < |s.users| && !s.users[u].active && e.call != CallSetActive(u, true)
    ensures u < |Step(s, e).store.users| && !Step(s, e).store.users[u].active
  {
  }

  /** An account that has been disabled stays locked out, whatever is called, until some call
      makes it active again. */
  lemma {:induction false} InactiveStayOut(s: Store, u: nat, es: seq<Event>)
    requires u < |s.users| && !s.users[u].active
    requires forall k :: 0 <= k < |es| ==> es[k].call != CallSetActive(u, true)
    ensures u < |Run(s, es).users| && !Run(s, es).users[u].active && LockedOut(Run(s, es), u)
  {
    if es != [] {
      var n := |es| - 1;
      InactiveStayOut(s, u, es[..n]);
      InactiveStep(Run(s, es[..n]), es[n], u);
    }
    InactiveIsLockedOut(Run(s, es), u);
  }

  lemma DeletedStep(s: Store, e: Event, u: nat)
    requires u < |s.users| && s.users[u].deleted && !s.users[u].active
    ensures var s' := Step(s, e).store;
      u < |s'.users| && s'.users[u].deleted && !s'.users[u].active
  {
  }

  /** A deleted account stays locked out for ever: no call makes it active again. */
  lemma {:induction false} DeletedStayOut(s: Store, u: nat, now: int, es: seq<Event>)
    requires Exists(s, u)
    ensures var s' := Run(DeleteUser(s, u, now).store, es);
      u < |s'.users| && s'.users[u].deleted && !s'.users[u].active && LockedOut(s', u)
  {
    var s1 := DeleteUser(s, u, now).store;
    if es != [] {
      var n := |es| - 1;
      DeletedStayOut(s, u, now, es[..n]);
      DeletedStep(Run(s1, es[..n]), es[n], u);
    }
    InactiveIsLockedOut(Run(s1, es), u);
  }
}
