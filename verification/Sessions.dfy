/** Refresh-token families, rotation, reuse detection and session epochs.

    Tokens are rows of a table that only grows; a token's secret is its index, since
    hashes of fresh secrets do not collide. A family is named by its first token. The list
    `issued` remembers every access token ever handed out. */
module Sessions {
  import opened Wrappers

  datatype User = User(active: bool, deleted: bool, epoch: nat)

  datatype Token = Token(
    user: nat,
    family: nat,
    parent: Option<nat>,
    replacedBy: Option<nat>,
    revokedAt: Option<int>,
    expiresAt: int,
    reuseDetectedAt: Option<int>)

  /** What an access token says about its holder. */
  datatype AccessToken = AccessToken(user: nat, epoch: nat)

  datatype Store = Store(users: seq<User>, tokens: seq<Token>, issued: seq<AccessToken>)

  datatype Reply = Done | Issued(token: nat) | Unknown | InvalidRefresh | Reused | Denied

  datatype Outcome = Outcome(store: Store, reply: Reply)

  // ----- operations ---------------------------------------------------------------

  /** `update ... set revoked_at` where it is still null, for one family or one user. */
  function Revoke(tokens: seq<Token>, hits: Token -> bool, now: int): (r: seq<Token>)
    ensures |r| == |tokens|
    ensures forall i :: 0 <= i < |tokens| ==>
      r[i] == if hits(tokens[i]) && tokens[i].revokedAt.None? then tokens[i].(revokedAt := Some(now)) else tokens[i]
  {
    seq(|tokens|, i requires 0 <= i < |tokens| =>
      if hits(tokens[i]) && tokens[i].revokedAt.None? then tokens[i].(revokedAt := Some(now)) else tokens[i])
  }

  function RevokeFamily(tokens: seq<Token>, family: nat, now: int): seq<Token> {
    Revoke(tokens, (t: Token) => t.family == family, now)
  }

  function RevokeUser(tokens: seq<Token>, user: nat, now: int): seq<Token> {
    Revoke(tokens, (t: Token) => t.user == user, now)
  }

  function BumpEpoch(users: seq<User>, u: nat): seq<User>
    requires u < |users|
  {
    users[u := users[u].(epoch := users[u].epoch + 1)]
  }

  /** `_issue_token_pair` after a login whose credentials were right. */
  function Login(s: Store, u: nat, now: int, ttl: nat): Outcome {
    if u >= |s.users| || !s.users[u].active then Outcome(s, Denied)
    else
      var n := |s.tokens|;
      Outcome(s.(tokens := s.tokens + [Token(u, n, None, None, None, now + ttl, None)],
                 issued := s.issued + [AccessToken(u, s.users[u].epoch)]), Issued(n))
  }

  function Refresh(s: Store, i: nat, now: int, ttl: nat): Outcome {
    if i >= |s.tokens| || s.tokens[i].user >= |s.users| then Outcome(s, InvalidRefresh)
    else
      var t := s.tokens[i];
      if !s.users[t.user].active then Outcome(s, InvalidRefresh)
      else if t.revokedAt.Some? || t.replacedBy.Some? then
        var marked := s.tokens[i := t.(reuseDetectedAt := Some(now))];
        Outcome(s.(tokens := RevokeFamily(marked, t.family, now), users := BumpEpoch(s.users, t.user)), Reused)
      else if t.expiresAt <= now then
        Outcome(s.(tokens := s.tokens[i := t.(revokedAt := Some(now))]), InvalidRefresh)
      else
        var n := |s.tokens|;
        Outcome(s.(tokens := s.tokens[i := t.(revokedAt := Some(now), replacedBy := Some(n))]
                             + [Token(t.user, t.family, Some(i), None, None, now + ttl, None)],
                   issued := s.issued + [AccessToken(t.user, s.users[t.user].epoch)]), Issued(n))
  }

  function Logout(s: Store, i: nat, now: int): Outcome {
    if i >= |s.tokens| || s.tokens[i].user >= |s.users| then Outcome(s, Unknown)
    else
      var t := s.tokens[i];
      Outcome(s.(tokens := RevokeFamily(s.tokens, t.family, now), users := BumpEpoch(s.users, t.user)), Done)
  }

  predicate Known(s: Store, u: nat) {
    u < |s.users| && !s.users[u].deleted
  }

  function CreateUser(s: Store): Outcome {
    Outcome(s.(users := s.users + [User(true, false, 0)]), Done)
  }

  /** `change_password` with the right current password, and `reset_password`. */
  function NewPassword(s: Store, u: nat, now: int): Outcome {
    if !Known(s, u) then Outcome(s, Unknown)
    else Outcome(s.(users := BumpEpoch(s.users, u), tokens := RevokeUser(s.tokens, u, now)), Done)
  }

  /** `update_user`, as far as it changes whether the account is active. */
  function SetActive(s: Store, u: nat, active: bool, now: int): Outcome {
    if !Known(s, u) then Outcome(s, Unknown)
    else if s.users[u].active == active then Outcome(s, Done)
    else
      Outcome(s.(users := BumpEpoch(s.users[u := s.users[u].(active := active)], u),
                 tokens := RevokeUser(s.tokens, u, now)), Done)
  }

  function DeleteUser(s: Store, u: nat, now: int): Outcome {
    if !Known(s, u) then Outcome(s, Unknown)
    else
      Outcome(s.(users := BumpEpoch(s.users[u := s.users[u].(active := false, deleted := true)], u),
                 tokens := RevokeUser(s.tokens, u, now)), Done)
  }

  /** `get_current_principal`: the token's expiry aside, the account is active and in the
      token's epoch. */
  predicate AccessAccepted(s: Store, a: AccessToken) {
    a.user < |s.users| && s.users[a.user].active && s.users[a.user].epoch == a.epoch
  }

  datatype Call =
    | CallLogin(user: nat)
    | CallRefresh(token: nat)
    | CallLogout(token: nat)
    | CallCreateUser
    | CallNewPassword(user: nat)
    | CallSetActive(user: nat, active: bool)
    | CallDeleteUser(user: nat)

  datatype Event = Event(now: int, ttl: nat, call: Call)

  function Step(s: Store, e: Event): Outcome {
    match e.call
    case CallLogin(u) => Login(s, u, e.now, e.ttl)
    case CallRefresh(i) => Refresh(s, i, e.now, e.ttl)
    case CallLogout(i) => Logout(s, i, e.now)
    case CallCreateUser => CreateUser(s)
    case CallNewPassword(u) => NewPassword(s, u, e.now)
    case CallSetActive(u, active) => SetActive(s, u, active, e.now)
    case CallDeleteUser(u) => DeleteUser(s, u, e.now)
  }

  function Run(s: Store, es: seq<Event>): Store {
    if es == [] then s else Step(Run(s, es[..|es| - 1]), es[|es| - 1]).store
  }

  const Empty := Store([], [], [])

  // ----- the invariant ----------------------------------------------------------------

  ghost predicate SameFamily(s: Store, i: int, j: int) {
    0 <= i < |s.tokens| && 0 <= j < |s.tokens| && s.tokens[i].family == s.tokens[j].family
  }

  /** A token without parent starts its family; any other is the one replacement of its
      parent, in the same family and for the same user. */
  ghost predicate ParentOk(s: Store, i: nat)
    requires i < |s.tokens|
  {
    var t := s.tokens[i];
    && t.family <= i && t.user < |s.users|
    && (t.parent.None? <==> t.family == i)
    && (t.parent.Some? ==>
          && t.parent.value < i
          && s.tokens[t.parent.value].replacedBy == Some(i)
          && s.tokens[t.parent.value].family == t.family
          && s.tokens[t.parent.value].user == t.user)
  }

  /** A replaced token is revoked, and its replacement names it as parent. */
  ghost predicate ReplacementOk(s: Store, i: nat)
    requires i < |s.tokens|
  {
    var t := s.tokens[i];
    t.replacedBy.Some? ==>
      && t.revokedAt.Some?
      && i < t.replacedBy.value < |s.tokens|
      && s.tokens[t.replacedBy.value].parent == Some(i)
  }

  /** Only the newest token of a family lacks a replacement. */
  ghost predicate TailIsLast(s: Store) {
    forall i, j :: SameFamily(s, i, j) && s.tokens[i].replacedBy.None? ==> j <= i
  }

  ghost predicate EpochsOk(s: Store) {
    forall k :: 0 <= k < |s.issued| ==>
      s.issued[k].user < |s.users| && s.issued[k].epoch <= s.users[s.issued[k].user].epoch
  }

  ghost predicate Inv(s: Store) {
    && (forall i :: 0 <= i < |s.tokens| ==> ParentOk(s, i))
    && (forall i :: 0 <= i < |s.tokens| ==> ReplacementOk(s, i))
    && TailIsLast(s) && EpochsOk(s)
  }

  // ----- preservation -------------------------------------------------------------------

  /** The same tokens but for revocation and reuse marks; no user lost, no epoch lowered. */
  ghost predicate OnlyRevokes(s: Store, s': Store) {
    && |s'.tokens| == |s.tokens| && s'.issued == s.issued
    && (forall i :: 0 <= i < |s.tokens| ==>
          && s'.tokens[i]
             == s.tokens[i].(revokedAt := s'.tokens[i].revokedAt, reuseDetectedAt := s'.tokens[i].reuseDetectedAt)
          && (s.tokens[i].revokedAt.Some? ==> s'.tokens[i].revokedAt == s.tokens[i].revokedAt))
    && UsersGrow(s, s')
  }

  ghost predicate UsersGrow(s: Store, s': Store) {
    |s.users| <= |s'.users| && forall u :: 0 <= u < |s.users| ==> s.users[u].epoch <= s'.users[u].epoch
  }

  lemma OnlyRevokesKeepsInv(s: Store, s': Store)
    requires Inv(s) && OnlyRevokes(s, s')
    ensures Inv(s')
  {
    forall i | 0 <= i < |s'.tokens|
      ensures ParentOk(s', i) && ReplacementOk(s', i)
    {
      assert ParentOk(s, i) && ReplacementOk(s, i);
    }
    forall i, j | SameFamily(s', i, j) && s'.tokens[i].replacedBy.None?
      ensures j <= i
    {
      assert SameFamily(s, i, j);
    }
  }

  lemma LoginKeepsInv(s: Store, u: nat, now: int, ttl: nat)
    requires Inv(s)
    ensures Inv(Login(s, u, now, ttl).store)
  {
    var s' := Login(s, u, now, ttl).store;
    if s' != s {
      var n := |s.tokens|;
      forall i | 0 <= i < |s'.tokens|
        ensures ParentOk(s', i) && ReplacementOk(s', i)
        ensures i < n ==> s'.tokens[i] == s.tokens[i] && s'.tokens[i].family < n
      {
        if i < n {
          assert ParentOk(s, i) && ReplacementOk(s, i);
        }
      }
      forall i, j | SameFamily(s', i, j) && s'.tokens[i].replacedBy.None?
        ensures j <= i
      {
        assert i < n && j < n ==> SameFamily(s, i, j);
      }
    }
  }

  /** The rotation of a live token: it is replaced by a new last member of its family. */
  lemma RotationKeepsInv(s: Store, i: nat, now: int, ttl: nat)
    requires Inv(s) && Refresh(s, i, now, ttl).reply.Issued?
    ensures Inv(Refresh(s, i, now, ttl).store)
  {
    var s' := Refresh(s, i, now, ttl).store;
    var n := |s.tokens|;
    assert s'.tokens[i] == s.tokens[i].(revokedAt := Some(now), replacedBy := Some(n));
    assert forall j :: 0 <= j < n && j != i ==> s'.tokens[j] == s.tokens[j];
    forall j | 0 <= j < |s'.tokens|
      ensures ParentOk(s', j) && ReplacementOk(s', j)
    {
      assert ParentOk(s, i) && ReplacementOk(s, i);
      if j < n {
        assert ParentOk(s, j) && ReplacementOk(s, j);
      }
    }
    forall j, k | SameFamily(s', j, k) && s'.tokens[j].replacedBy.None?
      ensures k <= j
    {
      if j < n {
        assert SameFamily(s, j, i) <==> SameFamily(s', j, n);
        assert k < n ==> SameFamily(s, j, k);
        assert SameFamily(s, i, j) <==> SameFamily(s, j, i);
      }
    }
  }

  lemma StepGrowsOrRevokes(s: Store, e: Event)
    requires Inv(s)
    ensures Step(s, e).reply.Issued? || OnlyRevokes(s, Step(s, e).store)
    ensures UsersGrow(s, Step(s, e).store)
  {
  }

  lemma StepKeepsInv(s: Store, e: Event)
    requires Inv(s)
    ensures Inv(Step(s, e).store)
  {
    StepGrowsOrRevokes(s, e);
    if Step(s, e).reply.Issued? {
      match e.call
      case CallLogin(u) => LoginKeepsInv(s, u, e.now, e.ttl);
      case CallRefresh(i) => RotationKeepsInv(s, i, e.now, e.ttl);
    } else {
      OnlyRevokesKeepsInv(s, Step(s, e).store);
    }
  }

  lemma {:induction false} RunKeepsInv(s: Store, es: seq<Event>)
    requires Inv(s)
    ensures Inv(Run(s, es))
  {
    if es != [] {
      RunKeepsInv(s, es[..|es| - 1]);
      StepKeepsInv(Run(s, es[..|es| - 1]), es[|es| - 1]);
    }
  }

  // ----- families are chains ---------------------------------------------------------------

  /** `j` is reached from `i` by following replacements. */
  ghost predicate Leads(s: Store, i: nat, j: nat)
    requires i < |s.tokens| && j < |s.tokens|
    decreases |s.tokens| - i
  {
    i == j || (s.tokens[i].replacedBy.Some? && i < s.tokens[i].replacedBy.value < |s.tokens|
               && Leads(s, s.tokens[i].replacedBy.value, j))
  }

  /** Nothing of a family lies between a token and its replacement. */
  lemma {:induction false} OlderLeadsToNewer(s: Store, i: nat, j: nat)
    requires Inv(s) && i <= j && SameFamily(s, i, j)
    ensures Leads(s, i, j)
    decreases j - i, 0
  {
    if i != j {
      ReplacementIsNotPast(s, i, j);
      var k := s.tokens[i].replacedBy.value;
      assert ReplacementOk(s, i) && ParentOk(s, k);
      OlderLeadsToNewer(s, k, j);
    }
  }

  lemma {:induction false} ReplacementIsNotPast(s: Store, i: nat, j: nat)
    requires Inv(s) && i < j && SameFamily(s, i, j)
    ensures s.tokens[i].replacedBy.Some? && s.tokens[i].replacedBy.value <= j
    decreases j
  {
    assert ParentOk(s, i) && ReplacementOk(s, i) && ParentOk(s, j);
    assert s.tokens[i].replacedBy.Some?;
    var p := s.tokens[j].parent.value;
    assert SameFamily(s, i, p);
    if i < p {
      ReplacementIsNotPast(s, i, p);
    } else if p < i {
      NothingBetween(s, p, i, j);
    }
  }

  /** A parent's replacement is its child, so no member comes between them. */
  lemma {:induction false} NothingBetween(s: Store, p: nat, i: nat, j: nat)
    requires Inv(s) && p < i < j && SameFamily(s, p, i) && SameFamily(s, i, j)
    requires s.tokens[p].replacedBy == Some(j)
    ensures false
    decreases i
  {
    assert ParentOk(s, i) && ParentOk(s, p);
    var q := s.tokens[i].parent.value;
    assert ReplacementOk(s, q);
    if p < q {
      NothingBetween(s, p, q, j);
    } else if q < p {
      NothingBetween(s, q, p, i);
    }
  }

  /** In every reachable state a family is one chain, from its first token through
      replacements to its newest, and only the newest may be unrevoked. */
  lemma FamiliesAreChains(es: seq<Event>)
    ensures var s := Run(Empty, es);
      && (forall i, j :: i <= j && SameFamily(s, i, j) ==> Leads(s, i, j))
      && (forall i, j :: SameFamily(s, i, j) && i < j ==> s.tokens[i].revokedAt.Some?)
  {
    RunKeepsInv(Empty, es);
    var s := Run(Empty, es);
    forall i, j | i <= j && SameFamily(s, i, j)
      ensures Leads(s, i, j) && (i < j ==> s.tokens[i].revokedAt.Some?)
    {
      OlderLeadsToNewer(s, i, j);
      if i < j {
        ReplacementIsNotPast(s, i, j);
        assert ReplacementOk(s, i);
      }
    }
  }

  // ----- the dead stay dead -------------------------------------------------------------------

  ghost predicate FamilyDead(s: Store, family: nat) {
    forall i :: 0 <= i < |s.tokens| && s.tokens[i].family == family ==> s.tokens[i].revokedAt.Some?
  }

  /** No refresh with a member succeeds. */
  ghost predicate NoRefresh(s: Store, family: nat) {
    forall i, now, ttl :: 0 <= i < |s.tokens| && s.tokens[i].family == family ==> !Refresh(s, i, now, ttl).reply.Issued?
  }

  /** None of the first `n` access tokens issued to the user is accepted. */
  ghost predicate AccessDead(s: Store, user: nat, n: nat) {
    n <= |s.issued| && forall k :: 0 <= k < n && s.issued[k].user == user ==> !AccessAccepted(s, s.issued[k])
  }

  /** All access tokens issued so far to the user are of an earlier epoch. */
  ghost predicate EpochsBehind(s: Store, user: nat, n: nat) {
    n <= |s.issued| && user < |s.users|
    && forall k :: 0 <= k < n && s.issued[k].user == user ==> s.issued[k].epoch < s.users[user].epoch
  }

  lemma StepKeepsDead(s: Store, e: Event, family: nat, user: nat, n: nat)
    requires Inv(s) && family < |s.tokens| && FamilyDead(s, family) && EpochsBehind(s, user, n)
    ensures var s' := Step(s, e).store;
      && |s.tokens| <= |s'.tokens| && FamilyDead(s', family) && EpochsBehind(s', user, n)
      && (forall i :: |s.tokens| <= i < |s'.tokens| ==> s'.tokens[i].family != family)
      && s.issued <= s'.issued
  {
    StepGrowsOrRevokes(s, e);
    var s' := Step(s, e).store;
    if Step(s, e).reply.Issued? {
      forall i | 0 <= i < |s'.tokens| && s'.tokens[i].family == family
        ensures s'.tokens[i].revokedAt.Some? && i < |s.tokens|
      {
        assert i < |s.tokens| ==> s'.tokens[i].family == s.tokens[i].family;
      }
    }
  }

  lemma {:induction false} DeadStaysDead(s: Store, es: seq<Event>, family: nat, user: nat, n: nat)
    requires Inv(s) && family < |s.tokens| && FamilyDead(s, family) && EpochsBehind(s, user, n)
    ensures var s' := Run(s, es);
      && Inv(s') && |s.tokens| <= |s'.tokens| && FamilyDead(s', family) && EpochsBehind(s', user, n)
      && (forall i :: |s.tokens| <= i < |s'.tokens| ==> s'.tokens[i].family != family)
      && s.issued <= s'.issued
  {
    if es != [] {
      var m := |es| - 1;
      DeadStaysDead(s, es[..m], family, user, n);
      StepKeepsInv(Run(s, es[..m]), es[m]);
      StepKeepsDead(Run(s, es[..m]), es[m], family, user, n);
      var s1, s2 := Run(s, es[..m]), Run(s, es);
      forall i | |s.tokens| <= i < |s2.tokens|
        ensures s2.tokens[i].family != family
      {
        if i < |s1.tokens| {
          FamiliesFixed(s1, es[m], i);
        }
      }
    }
  }

  lemma FamiliesFixed(s: Store, e: Event, i: nat)
    requires Inv(s) && i < |s.tokens|
    ensures i < |Step(s, e).store.tokens| && Step(s, e).store.tokens[i].family == s.tokens[i].family
    ensures Step(s, e).store.tokens[i].user == s.tokens[i].user
  {
    StepGrowsOrRevokes(s, e);
  }

  lemma {:induction false} DeadMeansUseless(s: Store, family: nat, user: nat, n: nat)
    requires FamilyDead(s, family) && EpochsBehind(s, user, n)
    ensures NoRefresh(s, family) && AccessDead(s, user, n)
  {
  }

  /** The step recorded a reuse or a logout of the family of token `i`. */
  predicate EndsFamily(s: Store, e: Event, i: nat) {
    || (e.call == CallRefresh(i) && Step(s, e).reply == Reused)
    || (e.call == CallLogout(i) && Step(s, e).reply == Done)
  }

  /** Once reuse or logout is recorded, then for ever after no token of that family
      refreshes, the family gains no member, and no access token the user had been issued
      before is accepted. */
  lemma EndedFamiliesStayEnded(s: Store, e: Event, i: nat, es: seq<Event>)
    requires Inv(s) && i < |s.tokens| && EndsFamily(s, e, i)
    ensures var s' := Run(Step(s, e).store, es);
      && NoRefresh(s', s.tokens[i].family)
      && (forall j :: |s.tokens| <= j < |s'.tokens| ==> s'.tokens[j].family != s.tokens[i].family)
      && s.issued <= s'.issued && AccessDead(s', s.tokens[i].user, |s.issued|)
  {
    var s1 := Step(s, e).store;
    var family, user := s.tokens[i].family, s.tokens[i].user;
    assert ParentOk(s, i);
    StepKeepsInv(s, e);
    DeadStaysDead(s1, es, family, user, |s.issued|);
    DeadMeansUseless(Run(s1, es), family, user, |s.issued|);
  }

  /** The step changed the user's password or account. */
  predicate EndsUser(s: Store, e: Event, u: nat) {
    Step(s, e).reply == Done && u < |s.users| &&
    match e.call
    case CallNewPassword(v) => v == u
    case CallDeleteUser(v) => v == u
    case CallSetActive(v, active) => v == u && s.users[u].active != active
    case _ => false
  }

  /** A new password, a deletion or a change of activity ends all sessions of the user: none
      of the refresh tokens and none of the access tokens issued before works ever again. */
  lemma EndedUsersStayEnded(s: Store, e: Event, u: nat, i: nat, es: seq<Event>)
    requires Inv(s) && EndsUser(s, e, u) && i < |s.tokens| && s.tokens[i].user == u
    ensures var s' := Run(Step(s, e).store, es);
      && NoRefresh(s', s.tokens[i].family)
      && s.issued <= s'.issued && AccessDead(s', u, |s.issued|)
  {
    var s1 := Step(s, e).store;
    var family := s.tokens[i].family;
    assert ParentOk(s, i);
    forall j | 0 <= j < |s.tokens| && s.tokens[j].family == family
      ensures s.tokens[j].user == u
    {
      OneUserPerFamily(s, j);
      OneUserPerFamily(s, i);
    }
    StepKeepsInv(s, e);
    DeadStaysDead(s1, es, family, u, |s.issued|);
    DeadMeansUseless(Run(s1, es), family, u, |s.issued|);
  }

  lemma {:induction false} OneUserPerFamily(s: Store, j: nat)
    requires Inv(s) && j < |s.tokens|
    ensures s.tokens[j].family < |s.tokens| && s.tokens[j].user == s.tokens[s.tokens[j].family].user
  {
    assert ParentOk(s, j);
    if s.tokens[j].parent.Some? {
      OneUserPerFamily(s, s.tokens[j].parent.value);
    }
  }

  predicate Live(s: Store, t: Token, now: int) {
    t.revokedAt.None? && now < t.expiresAt && t.user < |s.users| && s.users[t.user].active
  }

  /** Refreshing works exactly for the unrevoked, unexpired token of an active user. */
  lemma RefreshIsExact(s: Store, i: nat, now: int, ttl: nat)
    requires Inv(s)
    ensures Refresh(s, i, now, ttl).reply.Issued?
            <==> i < |s.tokens| && Live(s, s.tokens[i], now)
    ensures Refresh(s, i, now, ttl).reply.Issued? ==>
      var s' := Refresh(s, i, now, ttl).store;
      AccessAccepted(s', s'.issued[|s'.issued| - 1])
      && !Refresh(s', i, now, ttl).reply.Issued?
      && (0 < ttl ==> Refresh(s', |s.tokens|, now, ttl).reply.Issued?)
  {
    if i < |s.tokens| {
      assert ParentOk(s, i) && ReplacementOk(s, i);
    }
  }

  /** A token works until its expiry and no longer. Presenting it after that revokes it, and
      presenting it once more counts as reuse. */
  lemma ExpiryIsExact(s: Store, e: Event, later: int, ttl: nat)
    requires Inv(s) && Step(s, e).reply.Issued?
    ensures var s' := Step(s, e).store;
      var i := |s.tokens|;
      && Step(s, e).reply == Issued(i) && i < |s'.tokens| && AccessAccepted(s', s'.issued[|s'.issued| - 1])
      && (Refresh(s', i, later, ttl).reply.Issued? <==> later < e.now + e.ttl)
      && (later >= e.now + e.ttl ==>
            var late := Refresh(s', i, later, ttl);
            late.reply == InvalidRefresh && late.store.tokens[i].revokedAt == Some(later)
            && Refresh(late.store, i, later, ttl).reply == Reused)
  {
  }
}
