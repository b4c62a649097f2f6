/** The authentication and account methods on mutable tables. */
module SessionService {
  import opened Wrappers
  import opened Sessions
  import LoginThrottle

  datatype LoginReply = TokenPair(token: nat) | RateLimited | InvalidCredentials

  class SessionService {
    const limits: LoginThrottle.Limits
    const refreshTtl: nat
    var users: seq<User>
    var tokens: seq<Token>
    var issued: seq<AccessToken>
    var throttles: map<string, LoginThrottle.Throttle>

    function Contents(): Store
      reads this
    {
      Store(users, tokens, issued)
    }

    /** The throttle row of an email and source. */
    function RowOf(key: string): Option<LoginThrottle.Throttle>
      reads this
    {
      if key in throttles then Some(throttles[key]) else None
    }

    ghost predicate Valid()
      reads this
    {
      Inv(Contents())
    }

    constructor (limits: LoginThrottle.Limits, refreshTtl: nat)
      ensures Valid() && Contents() == Empty && throttles == map[]
      ensures this.limits == limits && this.refreshTtl == refreshTtl
    {
      this.limits, this.refreshTtl := limits, refreshTtl;
      users, tokens, issued, throttles := [], [], [], map[];
    }

    /** `_record_failure`: true when the key is now locked. */
    method RecordFailure(key: string, now: int) returns (locked: bool)
      modifies this`throttles
      ensures throttles == old(throttles)[key := LoginThrottle.RecordFailure(limits, old(RowOf(key)), now)]
      ensures locked <==> throttles[key].failures >= limits.limit
    {
      var row := LoginThrottle.Throttle(0, now, None);
      if key in throttles {
        row := throttles[key];
        if now - row.windowStart >= limits.window {
          row := row.(failures := 0);
          row := row.(windowStart := now);
          row := row.(lockedUntil := None);
        }
      }
      row := row.(failures := row.failures + 1);
      locked := row.failures >= limits.limit;
      if locked {
        row := row.(lockedUntil := Some(now + limits.lockout));
      }
      throttles := throttles[key := row];
    }

    /** `login`. `account` is the user of the email whose password the request got right, if
        there is one. Only an evaluated, failed attempt moves the throttle; success clears it. */
    method Login(key: string, account: Option<nat>, now: int) returns (reply: LoginReply)
      requires Valid()
      modifies this
      ensures Valid()
      ensures LoginThrottle.TurnedAway(old(RowOf(key)), now) ==>
        reply == RateLimited && Contents() == old(Contents()) && throttles == old(throttles)
      ensures !LoginThrottle.TurnedAway(old(RowOf(key)), now) ==>
        if account.Some? && Sessions.Login(old(Contents()), account.value, now, refreshTtl).reply.Issued?
        then Outcome(Contents(), Issued(old(|tokens|)))
             == Sessions.Login(old(Contents()), account.value, now, refreshTtl)
             && reply == TokenPair(old(|tokens|)) && throttles == old(throttles) - {key}
        else Contents() == old(Contents())
             && throttles == old(throttles)[key := LoginThrottle.RecordFailure(limits, old(RowOf(key)), now)]
             && reply == if throttles[key].failures >= limits.limit then RateLimited else InvalidCredentials
    {
      if key in throttles && throttles[key].lockedUntil.Some? && throttles[key].lockedUntil.value > now {
        return RateLimited;
      }
      if account.None? || account.value >= |users| || !users[account.value].active {
        var locked := RecordFailure(key, now);
        return if locked then RateLimited else InvalidCredentials;
      }
      LoginKeepsInv(Contents(), account.value, now, refreshTtl);
      throttles := throttles - {key};
      var n := |tokens|;
      tokens := tokens + [Token(account.value, n, None, None, None, now + refreshTtl, None)];
      issued := issued + [AccessToken(account.value, users[account.value].epoch)];
      return TokenPair(n);
    }

    /** `_revoke_family` */
    method RevokeFamily(family: nat, now: int)
      modifies this`tokens
      ensures tokens == Sessions.RevokeFamily(old(tokens), family, now)
    {
      for i := 0 to |tokens|
        invariant |tokens| == |old(tokens)|
        invariant forall j :: 0 <= j < |tokens| ==>
          tokens[j] == if j < i then Sessions.RevokeFamily(old(tokens), family, now)[j] else old(tokens)[j]
      {
        if tokens[i].family == family && tokens[i].revokedAt.None? {
          tokens := tokens[i := tokens[i].(revokedAt := Some(now))];
        }
      }
    }

    method RevokeUser(user: nat, now: int)
      modifies this`tokens
      ensures tokens == Sessions.RevokeUser(old(tokens), user, now)
    {
      for i := 0 to |tokens|
        invariant |tokens| == |old(tokens)|
        invariant forall j :: 0 <= j < |tokens| ==>
          tokens[j] == if j < i then Sessions.RevokeUser(old(tokens), user, now)[j] else old(tokens)[j]
      {
        if tokens[i].user == user && tokens[i].revokedAt.None? {
          tokens := tokens[i := tokens[i].(revokedAt := Some(now))];
        }
      }
    }

    method Refresh(i: nat, now: int) returns (reply: Reply)
      requires Valid()
      modifies this`users, this`tokens, this`issued
      ensures Valid()
      ensures Outcome(Contents(), reply) == Sessions.Refresh(old(Contents()), i, now, refreshTtl)
    {
      StepKeepsInv(Contents(), Event(now, refreshTtl, CallRefresh(i)));
      hide Inv;
      if i >= |tokens| || tokens[i].user >= |users| {
        return InvalidRefresh;
      }
      var stored := tokens[i];
      if !users[stored.user].active {
        return InvalidRefresh;
      }
      if stored.revokedAt.Some? || stored.replacedBy.Some? {
        tokens := tokens[i := stored.(reuseDetectedAt := Some(now))];
        RevokeFamily(stored.family, now);
        users := users[stored.user := users[stored.user].(epoch := users[stored.user].epoch + 1)];
        return Reused;
      }
      if stored.expiresAt <= now {
        tokens := tokens[i := stored.(revokedAt := Some(now))];
        return InvalidRefresh;
      }
      var n := |tokens|;
      tokens := tokens + [Token(stored.user, stored.family, Some(i), None, None, now + refreshTtl, None)];
      tokens := tokens[i := tokens[i].(revokedAt := Some(now))];
      tokens := tokens[i := tokens[i].(replacedBy := Some(n))];
      issued := issued + [AccessToken(stored.user, users[stored.user].epoch)];
      assert tokens == Sessions.Refresh(old(Contents()), i, now, refreshTtl).store.tokens;
      return Issued(n);
    }

    method Logout(i: nat, now: int) returns (reply: Reply)
      requires Valid()
      modifies this`users, this`tokens
      ensures Valid()
      ensures Outcome(Contents(), reply) == Sessions.Logout(old(Contents()), i, now)
    {
      StepKeepsInv(Contents(), Event(now, 0, CallLogout(i)));
      hide Inv;
      if i >= |tokens| || tokens[i].user >= |users| {
        return Unknown;
      }
      var stored := tokens[i];
      RevokeFamily(stored.family, now);
      users := users[stored.user := users[stored.user].(epoch := users[stored.user].epoch + 1)];
      return Done;
    }

    method CreateUser() returns (reply: Reply)
      requires Valid()
      modifies this`users
      ensures Valid()
      ensures Outcome(Contents(), reply) == Sessions.CreateUser(old(Contents()))
    {
      StepKeepsInv(Contents(), Event(0, 0, CallCreateUser));
      users := users + [User(true, false, 0)];
      return Done;
    }

    /** `change_password`, once the current password is confirmed, and `reset_password`. */
    method NewPassword(u: nat, now: int) returns (reply: Reply)
      requires Valid()
      modifies this`users, this`tokens
      ensures Valid()
      ensures Outcome(Contents(), reply) == Sessions.NewPassword(old(Contents()), u, now)
    {
      StepKeepsInv(Contents(), Event(now, 0, CallNewPassword(u)));
      hide Inv;
      if u >= |users| || users[u].deleted {
        return Unknown;
      }
      users := users[u := users[u].(epoch := users[u].epoch + 1)];
      RevokeUser(u, now);
      return Done;
    }

    method SetActive(u: nat, active: bool, now: int) returns (reply: Reply)
      requires Valid()
      modifies this`users, this`tokens
      ensures Valid()
      ensures Outcome(Contents(), reply) == Sessions.SetActive(old(Contents()), u, active, now)
    {
      StepKeepsInv(Contents(), Event(now, 0, CallSetActive(u, active)));
      hide Inv;
      if u >= |users| || users[u].deleted {
        return Unknown;
      }
      if active != users[u].active {
        users := users[u := users[u].(active := active)];
        users := users[u := users[u].(epoch := users[u].epoch + 1)];
        RevokeUser(u, now);
      }
      return Done;
    }

    method DeleteUser(u: nat, now: int) returns (reply: Reply)
      requires Valid()
      modifies this`users, this`tokens
      ensures Valid()
      ensures Outcome(Contents(), reply) == Sessions.DeleteUser(old(Contents()), u, now)
    {
      StepKeepsInv(Contents(), Event(now, 0, CallDeleteUser(u)));
      hide Inv;
      if u >= |users| || users[u].deleted {
        return Unknown;
      }
      RevokeUser(u, now);
      users := users[u := users[u].(active := false)];
      users := users[u := users[u].(deleted := true)];
      users := users[u := users[u].(epoch := users[u].epoch + 1)];
      assert Contents() == Sessions.DeleteUser(old(Contents()), u, now).store;
      return Done;
    }
  }
}
