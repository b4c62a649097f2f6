/** The browser's map of replaced access tokens: following it, shortening its paths, and
    the requests that write it between their awaits. */
module TokenMap {
  import opened Wrappers

  type Token = string

  type Replacements = map<Token, Token>

  // ----- following the map ----------------------------------------------------------

  /** The token `n` replacements after `t`. */
  function Follow(m: Replacements, t: Token, n: nat): Option<Token>
    decreases n
  {
    if n == 0 then Some(t) else if t in m then Follow(m, m[t], n - 1) else None
  }

  /** `f` is where the replacements of `t` end. */
  ghost predicate Final(m: Replacements, t: Token, f: Token) {
    f !in m && exists n: nat :: Follow(m, t, n) == Some(f)
  }

  ghost predicate Ends(m: Replacements, t: Token) {
    exists f :: Final(m, t, f)
  }

  ghost predicate OnCycle(m: Replacements, t: Token) {
    exists n: nat :: n > 0 && Follow(m, t, n) == Some(t)
  }

  ghost predicate Acyclic(m: Replacements) {
    forall t :: !OnCycle(m, t)
  }

  lemma {:induction false} FollowOn(m: Replacements, t: Token, a: nat, b: nat)
    requires Follow(m, t, a).Some?
    ensures Follow(m, t, a + b) == Follow(m, Follow(m, t, a).value, b)
    decreases a
  {
    if a > 0 {
      FollowOn(m, m[t], a - 1, b);
    }
  }

  lemma FinalIsUnique(m: Replacements, t: Token, f: Token, g: Token)
    requires Final(m, t, f) && Final(m, t, g)
    ensures f == g
  {
    var a: nat :| Follow(m, t, a) == Some(f);
    var b: nat :| Follow(m, t, b) == Some(g);
    if a < b {
      FollowOn(m, t, a, b - a);
    } else if b < a {
      FollowOn(m, t, b, a - b);
    }
  }

  /** What ends cannot go round. */
  lemma {:induction false} FinalIsNotOnCycle(m: Replacements, t: Token, f: Token, n: nat, p: nat)
    requires f !in m && Follow(m, t, n) == Some(f) && p > 0 && Follow(m, t, p) == Some(t)
    ensures false
    decreases n
  {
    if n < p {
      FollowOn(m, t, n, p - n);
    } else {
      FollowOn(m, t, p, n - p);
      FinalIsNotOnCycle(m, t, f, n - p, p);
    }
  }

  // ----- currentToken -----------------------------------------------------------------

  function Elements(s: seq<Token>): set<Token> {
    set x | x in s
  }

  /** The loop of `currentToken`: stop at a token without replacement or seen before. */
  function Chase(m: Replacements, t: Token, visited: seq<Token>): (r: (Token, seq<Token>))
    decreases m.Keys - Elements(visited)
  {
    if t in m && t !in visited then
      assert t in m.Keys - Elements(visited) && t !in m.Keys - Elements(visited + [t]);
      assert m.Keys - Elements(visited + [t]) <= m.Keys - Elements(visited);
      Chase(m, m[t], visited + [t])
    else (t, visited)
  }

  /** Every visited token now leads straight to the end. */
  function Shorten(m: Replacements, visited: seq<Token>, end: Token): Replacements {
    map k | k in m.Keys + Elements(visited) :: if k in visited then end else m[k]
  }

  function Current(m: Replacements, t: Token): Token {
    Chase(m, t, []).0
  }

  function Compressed(m: Replacements, t: Token): Replacements {
    var (end, visited) := Chase(m, t, []);
    Shorten(m, visited, end)
  }

  /** The visited tokens are the path from `t`, in order. */
  ghost predicate IsPath(m: Replacements, t: Token, visited: seq<Token>) {
    forall i :: 0 <= i < |visited| ==> visited[i] in m && Follow(m, t, i) == Some(visited[i])
  }

  lemma {:induction false} ChaseIsPath(m: Replacements, t: Token, u: Token, visited: seq<Token>)
    requires IsPath(m, t, visited) && Follow(m, t, |visited|) == Some(u)
    ensures var (end, path) := Chase(m, u, visited);
      && visited <= path && IsPath(m, t, path) && Follow(m, t, |path|) == Some(end)
      && (end in m ==> end in path)
    decreases m.Keys - Elements(visited)
  {
    if u in m && u !in visited {
      FollowOn(m, t, |visited|, 1);
      assert Follow(m, u, 1) == Follow(m, m[u], 0);
      assert u in m.Keys - Elements(visited) && u !in m.Keys - Elements(visited + [u]);
      assert m.Keys - Elements(visited + [u]) <= m.Keys - Elements(visited);
      ChaseIsPath(m, t, m[u], visited + [u]);
    }
  }

  /** On every map `currentToken` stops: at the final replacement, or on a cycle. */
  lemma CurrentIsFinalOrOnCycle(m: Replacements, t: Token)
    ensures if Current(m, t) in m then OnCycle(m, Current(m, t)) else Final(m, t, Current(m, t))
  {
    ChaseIsPath(m, t, t, []);
    var (end, path) := Chase(m, t, []);
    if end in m {
      var i :| 0 <= i < |path| && path[i] == end;
      FollowOn(m, t, i, |path| - i);
      assert Follow(m, end, |path| - i) == Some(end);
    }
  }

  lemma EndsIsNotOnCycle(m: Replacements, t: Token)
    requires Ends(m, t)
    ensures !OnCycle(m, t)
  {
    if OnCycle(m, t) {
      var p: nat :| p > 0 && Follow(m, t, p) == Some(t);
      var f :| Final(m, t, f);
      var n: nat :| Follow(m, t, n) == Some(f);
      FinalIsNotOnCycle(m, t, f, n, p);
    }
  }

  lemma AcyclicEnds(m: Replacements, t: Token)
    requires Acyclic(m)
    ensures Final(m, t, Current(m, t)) && Ends(m, t)
  {
    hide Final, OnCycle, Current;
    CurrentIsFinalOrOnCycle(m, t);
  }

  /** A map has no cycle exactly when every token has a final replacement. */
  lemma AcyclicIffAllEnd(m: Replacements)
    ensures Acyclic(m) <==> forall t :: Ends(m, t)
  {
    hide Ends, OnCycle;
    forall t | Ends(m, t)
      ensures !OnCycle(m, t)
    {
      EndsIsNotOnCycle(m, t);
    }
    forall t | Acyclic(m)
      ensures Ends(m, t)
    {
      AcyclicEnds(m, t);
    }
  }

  lemma {:induction false} ShortenedStepsEnd(m: Replacements, t: Token, x: Token, f: Token, n: nat)
    requires Current(m, t) !in m && f !in m && Follow(m, x, n) == Some(f)
    ensures Final(Compressed(m, t), x, f)
    decreases n
  {
    ChaseIsPath(m, t, t, []);
    var (end, path) := Chase(m, t, []);
    var m' := Compressed(m, t);
    assert forall i :: 0 <= i < |path| ==> path[i] in m;
    assert m'.Keys == m.Keys;
    if n == 0 {
      assert Follow(m', x, 0) == Some(f);
    } else if x in path {
      var i :| 0 <= i < |path| && path[i] == x;
      FollowOn(m, t, i, |path| - i);
      assert Final(m, x, end) && Final(m, x, f);
      FinalIsUnique(m, x, end, f);
      assert Follow(m', x, 1) == Follow(m', end, 0);
    } else {
      ShortenedStepsEnd(m, t, m[x], f, n - 1);
      var k: nat :| Follow(m', m[x], k) == Some(f);
      assert Follow(m', x, k + 1) == Some(f);
    }
  }

  /** Path compression preserves meaning: on an acyclic map the token returned is the final
      replacement, no token's final replacement changes, and no cycle appears. */
  lemma CompressionPreservesMeaning(m: Replacements, t: Token)
    requires Acyclic(m)
    ensures Final(m, t, Current(m, t))
    ensures forall x, f :: Final(m, x, f) <==> Final(Compressed(m, t), x, f)
    ensures Acyclic(Compressed(m, t)) && Compressed(m, t).Keys == m.Keys
  {
    AcyclicEnds(m, t);
    KeysUnchanged(m, t);
    forall x, f
      ensures Final(m, x, f) <==> Final(Compressed(m, t), x, f)
    {
      SameFinal(m, t, x);
    }
    forall x
      ensures Ends(Compressed(m, t), x)
    {
      SameFinal(m, t, x);
    }
    AcyclicIffAllEnd(Compressed(m, t));
  }

  lemma SameFinal(m: Replacements, t: Token, x: Token)
    requires Acyclic(m)
    ensures Ends(Compressed(m, t), x)
    ensures forall f :: Final(m, x, f) <==> Final(Compressed(m, t), x, f)
  {
    AcyclicEnds(m, t);
    AcyclicEnds(m, x);
    var g := Current(m, x);
    var n: nat :| Follow(m, x, n) == Some(g);
    ShortenedStepsEnd(m, t, x, g, n);
    hide Compressed, Current, Acyclic;
    forall f
      ensures Final(m, x, f) <==> Final(Compressed(m, t), x, f)
    {
      if Final(m, x, f) {
        FinalIsUnique(m, x, f, g);
      }
      if Final(Compressed(m, t), x, f) {
        FinalIsUnique(Compressed(m, t), x, f, g);
      }
    }
  }

  lemma KeysUnchanged(m: Replacements, t: Token)
    ensures Compressed(m, t).Keys == m.Keys
  {
    ChaseIsPath(m, t, t, []);
    var (end, path) := Chase(m, t, []);
    assert forall i :: 0 <= i < |path| ==> path[i] in m;
  }

  /** A second look finds the same token, one step away. */
  lemma SecondLookIsDirect(m: Replacements, t: Token)
    requires Acyclic(m)
    ensures Current(Compressed(m, t), t) == Current(m, t)
    ensures t in m ==> Compressed(m, t)[t] == Current(m, t)
  {
    CompressionPreservesMeaning(m, t);
    CompressionPreservesMeaning(Compressed(m, t), t);
    FinalIsUnique(Compressed(m, t), t, Current(m, t), Current(Compressed(m, t), t));
    ChaseIsPath(m, t, t, []);
    if t in m {
      var (end, path) := Chase(m, t, []);
      assert Chase(m, t, []) == Chase(m, m[t], [] + [t]);
      assert [] + [t] == [t];
      ChaseIsPath(m, t, m[t], [t]);
      assert path[0] == t;
    }
  }

  // ----- requests ---------------------------------------------------------------------

  datatype Refresh = Pending | Resolved(token: Token) | Failed

  /** Waiting for the first response, for a shared refresh, for the response to the retry
      with a new token, or settled. */
  datatype Place = Sent | Waiting(refresh: nat) | Retried(token: Token) | Settled

  /** A call of `fetchWithAccessToken`; `sends` counts its fetches. */
  datatype Request = Request(generation: nat, attempted: Token, place: Place, sends: nat)

  /** The module's state, the refreshes started so far and the requests made so far.
      `known` lists the tokens anyone has been given, in the order of their delivery. */
  datatype System = System(
    replacements: Replacements,
    generation: nat,
    inFlight: Option<nat>,
    refreshes: seq<Refresh>,
    known: seq<Token>,
    requests: seq<Request>)

  datatype Action =
    | Learns(token: Token)
    | Begins(token: Token)
    | Answered(i: nat)
    | Expired(i: nat)
    | Resolves(id: nat, token: Token)
    | Rejects(id: nat)
    | Continues(i: nat)
    | RetryAnswered(i: nat)
    | Resets

  /** A token nobody has seen: neither delivered nor the result of some refresh. */
  predicate Fresh(s: System, token: Token) {
    token !in s.known && forall id :: 0 <= id < |s.refreshes| ==> s.refreshes[id] != Resolved(token)
  }

  function Learn(known: seq<Token>, token: Token): seq<Token> {
    if token in known then known else known + [token]
  }

  function Settle(s: System, i: nat, place: Place, sends: nat): System
    requires i < |s.requests|
  {
    s.(requests := s.requests[i := s.requests[i].(place := place, sends := sends)])
  }

  /** `finally`: the first waiter to go on takes the refresh out of flight. */
  function TakeDown(s: System, id: nat): System {
    if s.inFlight == Some(id) then s.(inFlight := None) else s
  }

  /** What a waiter does once its refresh is settled. */
  function Continue(s: System, i: nat): System
    requires i < |s.requests| && s.requests[i].place.Waiting? && s.requests[i].place.refresh < |s.refreshes|
  {
    var r := s.requests[i];
    var id := r.place.refresh;
    match s.refreshes[id]
    case Pending => s
    case Failed => Settle(TakeDown(s, id), i, Settled, r.sends)
    case Resolved(token) =>
      var s1 := TakeDown(s, id).(known := Learn(s.known, token));
      if r.generation != s.generation then Settle(s1, i, Settled, r.sends)
      else Settle(s1, i, Retried(token), r.sends + 1).(replacements := s.replacements[r.attempted := token])
  }

  predicate Has(s: System, i: nat, place: Place) {
    i < |s.requests| && s.requests[i].place == place
  }

  /** An action that does not fit changes nothing. Refreshes yield tokens never seen before. */
  function Next(s: System, a: Action): System {
    match a
    case Learns(token) => if Fresh(s, token) then s.(known := s.known + [token]) else s
    case Begins(token) =>
      if token !in s.known then s
      else
        s.(replacements := Compressed(s.replacements, token),
           requests := s.requests + [Request(s.generation, Current(s.replacements, token), Sent, 1)])
    case Answered(i) => if Has(s, i, Sent) then Settle(s, i, Settled, s.requests[i].sends) else s
    case Expired(i) =>
      if !Has(s, i, Sent) then s
      else if s.inFlight.Some? then Settle(s, i, Waiting(s.inFlight.value), s.requests[i].sends)
      else
        Settle(s, i, Waiting(|s.refreshes|), s.requests[i].sends).(
          refreshes := s.refreshes + [Pending], inFlight := Some(|s.refreshes|))
    case Resolves(id, token) =>
      if id < |s.refreshes| && s.refreshes[id] == Pending && Fresh(s, token)
      then s.(refreshes := s.refreshes[id := Resolved(token)]) else s
    case Rejects(id) =>
      if id < |s.refreshes| && s.refreshes[id] == Pending then s.(refreshes := s.refreshes[id := Failed]) else s
    case Continues(i) =>
      if i < |s.requests| && s.requests[i].place.Waiting? && s.requests[i].place.refresh < |s.refreshes|
      then Continue(s, i) else s
    case RetryAnswered(i) =>
      if i < |s.requests| && s.requests[i].place.Retried? then Settle(s, i, Settled, s.requests[i].sends) else s
    case Resets => s.(replacements := map[], generation := s.generation + 1, inFlight := None)
  }

  function Exec(s: System, actions: seq<Action>): System {
    if actions == [] then s else Next(Exec(s, actions[..|actions| - 1]), actions[|actions| - 1])
  }

  const Initial := System(map[], 0, None, [], [], [])

  // ----- why no cycle appears -----------------------------------------------------------

  ghost predicate Distinct(known: seq<Token>) {
    forall i, j :: 0 <= i < j < |known| ==> known[i] != known[j]
  }

  /** `a` was delivered before `b`. */
  ghost predicate Earlier(known: seq<Token>, a: Token, b: Token) {
    exists i, j :: 0 <= i < j < |known| && known[i] == a && known[j] == b
  }

  /** Every replacement was delivered after the token it replaces. */
  ghost predicate Forward(known: seq<Token>, m: Replacements) {
    forall k :: k in m ==> Earlier(known, k, m[k])
  }

  /** A waiter's token was delivered before the token its refresh delivers. */
  ghost predicate WaiterOk(s: System, r: Request) {
    && r.attempted in s.known
    && 1 <= r.sends <= 2 && (r.place == Sent || r.place.Waiting? ==> r.sends == 1)
    && r.generation <= s.generation
    && (r.place.Waiting? ==>
          && r.place.refresh < |s.refreshes|
          && (s.refreshes[r.place.refresh].Resolved? && s.refreshes[r.place.refresh].token in s.known ==>
                Earlier(s.known, r.attempted, s.refreshes[r.place.refresh].token)))
  }

  /** A refresh that can still be joined has delivered nothing yet. */
  ghost predicate InFlightOk(s: System) {
    s.inFlight.Some? ==>
      s.inFlight.value < |s.refreshes|
      && (s.refreshes[s.inFlight.value].Resolved? ==> s.refreshes[s.inFlight.value].token !in s.known)
  }

  ghost predicate ResultsDistinct(s: System) {
    forall a, b :: 0 <= a < b < |s.refreshes| && s.refreshes[a].Resolved? ==> s.refreshes[a] != s.refreshes[b]
  }

  ghost predicate Inv(s: System) {
    && Distinct(s.known) && Forward(s.known, s.replacements) && InFlightOk(s) && ResultsDistinct(s)
    && forall i :: 0 <= i < |s.requests| ==> WaiterOk(s, s.requests[i])
  }

  lemma EarlierTransitive(known: seq<Token>, a: Token, b: Token, c: Token)
    requires Distinct(known) && Earlier(known, a, b) && Earlier(known, b, c)
    ensures Earlier(known, a, c)
  {
    var i, j :| 0 <= i < j < |known| && known[i] == a && known[j] == b;
    var k, l :| 0 <= k < l < |known| && known[k] == b && known[l] == c;
    assert j == k;
  }

  lemma EarlierGrows(known: seq<Token>, more: Token, a: Token, b: Token)
    requires Earlier(known, a, b)
    ensures Earlier(known + [more], a, b)
  {
    var i, j :| 0 <= i < j < |known| && known[i] == a && known[j] == b;
    assert (known + [more])[i] == a && (known + [more])[j] == b;
  }

  lemma NewestIsLater(known: seq<Token>, more: Token, a: Token)
    requires a in known
    ensures Earlier(known + [more], a, more)
  {
    var i :| 0 <= i < |known| && known[i] == a;
    assert (known + [more])[i] == a && (known + [more])[|known|] == more;
  }

  /** Following a forward map moves to later deliveries, so it never comes back. */
  lemma {:induction false} FollowIsLater(known: seq<Token>, m: Replacements, t: Token, n: nat)
    requires Distinct(known) && Forward(known, m) && n > 0 && Follow(m, t, n).Some?
    ensures Earlier(known, t, Follow(m, t, n).value)
    decreases n
  {
    if n > 1 {
      FollowIsLater(known, m, m[t], n - 1);
      EarlierTransitive(known, t, m[t], Follow(m, t, n).value);
    }
  }

  lemma ForwardIsAcyclic(known: seq<Token>, m: Replacements)
    requires Distinct(known) && Forward(known, m)
    ensures Acyclic(m)
  {
    forall t | OnCycle(m, t)
      ensures false
    {
      var n: nat :| n > 0 && Follow(m, t, n) == Some(t);
      FollowIsLater(known, m, t, n);
    }
  }

  /** Every visited token leads to where `currentToken` stops. */
  lemma VisitedLeadToEnd(m: Replacements, t: Token, i: nat)
    requires i < |Chase(m, t, []).1|
    ensures var (end, path) := Chase(m, t, []);
      Follow(m, path[i], |path| - i) == Some(end)
  {
    ChaseIsPath(m, t, t, []);
    var (end, path) := Chase(m, t, []);
    FollowOn(m, t, i, |path| - i);
  }

  lemma CurrentIsKnown(known: seq<Token>, m: Replacements, t: Token)
    requires Distinct(known) && Forward(known, m) && t in known
    ensures Current(m, t) in known
  {
    FollowNone(m, t);
    ChaseIsPath(m, t, t, []);
    var (end, path) := Chase(m, t, []);
    hide Distinct, Follow, Chase;
    if |path| > 0 {
      FollowIsLater(known, m, t, |path|);
    }
  }

  lemma VisitedComeEarlier(known: seq<Token>, m: Replacements, t: Token, k: Token)
    requires Distinct(known) && Forward(known, m) && k in Chase(m, t, []).1
    ensures Earlier(known, k, Current(m, t))
  {
    hide Distinct, Earlier, Forward, Chase;
    var path := Chase(m, t, []).1;
    var i :| 0 <= i < |path| && path[i] == k;
    VisitedLeadToEnd(m, t, i);
    FollowIsLater(known, m, k, |path| - i);
  }

  lemma CompressedIsForward(known: seq<Token>, m: Replacements, t: Token)
    requires Distinct(known) && Forward(known, m) && t in known
    ensures Forward(known, Compressed(m, t)) && Current(m, t) in known
  {
    hide Distinct, Earlier, Chase;
    CurrentIsKnown(known, m, t);
    KeysUnchanged(m, t);
    forall k | k in Compressed(m, t)
      ensures Earlier(known, k, Compressed(m, t)[k])
    {
      if k in Chase(m, t, []).1 {
        VisitedComeEarlier(known, m, t, k);
      }
    }
  }

  lemma FollowNone(m: Replacements, t: Token)
    ensures Follow(m, t, 0) == Some(t)
  {
  }

  lemma LearnKeepsInv(s: System, token: Token)
    requires Inv(s) && token !in s.known
    requires forall id :: 0 <= id < |s.refreshes| && s.refreshes[id] == Resolved(token) ==>
      s.inFlight != Some(id) && forall i :: 0 <= i < |s.requests| ==> s.requests[i].attempted in s.known
    ensures Inv(s.(known := s.known + [token]))
  {
    var s' := s.(known := s.known + [token]);
    forall k | k in s.replacements
      ensures Earlier(s'.known, k, s.replacements[k])
    {
      EarlierGrows(s.known, token, k, s.replacements[k]);
    }
    forall i | 0 <= i < |s.requests|
      ensures WaiterOk(s', s'.requests[i])
    {
      var r := s.requests[i];
      assert WaiterOk(s, r);
      if r.place.Waiting? && s.refreshes[r.place.refresh].Resolved? {
        var result := s.refreshes[r.place.refresh].token;
        if result in s.known {
          EarlierGrows(s.known, token, r.attempted, result);
        } else if result == token {
          NewestIsLater(s.known, token, r.attempted);
        }
      }
    }
  }

  lemma TakeDownKeepsInv(s: System, id: nat)
    requires Inv(s)
    ensures Inv(TakeDown(s, id))
  {
    var s' := TakeDown(s, id);
    forall j | 0 <= j < |s'.requests|
      ensures WaiterOk(s', s'.requests[j])
    {
      assert WaiterOk(s, s.requests[j]);
    }
  }

  /** Delivering the result of a refresh that can no longer be joined. */
  lemma DeliverKeepsInv(s: System, id: nat)
    requires Inv(s) && id < |s.refreshes| && s.refreshes[id].Resolved? && s.inFlight != Some(id)
    ensures Inv(s.(known := Learn(s.known, s.refreshes[id].token)))
  {
    var token := s.refreshes[id].token;
    if token !in s.known {
      assert forall i :: 0 <= i < |s.requests| ==> WaiterOk(s, s.requests[i]);
      LearnKeepsInv(s, token);
    } else {
      assert s.(known := Learn(s.known, token)) == s;
    }
  }

  lemma WriteKeepsInv(s: System, old_: Token, new_: Token)
    requires Inv(s) && Earlier(s.known, old_, new_)
    ensures Inv(s.(replacements := s.replacements[old_ := new_]))
  {
    var s' := s.(replacements := s.replacements[old_ := new_]);
    forall j | 0 <= j < |s'.requests|
      ensures WaiterOk(s', s'.requests[j])
    {
      assert WaiterOk(s, s.requests[j]);
    }
  }

  lemma WaiterIsEarlier(s: System, i: nat)
    requires Inv(s) && i < |s.requests| && s.requests[i].place.Waiting?
    ensures s.requests[i].place.refresh < |s.refreshes| && s.requests[i].sends == 1
    ensures var result := s.refreshes[s.requests[i].place.refresh];
      result.Resolved? && result.token in s.known ==> Earlier(s.known, s.requests[i].attempted, result.token)
  {
    assert WaiterOk(s, s.requests[i]);
  }

  /** A waiter that goes on delivers its token and, if its generation is current, writes an
      edge to it: forward, because the waiter's own token came earlier. */
  lemma ContinueKeepsInv(s: System, i: nat)
    requires Inv(s) && i < |s.requests| && s.requests[i].place.Waiting?
    ensures s.requests[i].place.refresh < |s.refreshes| && Inv(Continue(s, i))
  {
    hide Inv, Earlier;
    WaiterIsEarlier(s, i);
    var r := s.requests[i];
    var id := r.place.refresh;
    TakeDownKeepsInv(s, id);
    var s0 := TakeDown(s, id);
    match s.refreshes[id]
    case Pending =>
    case Failed => SettleKeepsInv(s0, i, Settled, r.sends);
    case Resolved(token) =>
      DeliverKeepsInv(s0, id);
      var s1 := s0.(known := Learn(s.known, token));
      WaiterIsEarlier(s1, i);
      if r.generation != s.generation {
        SettleKeepsInv(s1, i, Settled, r.sends);
      } else {
        SettleKeepsInv(s1, i, Retried(token), r.sends + 1);
        WriteKeepsInv(Settle(s1, i, Retried(token), r.sends + 1), r.attempted, token);
      }
  }

  lemma SettleKeepsInv(s: System, i: nat, place: Place, sends: nat)
    requires Inv(s) && i < |s.requests|
    requires !place.Waiting? && place != Sent && 1 <= sends <= 2
    ensures Inv(Settle(s, i, place, sends))
  {
    var s' := Settle(s, i, place, sends);
    forall j | 0 <= j < |s'.requests|
      ensures WaiterOk(s', s'.requests[j])
    {
      assert WaiterOk(s, s.requests[j]);
    }
  }

  lemma JoinKeepsInv(s: System, i: nat)
    requires Inv(s)
    ensures Inv(Next(s, Expired(i)))
  {
    var s' := Next(s, Expired(i));
    hide Earlier, Distinct, Forward;
    forall j | 0 <= j < |s'.requests|
      ensures WaiterOk(s', s'.requests[j])
    {
      assert WaiterOk(s, s.requests[j]);
    }
  }

  lemma ResolveKeepsInv(s: System, id: nat, token: Token)
    requires Inv(s)
    ensures Inv(Next(s, Resolves(id, token)))
  {
    var s' := Next(s, Resolves(id, token));
    hide Earlier, Distinct, Forward;
    forall j | 0 <= j < |s'.requests|
      ensures WaiterOk(s', s'.requests[j])
    {
      assert WaiterOk(s, s.requests[j]);
    }
  }

  lemma RejectKeepsInv(s: System, id: nat)
    requires Inv(s)
    ensures Inv(Next(s, Rejects(id)))
  {
    var s' := Next(s, Rejects(id));
    hide Earlier, Distinct, Forward;
    forall j | 0 <= j < |s'.requests|
      ensures WaiterOk(s', s'.requests[j])
    {
      assert WaiterOk(s, s.requests[j]);
    }
  }

  lemma NextKeepsInv(s: System, a: Action)
    requires Inv(s)
    ensures Inv(Next(s, a))
  {
    match a
    case Learns(token) =>
      if Fresh(s, token) {
        LearnKeepsInv(s, token);
      }
    case Begins(token) =>
      if token in s.known {
        CompressedIsForward(s.known, s.replacements, token);
        var s' := Next(s, a);
        forall j | 0 <= j < |s'.requests|
          ensures WaiterOk(s', s'.requests[j])
        {
          assert j < |s.requests| ==> WaiterOk(s, s.requests[j]);
        }
      }
    case Answered(i) =>
      if Has(s, i, Sent) {
        assert WaiterOk(s, s.requests[i]);
        SettleKeepsInv(s, i, Settled, s.requests[i].sends);
      }
    case Expired(i) => JoinKeepsInv(s, i);
    case Resolves(id, token) => ResolveKeepsInv(s, id, token);
    case Rejects(id) => RejectKeepsInv(s, id);
    case Continues(i) =>
      if i < |s.requests| && s.requests[i].place.Waiting? {
        ContinueKeepsInv(s, i);
      }
    case RetryAnswered(i) =>
      if i < |s.requests| && s.requests[i].place.Retried? {
        assert WaiterOk(s, s.requests[i]);
        SettleKeepsInv(s, i, Settled, s.requests[i].sends);
      }
    case Resets =>
      var s' := Next(s, a);
      forall j | 0 <= j < |s'.requests|
        ensures WaiterOk(s', s'.requests[j])
      {
        assert WaiterOk(s, s.requests[j]);
      }
  }

  lemma {:induction false} ExecKeepsInv(s: System, actions: seq<Action>)
    requires Inv(s)
    ensures Inv(Exec(s, actions))
  {
    if actions != [] {
      ExecKeepsInv(s, actions[..|actions| - 1]);
      NextKeepsInv(Exec(s, actions[..|actions| - 1]), actions[|actions| - 1]);
    }
  }

  /** Over every interleaving of requests, refreshes and resets the map stays acyclic and no
      request is sent more than twice. */
  lemma MapStaysAcyclic(actions: seq<Action>)
    ensures var s := Exec(Initial, actions);
      Acyclic(s.replacements) && forall i :: 0 <= i < |s.requests| ==> s.requests[i].sends <= 2
  {
    ExecKeepsInv(Initial, actions);
    var s := Exec(Initial, actions);
    ForwardIsAcyclic(s.known, s.replacements);
    forall i | 0 <= i < |s.requests|
      ensures s.requests[i].sends <= 2
    {
      assert WaiterOk(s, s.requests[i]);
    }
  }

  lemma GenerationStep(s: System, a: Action)
    ensures s.generation <= Next(s, a).generation && |s.requests| <= |Next(s, a).requests|
    ensures forall i :: 0 <= i < |s.requests| ==>
      Next(s, a).requests[i].generation == s.requests[i].generation
      && Next(s, a).requests[i].attempted == s.requests[i].attempted
  {
    hide Compressed, Current;
  }

  lemma {:induction false} GenerationsGrow(s: System, actions: seq<Action>)
    ensures s.generation <= Exec(s, actions).generation && |s.requests| <= |Exec(s, actions).requests|
    ensures forall i :: 0 <= i < |s.requests| ==>
      Exec(s, actions).requests[i].generation == s.requests[i].generation
      && Exec(s, actions).requests[i].attempted == s.requests[i].attempted
  {
    hide Next;
    if actions != [] {
      GenerationsGrow(s, actions[..|actions| - 1]);
      GenerationStep(Exec(s, actions[..|actions| - 1]), actions[|actions| - 1]);
    }
  }

  /** A request begun before a reset never writes the map again, whenever it goes on. */
  lemma OlderGenerationNeverWrites(s: System, i: nat, actions: seq<Action>)
    requires i < |s.requests| && s.requests[i].generation <= s.generation
    ensures var s' := Exec(Next(s, Resets), actions);
      Next(s', Continues(i)).replacements == s'.replacements
  {
    GenerationsGrow(Next(s, Resets), actions);
  }

  // ----- what the steps do ----------------------------------------------------------------

  ghost predicate OthersStay(before: seq<Request>, after: seq<Request>, i: nat) {
    |after| == |before| && forall j :: 0 <= j < |before| && j != i ==> after[j] == before[j]
  }

  /** A request whose token has expired joins the refresh in flight if there is one; only
      without one does it start another. */
  lemma ExpiredJoinsTheRefresh(s: System, i: nat)
    requires Has(s, i, Sent)
    ensures var s' := Next(s, Expired(i));
      && OthersStay(s.requests, s'.requests, i) && s'.inFlight.Some?
      && s'.requests[i] == s.requests[i].(place := Waiting(s'.inFlight.value))
      && s'.replacements == s.replacements && s'.generation == s.generation && s'.known == s.known
      && (if s.inFlight.Some? then s'.inFlight == s.inFlight && s'.refreshes == s.refreshes
          else s'.inFlight == Some(|s.refreshes|) && s'.refreshes == s.refreshes + [Pending])
  {
  }

  /** A waiter whose refresh is settled takes it out of flight. If the refresh gave a token
      and the waiter is of the current generation, the token replaces the one it had sent and
      it is sent again with it, once; otherwise it is settled and the map stays. */
  lemma WaiterGoesOn(s: System, i: nat)
    requires i < |s.requests| && s.requests[i].place.Waiting? && s.requests[i].place.refresh < |s.refreshes|
    requires s.refreshes[s.requests[i].place.refresh] != Pending
    ensures var s', r := Next(s, Continues(i)), s.requests[i];
      var id := r.place.refresh;
      && OthersStay(s.requests, s'.requests, i)
      && s'.refreshes == s.refreshes && s'.generation == s.generation
      && s'.inFlight == (if s.inFlight == Some(id) then None else s.inFlight)
      && match s.refreshes[id]
         case Resolved(token) =>
           if r.generation == s.generation then
             && s'.replacements == s.replacements[r.attempted := token]
             && s'.requests[i] == r.(place := Retried(token), sends := r.sends + 1)
           else s'.replacements == s.replacements && s'.requests[i] == r.(place := Settled)
         case _ => s'.replacements == s.replacements && s'.requests[i] == r.(place := Settled)
  {
  }

  /** Answers settle their request, a request begins with the token it was given followed to
      its end, and a reset forgets the map and the refresh in flight. */
  lemma OtherStepsExact(s: System, a: Action)
    ensures var s' := Next(s, a);
      match a
      case Answered(i) =>
        s' == if Has(s, i, Sent) then s.(requests := s.requests[i := s.requests[i].(place := Settled)]) else s
      case RetryAnswered(i) =>
        s' == if i < |s.requests| && s.requests[i].place.Retried?
              then s.(requests := s.requests[i := s.requests[i].(place := Settled)]) else s
      case Begins(token) =>
        token in s.known ==>
          && s'.requests == s.requests + [Request(s.generation, Current(s.replacements, token), Sent, 1)]
          && s' == s.(requests := s'.requests, replacements := s'.replacements)
      case Resets => s' == s.(replacements := map[], inFlight := None, generation := s.generation + 1)
      case _ => true
  {
  }

  lemma KeysStay(s: System, a: Action, k: Token)
    requires k in s.replacements && a != Resets
    ensures k in Next(s, a).replacements
  {
    if a.Begins? {
      KeysUnchanged(s.replacements, a.token);
    }
    hide Compressed, Current;
  }

  /** A token that has been replaced is not sent again before a reset: in every interleaving
      a request that begins with it sends one that nothing replaces. */
  lemma {:induction false} ReplacedTokenIsNotSentAgain(s: System, k: Token, actions: seq<Action>)
    requires Inv(s) && k in s.replacements && forall j :: 0 <= j < |actions| ==> actions[j] != Resets
    ensures var m := Exec(s, actions).replacements;
      Inv(Exec(s, actions)) && k in m && Final(m, k, Current(m, k)) && Current(m, k) != k
  {
    if actions != [] {
      var n := |actions| - 1;
      ReplacedTokenIsNotSentAgain(s, k, actions[..n]);
      NextKeepsInv(Exec(s, actions[..n]), actions[n]);
      KeysStay(Exec(s, actions[..n]), actions[n], k);
    }
    var s' := Exec(s, actions);
    ForwardIsAcyclic(s'.known, s'.replacements);
    AcyclicEnds(s'.replacements, k);
  }

  /** What follows a replaced token is what follows its replacement. */
  lemma ReplacedFollowsReplacement(m: Replacements, k: Token)
    requires Acyclic(m) && k in m
    ensures Current(m, k) == Current(m, m[k])
  {
    AcyclicEnds(m, k);
    AcyclicEnds(m, m[k]);
    var f := Current(m, m[k]);
    var n: nat :| Follow(m, m[k], n) == Some(f);
    assert Follow(m, k, n + 1) == Some(f);
    FinalIsUnique(m, k, f, Current(m, k));
  }

  /** So after a successful refresh a request that begins with the old token sends the new
      one, or what has replaced the new one in turn. */
  lemma NextRequestSendsTheNewToken(s: System, i: nat)
    requires Inv(s) && i < |s.requests| && s.requests[i].place.Waiting? && s.requests[i].generation == s.generation
    requires s.requests[i].place.refresh < |s.refreshes| && s.refreshes[s.requests[i].place.refresh].Resolved?
    ensures var token := s.refreshes[s.requests[i].place.refresh].token;
      var s' := Next(s, Continues(i));
      var begun := Next(s', Begins(s.requests[i].attempted)).requests;
      && |begun| == |s'.requests| + 1
      && begun[|s'.requests|].attempted == Current(s'.replacements, token)
      && (token !in s.replacements ==> begun[|s'.requests|].attempted == token)
  {
    var r, s' := s.requests[i], Next(s, Continues(i));
    var token := s.refreshes[r.place.refresh].token;
    NextKeepsInv(s, Continues(i));
    assert WaiterOk(s', s'.requests[i]);
    ForwardIsAcyclic(s'.known, s'.replacements);
    ReplacedFollowsReplacement(s'.replacements, r.attempted);
    if token !in s.replacements {
      assert token != r.attempted by { NotOwnReplacement(s'.replacements, r.attempted); }
      assert Chase(s'.replacements, token, []) == (token, []);
    }
  }

  lemma NotOwnReplacement(m: Replacements, k: Token)
    requires Acyclic(m) && k in m
    ensures m[k] != k
  {
    if m[k] == k {
      assert Follow(m, k, 1) == Follow(m, m[k], 0);
      assert OnCycle(m, k);
    }
  }

  // ----- the module itself ----------------------------------------------------------------

  class AuthenticatedFetch {
    var tokenReplacements: Replacements
    var refreshInFlight: Option<nat>
    var tokenStateGeneration: nat

    constructor ()
      ensures Shows(Initial)
    {
      tokenReplacements, refreshInFlight, tokenStateGeneration := map[], None, 0;
    }

    /** `currentToken`: follow, then point every visited token at the end. */
    method CurrentToken(accessToken: Token) returns (current: Token)
      modifies this`tokenReplacements
      ensures current == Current(old(tokenReplacements), accessToken)
      ensures tokenReplacements == Compressed(old(tokenReplacements), accessToken)
    {
      current := accessToken;
      var visited: seq<Token> := [];
      var m := tokenReplacements;
      while current in m && current !in visited
        invariant Chase(m, accessToken, []) == Chase(m, current, visited)
        invariant forall x :: x in visited ==> x in m
        decreases m.Keys - Elements(visited)
      {
        assert current in m.Keys - Elements(visited) && current !in m.Keys - Elements(visited + [current]);
        assert m.Keys - Elements(visited + [current]) <= m.Keys - Elements(visited);
        visited := visited + [current];
        current := m[current];
      }
      for i := 0 to |visited|
        invariant tokenReplacements.Keys == m.Keys
        invariant forall k :: k in m ==> tokenReplacements[k] == if k in visited[..i] then current else m[k]
      {
        assert visited[..i + 1] == visited[..i] + [visited[i]];
        tokenReplacements := tokenReplacements[visited[i] := current];
      }
      assert visited[..|visited|] == visited;
    }

    /** The module's variables are those of the system. */
    ghost predicate Shows(s: System)
      reads this
    {
      tokenReplacements == s.replacements && refreshInFlight == s.inFlight && tokenStateGeneration == s.generation
    }

    /** `fetchWithAccessToken` up to its first await: the generation to remember and the token
        to send. */
    method Begin(accessToken: Token, ghost s: System) returns (requestGeneration: nat, attemptedToken: Token)
      requires Shows(s) && accessToken in s.known
      modifies this`tokenReplacements
      ensures Shows(Next(s, Begins(accessToken)))
      ensures Next(s, Begins(accessToken)).requests
              == s.requests + [Request(requestGeneration, attemptedToken, Sent, 1)]
    {
      requestGeneration := tokenStateGeneration;
      attemptedToken := CurrentToken(accessToken);
    }

    /** `refreshAccessToken` up to its await: join the refresh in flight or start `next`. */
    method JoinRefresh(next: nat, ghost s: System, ghost i: nat) returns (pending: nat)
      requires Shows(s) && Has(s, i, Sent) && next == |s.refreshes|
      modifies this`refreshInFlight
      ensures Shows(Next(s, Expired(i))) && Has(Next(s, Expired(i)), i, Waiting(pending))
    {
      if refreshInFlight.None? {
        refreshInFlight := Some(next);
      }
      pending := refreshInFlight.value;
    }

    /** After the refresh: take it down, and go on only in the generation of the request. */
    method Resume(pending: nat, result: Refresh, requestGeneration: nat, attemptedToken: Token,
                  ghost s: System, ghost i: nat)
      returns (retry: Option<Token>)
      requires Shows(s) && Has(s, i, Waiting(pending)) && pending < |s.refreshes|
      requires result == s.refreshes[pending] && result != Pending
      requires requestGeneration == s.requests[i].generation && attemptedToken == s.requests[i].attempted
      modifies this
      ensures Shows(Next(s, Continues(i)))
      ensures Next(s, Continues(i)).requests[i].place == if retry.Some? then Retried(retry.value) else Settled
      ensures retry.Some? ==> result == Resolved(retry.value)
    {
      if refreshInFlight == Some(pending) {
        refreshInFlight := None;
      }
      if result == Failed || requestGeneration != tokenStateGeneration {
        return None;
      }
      tokenReplacements := tokenReplacements[attemptedToken := result.token];
      return Some(result.token);
    }

    /** `resetAccessTokenState` */
    method Reset(ghost s: System)
      requires Shows(s)
      modifies this
      ensures tokenReplacements == map[] && refreshInFlight == None
      ensures tokenStateGeneration == old(tokenStateGeneration) + 1
      ensures Shows(Next(s, Resets))
    {
      tokenStateGeneration := tokenStateGeneration + 1;
      tokenReplacements := map[];
      refreshInFlight := None;
    }
  }
}
