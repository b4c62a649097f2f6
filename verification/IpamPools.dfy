/** When pools are created and updated, what is said when they are not, and what they then
    hold. The conditions are told by addresses, clusters and the pools' fields. */
module IpamPools {
  import opened Wrappers
  import opened Networks
  import opened IpamModel
  import opened IpamInvariants
  import opened IpamTheorems

  // ----- answers ------------------------------------------------------------------

  /** A condition of a call, and the error for its failure. */
  datatype Check = Check(holds: bool, error: Error)

  ghost predicate AllHold(checks: seq<Check>) {
    forall i :: 0 <= i < |checks| ==> checks[i].holds
  }

  ghost predicate FirstFailure(checks: seq<Check>, i: int) {
    0 <= i < |checks| && !checks[i].holds && forall j :: 0 <= j < i ==> checks[j].holds
  }

  /** The error is that of the first check that fails. */
  ghost predicate Refuses(checks: seq<Check>, e: Error) {
    exists i :: FirstFailure(checks, i) && checks[i].error == e
  }

  /** The call succeeds exactly when every check holds, and otherwise refuses. */
  ghost predicate Answers(reply: Result<Reply, Error>, checks: seq<Check>, answer: Reply) {
    match reply
    case Ok(value) => AllHold(checks) && value == answer
    case Err(e) => Refuses(checks, e)
  }

  lemma Fails(reply: Result<Reply, Error>, checks: seq<Check>, answer: Reply, i: nat)
    requires FirstFailure(checks, i) && reply == Err(checks[i].error)
    ensures Answers(reply, checks, answer)
  {
  }

  /** Two lists of checks, one after the other. */
  lemma ChecksInTurn(first: seq<Check>, then_: seq<Check>)
    ensures AllHold(first + then_) <==> AllHold(first) && AllHold(then_)
    ensures forall e :: Refuses(first, e) ==> Refuses(first + then_, e)
    ensures forall e :: AllHold(first) && Refuses(then_, e) ==> Refuses(first + then_, e)
  {
    var all := first + then_;
    if AllHold(all) {
      forall i | 0 <= i < |then_|
        ensures then_[i].holds
      {
        assert all[|first| + i] == then_[i];
      }
      forall i | 0 <= i < |first|
        ensures first[i].holds
      {
        assert all[i] == first[i];
      }
    }
    forall e | Refuses(first, e)
      ensures Refuses(all, e)
    {
      var i :| FirstFailure(first, i) && first[i].error == e;
      assert FirstFailure(all, i);
    }
    forall e | AllHold(first) && Refuses(then_, e)
      ensures Refuses(all, e)
    {
      var i :| FirstFailure(then_, i) && then_[i].error == e;
      assert all[|first| + i] == then_[i];
      assert FirstFailure(all, |first| + i);
    }
  }

  // ----- scopes, addresses and ranges ------------------------------------------------

  /** A pool without a cluster serves them all. */
  ghost predicate ServesCluster(scope: Option<nat>, c: nat) {
    scope.None? || scope.value == c
  }

  ghost predicate CommonCluster(a: Option<nat>, b: Option<nat>) {
    exists c: nat :: ServesCluster(a, c) && ServesCluster(b, c)
  }

  lemma ScopeIsCommonCluster(a: Option<nat>, b: Option<nat>)
    ensures SameScope(a, b) <==> CommonCluster(a, b)
  {
    if SameScope(a, b) {
      var c: nat := if a.Some? then a.value else if b.Some? then b.value else 0;
      assert ServesCluster(a, c) && ServesCluster(b, c);
    }
  }

  ghost predicate SharesAddress(a: Network, b: Network) {
    exists ip :: Contains(a, ip) && Contains(b, ip)
  }

  /** Another active pool for a common cluster has an address of the block. */
  ghost predicate Collides(pools: seq<Pool>, self: Option<nat>, net: Network, cluster: Option<nat>) {
    exists q :: 0 <= q < |pools| && Some(q) != self && pools[q].active
      && CommonCluster(pools[q].cluster, cluster) && SharesAddress(pools[q].net, net)
  }

  lemma ClashIsCollision(pools: seq<Pool>, self: Option<nat>, net: Network, cluster: Option<nat>)
    requires ValidNetwork(net) && PoolsOk(pools)
    ensures ScopeClash(pools, self, net, cluster) <==> Collides(pools, self, net, cluster)
  {
    forall q | 0 <= q < |pools|
      ensures Clashes(pools[q], net, cluster)
              <==> pools[q].active && CommonCluster(pools[q].cluster, cluster) && SharesAddress(pools[q].net, net)
    {
      assert PoolOk(pools[q]);
      ScopeIsCommonCluster(pools[q].cluster, cluster);
      OverlapsIsIntersection(net, pools[q].net);
    }
    hide Clashes, CommonCluster, SharesAddress, PoolsOk;
  }

  /** The range lies in the block and runs upwards. */
  ghost predicate GoodRange(net: Network, e: Exclusion) {
    Contains(net, e.start) && Contains(net, e.end) && e.start.value <= e.end.value
  }

  /** What is said of a range that is no good. */
  ghost function RangeError(net: Network, e: Exclusion): Error {
    if e.start.family == e.end.family == net.family then InvalidExcludedRange else IpFamilyMismatch
  }

  ghost predicate FirstBadRange(net: Network, excluded: seq<Exclusion>, i: int) {
    0 <= i < |excluded| && !GoodRange(net, excluded[i]) && forall j :: 0 <= j < i ==> GoodRange(net, excluded[j])
  }

  lemma ProblemOfHead(net: Network, excluded: seq<Exclusion>)
    requires excluded != []
    ensures ExclusionProblem(net, excluded)
            == if GoodRange(net, excluded[0]) then ExclusionProblem(net, excluded[1..])
               else Some(RangeError(net, excluded[0]))
  {
  }

  /** The first range that is no good decides. */
  lemma {:induction false} RangeProblemIsFirst(net: Network, excluded: seq<Exclusion>)
    ensures var r := ExclusionProblem(net, excluded);
      r.Some? ==> exists i :: FirstBadRange(net, excluded, i) && r.value == RangeError(net, excluded[i])
  {
    if excluded != [] && ExclusionProblem(net, excluded).Some? {
      ProblemOfHead(net, excluded);
      hide ExclusionProblem, GoodRange, RangeError;
      if GoodRange(net, excluded[0]) {
        var rest := excluded[1..];
        RangeProblemIsFirst(net, rest);
        var i :| FirstBadRange(net, rest, i) && ExclusionProblem(net, rest).value == RangeError(net, rest[i]);
        assert rest[i] == excluded[i + 1];
        forall j | 0 <= j < i + 1
          ensures GoodRange(net, excluded[j])
        {
          assert j > 0 ==> excluded[j] == rest[j - 1];
        }
        assert FirstBadRange(net, excluded, i + 1);
      } else {
        assert FirstBadRange(net, excluded, 0);
      }
    }
  }

  ghost predicate GatewayInside(net: Network, gateway: Option<Ip>) {
    gateway.Some? ==> Contains(net, gateway.value)
  }

  ghost predicate OneFamily(net: Network, dns: seq<Ip>) {
    forall i :: 0 <= i < |dns| ==> dns[i].family == net.family
  }

  ghost predicate NameFree(pools: seq<Pool>, self: Option<nat>, name: string) {
    forall q :: 0 <= q < |pools| && Some(q) != self ==> pools[q].name != name
  }

  ghost predicate RangesDiffer(excluded: seq<Exclusion>) {
    forall i, j :: 0 <= i < j < |excluded| ==> excluded[i] != excluded[j]
  }

  /** The error of the first range that is no good. */
  ghost function FirstRangeError(net: Network, excluded: seq<Exclusion>): Error {
    if exists i :: FirstBadRange(net, excluded, i) then
      var i :| FirstBadRange(net, excluded, i);
      RangeError(net, excluded[i])
    else InvalidExcludedRange
  }

  lemma RangeProblemIsFirstError(net: Network, excluded: seq<Exclusion>)
    ensures ExclusionProblem(net, excluded).Some? ==>
      ExclusionProblem(net, excluded).value == FirstRangeError(net, excluded)
  {
    RangeProblemIsFirst(net, excluded);
    hide ExclusionProblem, GoodRange, RangeError;
    forall i, j | FirstBadRange(net, excluded, i) && FirstBadRange(net, excluded, j)
      ensures i == j
    {
    }
  }

  // ----- creation -----------------------------------------------------------------

  ghost function CreateChecks(db: Db, p: PoolCreate, clusters: set<nat>): seq<Check> {
    var net := ParseNetwork(p.cidr);
    [Check(net.Some?, InvalidCidr),
     Check(net.Some? ==> GatewayInside(net.value, p.gateway), GatewayOutsidePool),
     Check(p.cluster.Some? ==> p.cluster.value in clusters, ClusterNotFound),
     Check(net.Some? ==> forall i :: 0 <= i < |p.excluded| ==> GoodRange(net.value, p.excluded[i]),
           if net.Some? then FirstRangeError(net.value, p.excluded) else InvalidCidr),
     Check(net.Some? ==> OneFamily(net.value, p.dns), IpFamilyMismatch),
     Check(net.Some? ==> !Collides(db.pools, None, net.value, p.cluster), IpPoolOverlap),
     Check(NameFree(db.pools, None, p.name) && RangesDiffer(p.excluded), IpPoolConflict)]
  }

  /** A pool is created exactly when the block parses, gateway, cluster, excluded ranges and
      name servers suit it, no pool for a common cluster has one of its addresses, and name
      and ranges are new; otherwise the first of these is what the answer complains of. The
      new pool holds what was asked for, starts at the first offset, and changes no other row. */
  lemma CreateExact(db: Db, p: PoolCreate, clusters: set<nat>)
    requires Inv(db)
    ensures var r := CreatePool(db, p, clusters);
      && Answers(r.reply, CreateChecks(db, p, clusters), Row(|db.pools|))
      && (r.reply.Err? ==> r.db == db)
      && (r.reply.Ok? ==>
            && |r.db.pools| == |db.pools| + 1 && r.db.pools[..|db.pools|] == db.pools
            && r.db.addresses == db.addresses && r.db.allocations == db.allocations
            && HoldsRequest(r.db.pools[|db.pools|], p))
  {
    var net := ParseNetwork(p.cidr);
    if net.Some? {
      ClashIsCollision(db.pools, None, net.value, p.cluster);
    }
    CreateAnswers(db, p, clusters);
  }

  ghost predicate HoldsRequest(pool: Pool, p: PoolCreate) {
    && pool.name == p.name && pool.cluster == p.cluster && Some(pool.net) == ParseNetwork(p.cidr)
    && pool.gateway == p.gateway && pool.dns == p.dns && pool.exclusions == p.excluded
    && pool.strategy == p.strategy && pool.quarantineSeconds == p.quarantineSeconds
    && pool.nextOffset == 0 && pool.active && pool.version == 1
  }

  /** The conditions of the code are those named here. */
  lemma Meanings(net: Network, gateway: Option<Ip>, excluded: seq<Exclusion>, dns: seq<Ip>)
    ensures GatewayFits(net, gateway) <==> GatewayInside(net, gateway)
    ensures DnsFits(net, dns) <==> OneFamily(net, dns)
    ensures ExclusionProblem(net, excluded).None? <==> forall i :: 0 <= i < |excluded| ==> GoodRange(net, excluded[i])
    ensures HasDuplicates(excluded) <==> !RangesDiffer(excluded)
  {
    if ExclusionProblem(net, excluded).Some? {
      RangeProblemIsFirst(net, excluded);
    } else {
      forall i | 0 <= i < |excluded|
        ensures GoodRange(net, excluded[i])
      {
        assert ExclusionFits(net, excluded[i]);
      }
    }
  }

  lemma NameMeaning(pools: seq<Pool>, self: Option<nat>, name: string)
    ensures NameTaken(pools, self, name) <==> !NameFree(pools, self, name)
  {
  }

  lemma CreateAnswers(db: Db, p: PoolCreate, clusters: set<nat>)
    requires var net := ParseNetwork(p.cidr);
      net.Some? ==> (ScopeClash(db.pools, None, net.value, p.cluster)
                     <==> Collides(db.pools, None, net.value, p.cluster))
    ensures Answers(CreatePool(db, p, clusters).reply, CreateChecks(db, p, clusters), Row(|db.pools|))
  {
    var net := ParseNetwork(p.cidr);
    if net.Some? {
      Meanings(net.value, p.gateway, p.excluded, p.dns);
      RangeProblemIsFirstError(net.value, p.excluded);
    }
    if !RangesDiffer(p.excluded) || HasDuplicates(p.excluded) {
      Meanings(Network(V4, 0, 0), None, p.excluded, []);
    }
    NameMeaning(db.pools, None, p.name);
    var checks, reply := CreateChecks(db, p, clusters), CreatePool(db, p, clusters).reply;
    hide ParseNetwork, ScopeClash, Collides, GatewayFits, GatewayInside, DnsFits, OneFamily, ExclusionProblem;
    hide HasDuplicates, RangesDiffer, NameTaken, NameFree, GoodRange, FirstRangeError;
    if reply.Err? {
      var i := if !checks[0].holds then 0 else if !checks[1].holds then 1 else if !checks[2].holds then 2
               else if !checks[3].holds then 3 else if !checks[4].holds then 4 else if !checks[5].holds then 5 else 6;
      assert FirstFailure(checks, i);
      Fails(reply, checks, Row(|db.pools|), i);
    }
  }

  // ----- update -------------------------------------------------------------------

  /** The requested value, or the one there was if the field is absent from the request. */
  function Kept<T>(field: Option<T>, before: T): T {
    match field
    case Some(value) => value
    case None => before
  }

  /** The block after the update; none if the requested one does not parse. */
  ghost function BlockAfter(pool: Pool, u: PoolUpdate): Option<Network> {
    match u.cidr
    case Some(text) => ParseNetwork(text)
    case None => Some(pool.net)
  }

  ghost function UpdateChecks(db: Db, pid: nat, u: PoolUpdate, clusters: set<nat>): seq<Check>
    requires pid < |db.pools|
  {
    var pool := db.pools[pid];
    var net := BlockAfter(pool, u);
    var cluster, gateway := Kept(u.cluster, pool.cluster), Kept(u.gateway, pool.gateway);
    [Check(u.version == pool.version, IpPoolVersionConflict),
     Check(net.Some?, InvalidCidr),
     Check(net.Some? ==> GatewayInside(net.value, gateway), GatewayOutsidePool),
     Check(net.Some? ==> OneFamily(net.value, Kept(u.dns, pool.dns)), IpFamilyMismatch),
     Check(cluster.Some? ==> cluster.value in clusters, ClusterNotFound),
     Check(HasRows(db, pid) ==> net == Some(pool.net) && cluster == pool.cluster && gateway == pool.gateway,
           IpPoolAddressesExist),
     Check(pool.exclusions != [] ==> net == Some(pool.net), IpPoolExclusionsExist),
     Check(net.Some? ==> !Collides(db.pools, Some(pid), net.value, cluster), IpPoolOverlap),
     Check(u.name.Some? ==> NameFree(db.pools, Some(pid), u.name.value), IpPoolConflict)]
  }

  /** Every field has the requested value if the request names it and its old one if not. */
  ghost predicate HoldsUpdate(before: Pool, after: Pool, u: PoolUpdate) {
    && after.name == Kept(u.name, before.name)
    && after.cluster == Kept(u.cluster, before.cluster)
    && Some(after.net) == BlockAfter(before, u)
    && after.gateway == Kept(u.gateway, before.gateway)
    && after.dns == Kept(u.dns, before.dns)
    && after.strategy == Kept(u.strategy, before.strategy)
    && after.quarantineSeconds == Kept(u.quarantineSeconds, before.quarantineSeconds)
    && after.exclusions == before.exclusions && after.nextOffset == before.nextOffset
    && after.active == before.active && after.version == before.version + 1
  }

  /** A pool is updated exactly when it is active and all the checks hold, the first that
      fails being the answer; then each field it names is changed and each other kept. */
  lemma UpdateExact(db: Db, pid: nat, u: PoolUpdate, clusters: set<nat>)
    requires Inv(db)
    ensures var r := UpdatePool(db, pid, u, clusters);
      && (if Locked(db, pid) then Answers(r.reply, UpdateChecks(db, pid, u, clusters), Row(pid))
          else r.reply == Err(IpPoolNotFound))
      && (r.reply.Err? ==> r.db == db)
      && (r.reply.Ok? ==> r.db == db.(pools := r.db.pools) && OnlyPoolChanges(db, r.db, pid)
                          && HoldsUpdate(db.pools[pid], r.db.pools[pid], u))
  {
    if Locked(db, pid) {
      var net := BlockAfter(db.pools[pid], u);
      assert PoolOk(db.pools[pid]);
      if net.Some? {
        ClashIsCollision(db.pools, Some(pid), net.value, Kept(u.cluster, db.pools[pid].cluster));
      }
      UpdateAnswers(db, pid, u, clusters);
      hide Inv, UpdateProblem, Answers, ParseNetwork, UpdateChecks;
      if UpdatePool(db, pid, u, clusters).reply.Ok? {
        UpdateFields(db.pools[pid], u);
      }
    }
  }

  ghost predicate OnlyPoolChanges(db: Db, db': Db, pid: nat) {
    && pid < |db.pools| == |db'.pools|
    && forall q :: 0 <= q < |db.pools| && q != pid ==> db'.pools[q] == db.pools[q]
  }

  lemma UpdateFields(pool: Pool, u: PoolUpdate)
    requires BlockAfter(pool, u).Some?
    ensures HoldsUpdate(pool, UpdatedPool(pool, u), u)
  {
  }

  lemma UpdateAnswers(db: Db, pid: nat, u: PoolUpdate, clusters: set<nat>)
    requires Locked(db, pid)
    requires var net := BlockAfter(db.pools[pid], u);
      var cluster := Kept(u.cluster, db.pools[pid].cluster);
      net.Some? ==> (ScopeClash(db.pools, Some(pid), net.value, cluster)
                     <==> Collides(db.pools, Some(pid), net.value, cluster))
    ensures Answers(UpdatePool(db, pid, u, clusters).reply, UpdateChecks(db, pid, u, clusters), Row(pid))
    ensures UpdatePool(db, pid, u, clusters).reply.Ok? ==> BlockAfter(db.pools[pid], u).Some?
  {
    var pool := db.pools[pid];
    var net := BlockAfter(pool, u);
    if net.Some? {
      Meanings(net.value, Kept(u.gateway, pool.gateway), [], Kept(u.dns, pool.dns));
    }
    if u.name.Some? {
      NameMeaning(db.pools, Some(pid), u.name.value);
    }
    var checks, reply := UpdateChecks(db, pid, u, clusters), UpdatePool(db, pid, u, clusters).reply;
    hide ParseNetwork, ScopeClash, Collides, GatewayFits, GatewayInside, DnsFits, OneFamily, ExclusionProblem;
    hide HasDuplicates, RangesDiffer, NameTaken, NameFree, GoodRange, HasRows, UpdatedPool;
    if reply.Err? {
      var i := if !checks[0].holds then 0 else if !checks[1].holds then 1 else if !checks[2].holds then 2
               else if !checks[3].holds then 3 else if !checks[4].holds then 4 else if !checks[5].holds then 5
               else if !checks[6].holds then 6 else if !checks[7].holds then 7 else 8;
      assert FirstFailure(checks, i);
      Fails(reply, checks, Row(pid), i);
    }
  }

  // ----- deletion -------------------------------------------------------------------

  ghost predicate NothingHeld(db: Db, pid: nat) {
    forall k :: 0 <= k < |db.addresses| && db.addresses[k].pool == pid ==> db.addresses[k].state == Available
  }

  /** A pool is deleted exactly when the version matches, nothing of it is held or disabled
      and no provisioning waits for it. It is then inactive, and nothing else changes. */
  lemma DeleteAnswers(db: Db, pid: nat, version: nat, activeRequests: nat)
    requires Inv(db)
    ensures var r := DeletePool(db, pid, version, activeRequests);
      && (if Locked(db, pid) then
            Answers(r.reply, [Check(db.pools[pid].version == version, IpPoolVersionConflict),
                              Check(NothingHeld(db, pid) && activeRequests == 0, IpPoolInUse)], Done)
          else r.reply == Err(IpPoolNotFound))
      && (r.reply.Err? ==> r.db == db)
      && (r.reply.Ok? ==>
            && pid < |db.pools| && r.db == db.(pools := r.db.pools) && OnlyPoolChanges(db, r.db, pid)
            && r.db.pools[pid] == db.pools[pid].(active := false, version := version + 1))
  {
    if Locked(db, pid) {
      var r := DeletePool(db, pid, version, activeRequests);
      var checks := [Check(db.pools[pid].version == version, IpPoolVersionConflict),
                     Check(NothingHeld(db, pid) && activeRequests == 0, IpPoolInUse)];
      if r.reply.Err? {
        Fails(r.reply, checks, Done, if !checks[0].holds then 0 else 1);
      }
    }
  }
}
