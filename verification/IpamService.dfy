/** The IP address manager's service methods, carried out on mutable tables.

    Each method is one transaction: it leaves the tables as `IpamModel` says, and keeps
    the invariant of `IpamInvariants`. A raised error leaves nothing behind. */
module IpamService {
  import opened Wrappers
  import opened Networks
  import opened FirstFree
  import opened IpamModel
  import opened IpamInvariants
  import IpamTheorems

  class IpamService {
    var pools: seq<Pool>
    var addresses: seq<AddressRow>
    var allocations: seq<Allocation>

    function Tables(): Db
      reads this
    {
      Db(pools, addresses, allocations)
    }

    ghost predicate Valid()
      reads this
    {
      Inv(Tables())
    }

    constructor ()
      ensures Valid() && Tables() == IpamTheorems.EmptyDb
    {
      pools, addresses, allocations := [], [], [];
    }

    /** Undo everything since the transaction began. */
    method Rollback(db: Db)
      modifies this
      ensures Tables() == db
    {
      pools, addresses, allocations := db.pools, db.addresses, db.allocations;
    }

    /** The excluded ranges of a request, or what is wrong with the first unusable one. */
    method CollectExclusions(net: Network, excluded: seq<Exclusion>) returns (r: Result<seq<Exclusion>, Error>)
      ensures match ExclusionProblem(net, excluded)
              case Some(e) => r == Err(e)
              case None => r == Ok(excluded)
    {
      var exclusions: seq<Exclusion> := [];
      for i := 0 to |excluded|
        invariant exclusions == excluded[..i]
        invariant ExclusionProblem(net, excluded) == ExclusionProblem(net, excluded[i..])
      {
        var item := excluded[i];
        assert excluded[i..][1..] == excluded[i + 1..];
        if item.start.family != net.family || item.end.family != net.family {
          return Err(IpFamilyMismatch);
        }
        if !Contains(net, item.start) || !Contains(net, item.end) || item.start.value > item.end.value {
          return Err(InvalidExcludedRange);
        }
        exclusions := exclusions + [item];
      }
      assert excluded[..|excluded|] == excluded;
      return Ok(exclusions);
    }

    /** The walk over the other active pools that both pool methods make. */
    method FindsOverlap(self: Option<nat>, net: Network, cluster: Option<nat>) returns (found: bool)
      ensures found == ScopeClash(pools, self, net, cluster)
    {
      for i := 0 to |pools|
        invariant forall j :: 0 <= j < i ==> !Clashes(pools[j], net, cluster) || Some(j) == self
      {
        if Some(i) != self && pools[i].active && SameScope(pools[i].cluster, cluster) && Overlaps(net, pools[i].net) {
          assert Clashes(pools[i], net, cluster);
          return true;
        }
      }
      return false;
    }

    method CreatePool(p: PoolCreate, clusters: set<nat>) returns (reply: Result<Reply, Error>)
      requires Valid()
      modifies this
      ensures Valid()
      ensures Outcome(Tables(), reply) == IpamModel.CreatePool(old(Tables()), p, clusters)
    {
      CreatePoolKeepsInv(Tables(), p, clusters);
      hide Inv, ScopeClash, NameTaken, HasDuplicates, ParseNetwork, DnsFits;
      var network := ParseNetwork(p.cidr);
      if network.None? {
        return Err(InvalidCidr);
      }
      var net := network.value;
      if p.gateway.Some? && !Contains(net, p.gateway.value) {
        return Err(GatewayOutsidePool);
      }
      if p.cluster.Some? && p.cluster.value !in clusters {
        return Err(ClusterNotFound);
      }
      var exclusions := CollectExclusions(net, p.excluded);
      if exclusions.Err? {
        return Err(exclusions.error);
      }
      if !DnsFits(net, p.dns) {
        return Err(IpFamilyMismatch);
      }
      var overlap := FindsOverlap(None, net, p.cluster);
      if overlap {
        return Err(IpPoolOverlap);
      }
      if NameTaken(pools, None, p.name) || HasDuplicates(exclusions.value) {
        return Err(IpPoolConflict);
      }
      pools := pools + [Pool(p.name, p.cluster, net, p.gateway, p.dns, exclusions.value, p.strategy,
                             p.quarantineSeconds, 0, true, 1)];
      return Ok(Row(|pools| - 1));
    }

    /** The checks of an update, in the order the service makes them. */
    method CheckUpdate(pid: nat, u: PoolUpdate, clusters: set<nat>) returns (problem: Option<Error>)
      requires pid < |pools|
      ensures problem == UpdateProblem(Tables(), pid, u, clusters)
    {
      hide ScopeClash, NameTaken, ParseNetwork, DnsFits, HasRows;
      var pool := pools[pid];
      if pool.version != u.version {
        return Some(IpPoolVersionConflict);
      }
      var t := UpdateTarget(pool, u);
      if t.net.None? {
        return Some(InvalidCidr);
      }
      if t.gateway.Some? && !Contains(t.net.value, t.gateway.value) {
        return Some(GatewayOutsidePool);
      }
      if !DnsFits(t.net.value, t.dns) {
        return Some(IpFamilyMismatch);
      }
      if t.cluster.Some? && t.cluster.value !in clusters {
        return Some(ClusterNotFound);
      }
      var addressingChanged := t.net.value != pool.net || t.cluster != pool.cluster || t.gateway != pool.gateway;
      if addressingChanged && HasRows(Tables(), pid) {
        return Some(IpPoolAddressesExist);
      }
      if t.net.value != pool.net && |pool.exclusions| > 0 {
        return Some(IpPoolExclusionsExist);
      }
      var overlap := FindsOverlap(Some(pid), t.net.value, t.cluster);
      if overlap {
        return Some(IpPoolOverlap);
      }
      if u.name.Some? && NameTaken(pools, Some(pid), u.name.value) {
        return Some(IpPoolConflict);
      }
      return None;
    }

    /** The field assignments of an update that passed its checks. */
    method AssignFields(before: Pool, u: PoolUpdate) returns (pool: Pool)
      ensures pool == UpdatedPool(before, u)
    {
      hide ParseNetwork;
      pool := before;
      var t := UpdateTarget(before, u);
      if u.name.Some? {
        pool := pool.(name := u.name.value);
      }
      pool := pool.(cluster := t.cluster, gateway := t.gateway, dns := t.dns);
      if t.net.Some? {
        pool := pool.(net := t.net.value);
      }
      if u.strategy.Some? {
        pool := pool.(strategy := u.strategy.value);
      }
      if u.quarantineSeconds.Some? {
        pool := pool.(quarantineSeconds := u.quarantineSeconds.value);
      }
      pool := pool.(version := pool.version + 1);
    }

    method UpdatePool(pid: nat, u: PoolUpdate, clusters: set<nat>) returns (reply: Result<Reply, Error>)
      requires Valid()
      modifies this
      ensures Valid()
      ensures Outcome(Tables(), reply) == IpamModel.UpdatePool(old(Tables()), pid, u, clusters)
    {
      UpdatePoolKeepsInv(Tables(), pid, u, clusters);
      hide Inv, UpdateProblem, UpdatedPool;
      if !Locked(Tables(), pid) {
        return Err(IpPoolNotFound);
      }
      var problem := CheckUpdate(pid, u, clusters);
      if problem.Some? {
        return Err(problem.value);
      }
      var pool := AssignFields(pools[pid], u);
      pools := pools[pid := pool];
      return Ok(Row(pid));
    }

    method DeletePool(pid: nat, version: nat, activeRequests: nat) returns (reply: Result<Reply, Error>)
      requires Valid()
      modifies this
      ensures Valid()
      ensures Outcome(Tables(), reply) == IpamModel.DeletePool(old(Tables()), pid, version, activeRequests)
    {
      DeletePoolKeepsInv(Tables(), pid, version, activeRequests);
      hide Inv;
      if !Locked(Tables(), pid) {
        return Err(IpPoolNotFound);
      }
      if pools[pid].version != version {
        return Err(IpPoolVersionConflict);
      }
      if HasUnavailable(Tables(), pid) || activeRequests > 0 {
        return Err(IpPoolInUse);
      }
      pools := pools[pid := pools[pid].(active := false, version := pools[pid].version + 1)];
      return Ok(Done);
    }

    method ReserveAddress(pid: nat, ip: Ip) returns (reply: Result<Reply, Error>)
      requires Valid()
      modifies this
      ensures Valid()
      ensures Outcome(Tables(), reply) == IpamModel.ReserveAddress(old(Tables()), pid, ip)
    {
      ReserveAddressKeepsInv(Tables(), pid, ip);
      hide Inv;
      if !Locked(Tables(), pid) {
        return Err(IpPoolNotFound);
      }
      var problem := CandidateProblem(pools[pid], ip);
      if problem.Some? {
        return Err(problem.value);
      }
      var existing := FindRow(addresses, pid, ip);
      if existing.Some? && addresses[existing.value].state != Available {
        return Err(IpAddressUnavailable);
      }
      var id := if existing.Some? then existing.value else |addresses|;
      if existing.None? {
        addresses := addresses + [AddressRow(pid, ip, Available, None)];
      }
      addresses := addresses[id := addresses[id].(state := Disabled)];
      addresses := addresses[id := addresses[id].(quarantinedUntil := None)];
      assert Tables() == IpamModel.ReserveAddress(old(Tables()), pid, ip).db;
      return Ok(Row(id));
    }

    /** The intervals an automatic allocation must avoid, collected piece by piece. */
    method BlockedIntervals(pid: nat) returns (blocked: seq<Interval>)
      requires pid < |pools|
      ensures blocked == Blocked(Tables(), pid)
    {
      var pool := pools[pid];
      var size := Size(pool.net);
      blocked := [];
      for i := 0 to |pool.exclusions|
        invariant |blocked| == i && blocked == ExcludedOffsets(pool)[..i]
      {
        var low, high := pool.exclusions[i].start.value - pool.net.base, pool.exclusions[i].end.value - pool.net.base;
        blocked := blocked + [Interval(if low < 0 then 0 else low, if high < size - 1 then high else size - 1)];
      }
      blocked := blocked + Materialized(addresses, pid, pool.net.base);
      blocked := blocked + [Interval(0, 0)];
      if pool.net.family == V4 {
        blocked := blocked + [Interval(size - 1, size - 1)];
      }
      if pool.gateway.Some? {
        var offset := pool.gateway.value.value - pool.net.base;
        blocked := blocked + [Interval(offset, offset)];
      }
    }

    /** `_automatic_candidate`: an available row if there is one, a new row otherwise. */
    method TakeAutomaticCandidate(pid: nat, draws: Draws) returns (r: Result<nat, Error>)
      requires Valid() && pid < |pools|
      modifies this
      ensures match AutomaticCandidate(old(Tables()), pid, draws)
              case Found(db, row) => r == Ok(row) && Tables() == db
              case Refused(e) => r == Err(e) && Tables() == old(Tables())
    {
      hide Inv;
      var available := FirstAvailable(addresses, pid);
      if available.Some? {
        return Ok(available.value);
      }
      var pool := pools[pid];
      var size := Size(pool.net);
      var blocked := BlockedIntervals(pid);
      var offset: Option<int> := None;
      if pool.strategy == Random && size > 2 {
        var i := 0;
        while i < 1024
          invariant 0 <= i <= 1024 && offset.None?
          invariant FirstDraw(draws, size, blocked) == FirstDraw(draws[i..], size, blocked)
        {
          var drawn := draws[i] % size;
          if !Covered(blocked, drawn) {
            offset := Some(drawn);
            break;
          }
          assert draws[i..][1..] == draws[i + 1..];
          i := i + 1;
        }
      }
      if offset.None? {
        offset := FirstFreeOffset(size, pool.nextOffset, blocked);
      }
      if offset.None? {
        return Err(IpPoolExhausted);
      }
      assert offset == ChooseOffset(old(Tables()), pid, draws);
      pools := pools[pid := pool.(nextOffset := (offset.value + 1) % size)];
      addresses := addresses + [AddressRow(pid, AddressAt(pool.net, offset.value), Available, None)];
      return Ok(|addresses| - 1);
    }

    /** The requested address if it may be handed out, with a row made for it if it has none. */
    method TakeCandidate(pid: nat, requested: Option<Ip>, draws: Draws) returns (r: Result<nat, Error>)
      requires Valid() && pid < |pools|
      modifies this
      ensures match PickCandidate(old(Tables()), pid, requested, draws)
              case Found(db, row) => r == Ok(row) && Tables() == db
              case Refused(e) => r == Err(e) && Tables() == old(Tables())
    {
      hide Inv;
      if requested.None? {
        r := TakeAutomaticCandidate(pid, draws);
        return;
      }
      var ip := requested.value;
      var problem := CandidateProblem(pools[pid], ip);
      if problem.Some? {
        return Err(problem.value);
      }
      if Excluded(pools[pid], ip) {
        return Err(IpAddressExcluded);
      }
      var row := FindRow(addresses, pid, ip);
      if row.Some? {
        return Ok(row.value);
      }
      addresses := addresses + [AddressRow(pid, ip, Available, None)];
      return Ok(|addresses| - 1);
    }

    method Allocate(pid: nat, workload: Option<Workload>, requested: Option<Ip>, draws: Draws)
      returns (reply: Result<Reply, Error>)
      requires Valid()
      modifies this
      ensures Valid()
      ensures Outcome(Tables(), reply) == IpamModel.Allocate(old(Tables()), pid, workload, requested, draws)
    {
      AllocateKeepsInv(Tables(), pid, workload, requested, draws);
      hide Inv, PickCandidate, InsertClash;
      var begin := Tables();
      if !Locked(Tables(), pid) {
        return Err(IpPoolNotFound);
      }
      if workload.None? {
        return Err(WorkloadNotFound);
      }
      if pools[pid].cluster.Some? && workload.value.cluster != pools[pid].cluster.value {
        return Err(IpPoolClusterMismatch);
      }
      var candidate := TakeCandidate(pid, requested, draws);
      if candidate.Err? {
        return Err(candidate.error);
      }
      var row := candidate.value;
      if addresses[row].state != Available {
        Rollback(begin);
        return Err(IpAddressUnavailable);
      }
      addresses := addresses[row := addresses[row].(quarantinedUntil := None)];
      addresses := addresses[row := addresses[row].(state := State.Assigned)];
      if InsertClash(allocations, row, None) {
        Rollback(begin);
        return Err(IpAddressUnavailable);
      }
      allocations := allocations + [Allocation(row, Some(workload.value.id), None, Status.Assigned)];
      return Ok(Row(|allocations| - 1));
    }

    method ReserveForProvisioning(pid: nat, request: nat, requested: Option<Ip>, draws: Draws)
      returns (reply: Result<Reply, Error>)
      requires Valid()
      modifies this
      ensures Valid()
      ensures Outcome(Tables(), reply)
              == IpamModel.ReserveForProvisioning(old(Tables()), pid, request, requested, draws)
    {
      ReserveForProvisioningKeepsInv(Tables(), pid, request, requested, draws);
      hide Inv, PickCandidate, InsertClash;
      var begin := Tables();
      if !Locked(Tables(), pid) {
        return Err(IpPoolNotFound);
      }
      var existing := FindForRequest(allocations, request, {Status.Reserved, Status.Assigned});
      if existing.Some? {
        return Ok(Row(existing.value));
      }
      var candidate := TakeCandidate(pid, requested, draws);
      if candidate.Err? {
        return Err(candidate.error);
      }
      var row := candidate.value;
      if addresses[row].state != Available {
        Rollback(begin);
        return Err(IpAddressUnavailable);
      }
      addresses := addresses[row := addresses[row].(state := State.Reserved)];
      if InsertClash(allocations, row, Some(request)) {
        Rollback(begin);
        return Err(IpAddressUnavailable);
      }
      allocations := allocations + [Allocation(row, None, Some(request), Status.Reserved)];
      return Ok(Row(|allocations| - 1));
    }

    method ConfirmProvisioningIp(request: nat, workload: nat) returns (reply: Result<Reply, Error>)
      requires Valid()
      modifies this
      ensures Valid()
      ensures Outcome(Tables(), reply) == IpamModel.ConfirmProvisioningIp(old(Tables()), request, workload)
    {
      ConfirmKeepsInv(Tables(), request, workload);
      assert ForeignKeys(Tables());
      hide Inv;
      var reserved := FindForRequest(allocations, request, {Status.Reserved});
      if reserved.None? {
        if FindForRequest(allocations, request, {Status.Assigned}).Some? {
          return Ok(Done);
        }
        return Err(IpReservationMissing);
      }
      var id := reserved.value;
      var row := allocations[id].address;
      allocations := allocations[id := allocations[id].(workload := Some(workload))];
      allocations := allocations[id := allocations[id].(status := Status.Assigned)];
      addresses := addresses[row := addresses[row].(state := State.Assigned)];
      assert Tables() == IpamModel.ConfirmProvisioningIp(old(Tables()), request, workload).db;
      return Ok(Done);
    }

    /** The common tail of both ways into quarantine. */
    method IntoQuarantine(id: nat, now: int)
      requires Valid() && id < |allocations|
      modifies this
      ensures Tables() == Quarantine(old(Tables()), id, now)
    {
      var row := allocations[id].address;
      var pool := pools[addresses[row].pool];
      allocations := allocations[id := allocations[id].(status := Status.Quarantined)];
      addresses := addresses[row := addresses[row].(state := State.Quarantined)];
      addresses := addresses[row := addresses[row].(quarantinedUntil := Some(now + pool.quarantineSeconds))];
    }

    method QuarantineProvisioningIp(request: nat, now: int) returns (reply: Result<Reply, Error>)
      requires Valid()
      modifies this
      ensures Valid()
      ensures Outcome(Tables(), reply) == IpamModel.QuarantineProvisioningIp(old(Tables()), request, now)
    {
      QuarantineProvisioningKeepsInv(Tables(), request, now);
      var reserved := FindForRequest(allocations, request, {Status.Reserved});
      if reserved.None? {
        return Ok(Done);
      }
      IntoQuarantine(reserved.value, now);
      return Ok(Done);
    }

    method Release(id: nat, now: int) returns (reply: Result<Reply, Error>)
      requires Valid()
      modifies this
      ensures Valid()
      ensures Outcome(Tables(), reply) == IpamModel.Release(old(Tables()), id, now)
    {
      ReleaseKeepsInv(Tables(), id, now);
      if id >= |allocations| {
        return Err(IpAllocationNotFound);
      }
      if allocations[id].status == Status.Released {
        return Ok(Row(id));
      }
      if allocations[id].status != Status.Quarantined {
        IntoQuarantine(id, now);
      }
      return Ok(Row(id));
    }

    method ApproveRelease(row: nat, now: int) returns (reply: Result<Reply, Error>)
      requires Valid()
      modifies this
      ensures Valid()
      ensures Outcome(Tables(), reply) == IpamModel.ApproveRelease(old(Tables()), row, now)
    {
      ApproveReleaseKeepsInv(Tables(), row, now);
      hide Inv;
      if row >= |addresses| {
        return Err(IpAddressNotFound);
      }
      if addresses[row].state != State.Quarantined {
        return Err(IpAddressNotQuarantined);
      }
      var until := addresses[row].quarantinedUntil;
      if until.Some? && until.value > now {
        return Err(IpQuarantineActive);
      }
      var id := FindQuarantined(allocations, row);
      if id.None? {
        return Err(IpAllocationStateInvalid);
      }
      allocations := allocations[id.value := allocations[id.value].(status := Released)];
      addresses := addresses[row := addresses[row].(state := Available)];
      addresses := addresses[row := addresses[row].(quarantinedUntil := None)];
      assert Tables() == IpamModel.ApproveRelease(old(Tables()), row, now).db;
      return Ok(Row(row));
    }
  }
}
