/** The IP address manager's tables and what each service method does to them.

    A table is a sequence of rows and a row's id its index: no method deletes a row of
    these tables, so a fresh UUID is the next index. Each function below gives the
    outcome of one committed or rolled-back transaction; `IpamService` carries the same
    operations out step by step on mutable tables. */
module IpamModel {
  import opened Wrappers
  import opened Networks
  import opened FirstFree

  datatype Strategy = Sequential | Random

  datatype Exclusion = Exclusion(start: Ip, end: Ip)

  datatype Pool = Pool(
    name: string,
    cluster: Option<nat>,
    net: Network,
    gateway: Option<Ip>,
    dns: seq<Ip>,
    exclusions: seq<Exclusion>,
    strategy: Strategy,
    quarantineSeconds: nat,
    nextOffset: nat,
    active: bool,
    version: nat)

  datatype State = Available | Reserved | Assigned | Quarantined | Disabled

  datatype AddressRow = AddressRow(pool: nat, ip: Ip, state: State, quarantinedUntil: Option<int>)

  datatype Status = Reserved | Assigned | Quarantined | Released

  datatype Allocation = Allocation(address: nat, workload: Option<nat>, request: Option<nat>, status: Status)

  datatype Db = Db(pools: seq<Pool>, addresses: seq<AddressRow>, allocations: seq<Allocation>)

  datatype Error =
    | InvalidCidr | GatewayOutsidePool | ClusterNotFound | IpFamilyMismatch | InvalidExcludedRange
    | IpPoolOverlap | IpPoolConflict | IpPoolNotFound | IpPoolVersionConflict | IpPoolAddressesExist
    | IpPoolExclusionsExist | IpPoolInUse | IpOutsidePool | IpAddressExcluded | IpAddressUnavailable
    | IpPoolExhausted | WorkloadNotFound | IpPoolClusterMismatch | IpReservationMissing
    | IpAllocationNotFound | IpAddressNotFound | IpAddressNotQuarantined | IpQuarantineActive
    | IpAllocationStateInvalid

  /** `Done` for methods that answer with nothing the caller can hold on to. */
  datatype Reply = Done | Row(id: nat)

  datatype Outcome = Outcome(db: Db, reply: Result<Reply, Error>)

  /** The 1024 values the random generator would yield; each is reduced to the pool's size. */
  type Draws = s: seq<nat> | |s| == 1024 witness seq(1024, i => 0)

  datatype Workload = Workload(id: nat, cluster: nat)

  datatype PoolCreate = PoolCreate(
    name: string,
    cluster: Option<nat>,
    cidr: CidrText,
    gateway: Option<Ip>,
    dns: seq<Ip>,
    excluded: seq<Exclusion>,
    strategy: Strategy,
    quarantineSeconds: nat)

  /** An outer `None` means the field is absent from the request. */
  datatype PoolUpdate = PoolUpdate(
    version: nat,
    name: Option<string>,
    cluster: Option<Option<nat>>,
    cidr: Option<CidrText>,
    gateway: Option<Option<Ip>>,
    dns: Option<seq<Ip>>,
    strategy: Option<Strategy>,
    quarantineSeconds: Option<nat>)

  function GetOr<T>(o: Option<T>, default: T): T {
    if o.Some? then o.value else default
  }

  // ----- pools ----------------------------------------------------------------

  /** Two pools compete for addresses when they serve a common cluster. */
  predicate SameScope(a: Option<nat>, b: Option<nat>) {
    a == b || a.None? || b.None?
  }

  predicate GatewayFits(net: Network, gateway: Option<Ip>) {
    gateway.Some? ==> Contains(net, gateway.value)
  }

  predicate DnsFits(net: Network, dns: seq<Ip>) {
    forall i :: 0 <= i < |dns| ==> dns[i].family == net.family
  }

  predicate ExclusionFits(net: Network, e: Exclusion) {
    Contains(net, e.start) && Contains(net, e.end) && e.start.value <= e.end.value
  }

  /** What is wrong with the first unusable excluded range. */
  function ExclusionProblem(net: Network, excluded: seq<Exclusion>): (r: Option<Error>)
    ensures r.None? <==> forall i :: 0 <= i < |excluded| ==> ExclusionFits(net, excluded[i])
  {
    if excluded == [] then None
    else if excluded[0].start.family != net.family || excluded[0].end.family != net.family then Some(IpFamilyMismatch)
    else if !ExclusionFits(net, excluded[0]) then Some(InvalidExcludedRange)
    else
      assert excluded == [excluded[0]] + excluded[1..];
      ExclusionProblem(net, excluded[1..])
  }

  /** Some active pool other than `self` shares the scope and overlaps the block. */
  predicate ScopeClash(pools: seq<Pool>, self: Option<nat>, net: Network, cluster: Option<nat>) {
    exists i :: 0 <= i < |pools| && Clashes(pools[i], net, cluster) && Some(i) != self
  }

  predicate Clashes(pool: Pool, net: Network, cluster: Option<nat>) {
    pool.active && SameScope(pool.cluster, cluster) && Overlaps(net, pool.net)
  }

  /** The unique index on pool names. */
  predicate NameTaken(pools: seq<Pool>, self: Option<nat>, name: string) {
    exists i :: 0 <= i < |pools| && pools[i].name == name && Some(i) != self
  }

  /** The unique constraint on (pool, start, end) of excluded ranges. */
  predicate HasDuplicates(excluded: seq<Exclusion>) {
    exists i, j :: 0 <= i < j < |excluded| && excluded[i] == excluded[j]
  }

  function CreatePool(db: Db, p: PoolCreate, clusters: set<nat>): Outcome {
    var net := ParseNetwork(p.cidr);
    if net.None? then Outcome(db, Err(InvalidCidr))
    else if !GatewayFits(net.value, p.gateway) then Outcome(db, Err(GatewayOutsidePool))
    else if p.cluster.Some? && p.cluster.value !in clusters then Outcome(db, Err(ClusterNotFound))
    else if ExclusionProblem(net.value, p.excluded).Some? then
      Outcome(db, Err(ExclusionProblem(net.value, p.excluded).value))
    else if !DnsFits(net.value, p.dns) then Outcome(db, Err(IpFamilyMismatch))
    else if ScopeClash(db.pools, None, net.value, p.cluster) then Outcome(db, Err(IpPoolOverlap))
    else if NameTaken(db.pools, None, p.name) || HasDuplicates(p.excluded) then Outcome(db, Err(IpPoolConflict))
    else
      var pool := Pool(p.name, p.cluster, net.value, p.gateway, p.dns, p.excluded, p.strategy,
                       p.quarantineSeconds, 0, true, 1);
      Outcome(db.(pools := db.pools + [pool]), Ok(Row(|db.pools|)))
  }

  predicate Locked(db: Db, pid: nat) {
    pid < |db.pools| && db.pools[pid].active
  }

  predicate HasRows(db: Db, pid: nat) {
    exists r :: 0 <= r < |db.addresses| && db.addresses[r].pool == pid
  }

  /** The addressing a pool would have after the update; no block if the CIDR is invalid. */
  datatype Target = Target(net: Option<Network>, cluster: Option<nat>, gateway: Option<Ip>, dns: seq<Ip>)

  function UpdateTarget(pool: Pool, u: PoolUpdate): Target {
    Target(if u.cidr.Some? then ParseNetwork(u.cidr.value) else Some(pool.net),
           GetOr(u.cluster, pool.cluster), GetOr(u.gateway, pool.gateway), GetOr(u.dns, pool.dns))
  }

  predicate ChangesAddressing(pool: Pool, t: Target) {
    t.net != Some(pool.net) || t.cluster != pool.cluster || t.gateway != pool.gateway
  }

  /** The first check that an update fails. */
  function UpdateProblem(db: Db, pid: nat, u: PoolUpdate, clusters: set<nat>): Option<Error>
    requires pid < |db.pools|
  {
    var pool := db.pools[pid];
    var t := UpdateTarget(pool, u);
    if pool.version != u.version then Some(IpPoolVersionConflict)
    else if t.net.None? then Some(InvalidCidr)
    else if !GatewayFits(t.net.value, t.gateway) then Some(GatewayOutsidePool)
    else if !DnsFits(t.net.value, t.dns) then Some(IpFamilyMismatch)
    else if t.cluster.Some? && t.cluster.value !in clusters then Some(ClusterNotFound)
    else if ChangesAddressing(pool, t) && HasRows(db, pid) then Some(IpPoolAddressesExist)
    else if t.net.value != pool.net && pool.exclusions != [] then Some(IpPoolExclusionsExist)
    else if ScopeClash(db.pools, Some(pid), t.net.value, t.cluster) then Some(IpPoolOverlap)
    else if u.name.Some? && NameTaken(db.pools, Some(pid), u.name.value) then Some(IpPoolConflict)
    else None
  }

  function UpdatedPool(pool: Pool, u: PoolUpdate): Pool {
    var t := UpdateTarget(pool, u);
    pool.(name := GetOr(u.name, pool.name), cluster := t.cluster, net := GetOr(t.net, pool.net), gateway := t.gateway,
          dns := t.dns, strategy := GetOr(u.strategy, pool.strategy),
          quarantineSeconds := GetOr(u.quarantineSeconds, pool.quarantineSeconds), version := pool.version + 1)
  }

  function UpdatePool(db: Db, pid: nat, u: PoolUpdate, clusters: set<nat>): Outcome {
    if !Locked(db, pid) then Outcome(db, Err(IpPoolNotFound))
    else
      var problem := UpdateProblem(db, pid, u, clusters);
      if problem.Some? then Outcome(db, Err(problem.value))
      else Outcome(db.(pools := db.pools[pid := UpdatedPool(db.pools[pid], u)]), Ok(Row(pid)))
  }

  /** Some address of the pool is reserved, assigned, quarantined or disabled. */
  predicate HasUnavailable(db: Db, pid: nat) {
    exists r :: 0 <= r < |db.addresses| && db.addresses[r].pool == pid && db.addresses[r].state != Available
  }

  function DeletePool(db: Db, pid: nat, version: nat, activeRequests: nat): Outcome {
    if !Locked(db, pid) then Outcome(db, Err(IpPoolNotFound))
    else if db.pools[pid].version != version then Outcome(db, Err(IpPoolVersionConflict))
    else if HasUnavailable(db, pid) || activeRequests > 0 then Outcome(db, Err(IpPoolInUse))
    else
      var pool' := db.pools[pid].(active := false, version := db.pools[pid].version + 1);
      Outcome(db.(pools := db.pools[pid := pool']), Ok(Done))
  }

  // ----- candidate addresses ----------------------------------------------------

  predicate Special(pool: Pool, ip: Ip) {
    || ip == NetworkAddress(pool.net)
    || (pool.net.family == V4 && ip == BroadcastAddress(pool.net))
    || pool.gateway == Some(ip)
  }

  predicate Excluded(pool: Pool, ip: Ip) {
    exists i :: 0 <= i < |pool.exclusions| && pool.exclusions[i].start.value <= ip.value <= pool.exclusions[i].end.value
  }

  function CandidateProblem(pool: Pool, ip: Ip): Option<Error> {
    if !Contains(pool.net, ip) then Some(IpOutsidePool)
    else if Special(pool, ip) then Some(IpAddressExcluded)
    else None
  }

  /** The row of a pool's address: (pool, address) is unique. */
  function FindRow(rows: seq<AddressRow>, pid: nat, ip: Ip): (r: Option<nat>)
    ensures r.Some? ==> r.value < |rows| && rows[r.value].pool == pid && rows[r.value].ip == ip
    ensures r.None? ==> forall i :: 0 <= i < |rows| ==> rows[i].pool != pid || rows[i].ip != ip
  {
    if rows == [] then None
    else
      var n := |rows| - 1;
      if rows[n].pool == pid && rows[n].ip == ip then Some(n) else FindRow(rows[..n], pid, ip)
  }

  predicate IsAvailable(row: AddressRow, pid: nat) {
    row.pool == pid && row.state == Available
  }

  /** The pool's first available row in address order. */
  function FirstAvailable(rows: seq<AddressRow>, pid: nat): (r: Option<nat>)
    ensures r.Some? ==> r.value < |rows| && IsAvailable(rows[r.value], pid)
    ensures r.Some? ==> forall i :: 0 <= i < |rows| && IsAvailable(rows[i], pid) ==>
      rows[r.value].ip.value <= rows[i].ip.value
    ensures r.None? ==> forall i :: 0 <= i < |rows| ==> !IsAvailable(rows[i], pid)
  {
    if rows == [] then None
    else
      var n := |rows| - 1;
      var best := FirstAvailable(rows[..n], pid);
      if IsAvailable(rows[n], pid) && (best.None? || rows[n].ip.value < rows[best.value].ip.value) then Some(n)
      else best
  }

  /** The addresses of the pool that have a row, as offsets. */
  function Materialized(rows: seq<AddressRow>, pid: nat, base: nat): (r: seq<Interval>)
    ensures forall k :: Covered(r, k) <==>
      exists i :: 0 <= i < |rows| && rows[i].pool == pid && rows[i].ip.value - base == k
  {
    if rows == [] then []
    else
      var n := |rows| - 1;
      var rest := Materialized(rows[..n], pid, base);
      var offset := rows[n].ip.value - base;
      assert forall i :: 0 <= i < n ==> rows[i] == rows[..n][i];
      if rows[n].pool == pid then
        assert forall k :: Covered(rest + [Interval(offset, offset)], k) <==> Covered(rest, k) || k == offset by {
          forall k { CoveredSnoc(rest, Interval(offset, offset), k); }
        }
        rest + [Interval(offset, offset)]
      else rest
  }

  function Max(a: int, b: int): int {
    if a < b then b else a
  }

  function Min(a: int, b: int): int {
    if b < a then b else a
  }

  function ExcludedOffsets(pool: Pool): seq<Interval> {
    seq(|pool.exclusions|, i requires 0 <= i < |pool.exclusions| =>
      Interval(Max(0, pool.exclusions[i].start.value - pool.net.base),
               Min(Size(pool.net) - 1, pool.exclusions[i].end.value - pool.net.base)))
  }

  /** The offsets no automatic allocation may create a row for. */
  function Blocked(db: Db, pid: nat): seq<Interval>
    requires pid < |db.pools|
  {
    var pool := db.pools[pid];
    var size := Size(pool.net);
    ExcludedOffsets(pool) + Materialized(db.addresses, pid, pool.net.base)
    + [Interval(0, 0)]
    + (if pool.net.family == V4 then [Interval(size - 1, size - 1)] else [])
    + (if pool.gateway.Some? then
         [Interval(pool.gateway.value.value - pool.net.base, pool.gateway.value.value - pool.net.base)] else [])
  }

  /** The first draw that hits an unblocked offset. */
  function FirstDraw(draws: seq<nat>, size: nat, blocked: seq<Interval>): (r: Option<nat>)
    requires size >= 1
    ensures r.Some? ==> r.value < size && !Covered(blocked, r.value)
    ensures r.None? ==> forall i :: 0 <= i < |draws| ==> Covered(blocked, draws[i] % size)
  {
    if draws == [] then None
    else if !Covered(blocked, draws[0] % size) then Some(draws[0] % size)
    else
      assert draws == [draws[0]] + draws[1..];
      FirstDraw(draws[1..], size, blocked)
  }

  /** Random probes first when the pool asks for them, the cyclic scan otherwise or as fallback. */
  function ChooseOffset(db: Db, pid: nat, draws: Draws): (r: Option<int>)
    requires pid < |db.pools|
    ensures r.Some? ==> r.value >= 0
  {
    var pool := db.pools[pid];
    var size := Size(pool.net);
    var probe := if pool.strategy == Random && size > 2 then FirstDraw(draws, size, Blocked(db, pid)) else None;
    if probe.Some? then Some(probe.value) else CyclicScan(size, pool.nextOffset, Blocked(db, pid))
  }

  /** A new row for an address nobody has used. */
  function Materialize(db: Db, pid: nat, ip: Ip): Db {
    db.(addresses := db.addresses + [AddressRow(pid, ip, Available, None)])
  }

  function MoveCursor(db: Db, pid: nat, offset: nat): Db
    requires pid < |db.pools|
  {
    var pool := db.pools[pid];
    db.(pools := db.pools[pid := pool.(nextOffset := (offset + 1) % Size(pool.net))])
  }

  /** An address row to hand out, with the tables in which it exists. */
  datatype Candidate = Found(db: Db, row: nat) | Refused(error: Error)

  function AutomaticCandidate(db: Db, pid: nat, draws: Draws): (r: Candidate)
    requires pid < |db.pools|
  {
    var free := FirstAvailable(db.addresses, pid);
    if free.Some? then Found(db, free.value)
    else
      var offset := ChooseOffset(db, pid, draws);
      if offset.None? then Refused(IpPoolExhausted)
      else Found(Materialize(MoveCursor(db, pid, offset.value), pid, AddressAt(db.pools[pid].net, offset.value)),
                 |db.addresses|)
  }

  function ManualCandidate(db: Db, pid: nat, ip: Ip): Candidate
    requires pid < |db.pools|
  {
    var pool := db.pools[pid];
    if CandidateProblem(pool, ip).Some? then Refused(CandidateProblem(pool, ip).value)
    else if Excluded(pool, ip) then Refused(IpAddressExcluded)
    else
      var row := FindRow(db.addresses, pid, ip);
      if row.Some? then Found(db, row.value) else Found(Materialize(db, pid, ip), |db.addresses|)
  }

  function PickCandidate(db: Db, pid: nat, requested: Option<Ip>, draws: Draws): (r: Candidate)
    requires pid < |db.pools|
    ensures r.Found? ==> r.row < |r.db.addresses|
  {
    if requested.Some? then ManualCandidate(db, pid, requested.value) else AutomaticCandidate(db, pid, draws)
  }

  // ----- the life of an address -------------------------------------------------

  predicate ActiveStatus(s: Status) {
    s != Released
  }

  /** The two partial unique indexes on active allocations reject the insert. */
  predicate InsertClash(allocations: seq<Allocation>, address: nat, request: Option<nat>) {
    exists i :: 0 <= i < |allocations| && ActiveStatus(allocations[i].status) &&
      (allocations[i].address == address || (request.Some? && allocations[i].request == request))
  }

  /** An available row becomes held by a new allocation. */
  function Take(db: Db, row: nat, state: State, a: Allocation): Db
    requires row < |db.addresses|
  {
    db.(addresses := db.addresses[row := db.addresses[row].(state := state)],
        allocations := db.allocations + [a])
  }

  /** An allocation and its row change status together. */
  function Move(db: Db, id: nat, a: Allocation, state: State, until: Option<int>): Db
    requires id < |db.allocations| && db.allocations[id].address < |db.addresses|
  {
    var row := db.allocations[id].address;
    db.(allocations := db.allocations[id := a],
        addresses := db.addresses[row := db.addresses[row].(state := state, quarantinedUntil := until)])
  }

  function ReserveAddress(db: Db, pid: nat, ip: Ip): Outcome {
    if !Locked(db, pid) then Outcome(db, Err(IpPoolNotFound))
    else if CandidateProblem(db.pools[pid], ip).Some? then Outcome(db, Err(CandidateProblem(db.pools[pid], ip).value))
    else
      var row := FindRow(db.addresses, pid, ip);
      if row.None? then
        Outcome(db.(addresses := db.addresses + [AddressRow(pid, ip, Disabled, None)]), Ok(Row(|db.addresses|)))
      else if db.addresses[row.value].state != Available then Outcome(db, Err(IpAddressUnavailable))
      else
        Outcome(db.(addresses := db.addresses[row.value := AddressRow(pid, ip, Disabled, None)]), Ok(Row(row.value)))
  }

  function Allocate(db: Db, pid: nat, workload: Option<Workload>, requested: Option<Ip>, draws: Draws): Outcome {
    if !Locked(db, pid) then Outcome(db, Err(IpPoolNotFound))
    else if workload.None? then Outcome(db, Err(WorkloadNotFound))
    else if db.pools[pid].cluster.Some? && db.pools[pid].cluster.value != workload.value.cluster then
      Outcome(db, Err(IpPoolClusterMismatch))
    else
      match PickCandidate(db, pid, requested, draws)
      case Refused(e) => Outcome(db, Err(e))
      case Found(mid, row) =>
        if mid.addresses[row].state != Available then Outcome(db, Err(IpAddressUnavailable))
        else if InsertClash(mid.allocations, row, None) then Outcome(db, Err(IpAddressUnavailable))
        else
          var cleared := mid.(addresses := mid.addresses[row := mid.addresses[row].(quarantinedUntil := None)]);
          Outcome(Take(cleared, row, State.Assigned, Allocation(row, Some(workload.value.id), None, Status.Assigned)),
                  Ok(Row(|db.allocations|)))
  }

  predicate IsFor(a: Allocation, request: nat, status: Status) {
    a.request == Some(request) && a.status == status
  }

  /** The allocation a provisioning request holds in one of the statuses asked for. */
  function FindForRequest(allocations: seq<Allocation>, request: nat, statuses: set<Status>): (r: Option<nat>)
    ensures r.Some? ==> r.value < |allocations| && allocations[r.value].request == Some(request)
                        && allocations[r.value].status in statuses
    ensures r.None? ==> forall i :: 0 <= i < |allocations| ==>
              !(allocations[i].request == Some(request) && allocations[i].status in statuses)
  {
    if allocations == [] then None
    else
      var n := |allocations| - 1;
      if allocations[n].request == Some(request) && allocations[n].status in statuses then Some(n)
      else FindForRequest(allocations[..n], request, statuses)
  }

  function ReserveForProvisioning(db: Db, pid: nat, request: nat, requested: Option<Ip>, draws: Draws): Outcome {
    if !Locked(db, pid) then Outcome(db, Err(IpPoolNotFound))
    else
      var existing := FindForRequest(db.allocations, request, {Status.Reserved, Status.Assigned});
      if existing.Some? then Outcome(db, Ok(Row(existing.value)))
      else
        match PickCandidate(db, pid, requested, draws)
        case Refused(e) => Outcome(db, Err(e))
        case Found(mid, row) =>
          if mid.addresses[row].state != Available then Outcome(db, Err(IpAddressUnavailable))
          else if InsertClash(mid.allocations, row, Some(request)) then Outcome(db, Err(IpAddressUnavailable))
          else
            Outcome(Take(mid, row, State.Reserved, Allocation(row, None, Some(request), Status.Reserved)),
                    Ok(Row(|db.allocations|)))
  }

  /** The foreign key from allocations to addresses. */
  predicate ForeignKeys(db: Db) {
    forall i :: 0 <= i < |db.allocations| ==> db.allocations[i].address < |db.addresses|
  }

  function ConfirmProvisioningIp(db: Db, request: nat, workload: nat): Outcome
    requires ForeignKeys(db)
  {
    var id := FindForRequest(db.allocations, request, {Status.Reserved});
    if id.Some? then
      var a := db.allocations[id.value];
      Outcome(Move(db, id.value, a.(workload := Some(workload), status := Status.Assigned), State.Assigned,
                   db.addresses[a.address].quarantinedUntil),
              Ok(Done))
    else if FindForRequest(db.allocations, request, {Status.Assigned}).Some? then Outcome(db, Ok(Done))
    else Outcome(db, Err(IpReservationMissing))
  }

  /** The quarantine period of the pool an address belongs to. */
  function QuarantineOf(db: Db, row: nat): nat
    requires row < |db.addresses|
  {
    var pid := db.addresses[row].pool;
    if pid < |db.pools| then db.pools[pid].quarantineSeconds else 0
  }

  function Quarantine(db: Db, id: nat, now: int): Db
    requires ForeignKeys(db) && id < |db.allocations|
  {
    var a := db.allocations[id];
    Move(db, id, a.(status := Status.Quarantined), State.Quarantined, Some(now + QuarantineOf(db, a.address)))
  }

  function QuarantineProvisioningIp(db: Db, request: nat, now: int): Outcome
    requires ForeignKeys(db)
  {
    var id := FindForRequest(db.allocations, request, {Status.Reserved});
    if id.Some? then Outcome(Quarantine(db, id.value, now), Ok(Done)) else Outcome(db, Ok(Done))
  }

  function Release(db: Db, id: nat, now: int): Outcome
    requires ForeignKeys(db)
  {
    if id >= |db.allocations| then Outcome(db, Err(IpAllocationNotFound))
    else if db.allocations[id].status in {Status.Released, Status.Quarantined} then Outcome(db, Ok(Row(id)))
    else Outcome(Quarantine(db, id, now), Ok(Row(id)))
  }

  /** The quarantined allocation of an address. */
  function FindQuarantined(allocations: seq<Allocation>, row: nat): (r: Option<nat>)
    ensures r.Some? ==> r.value < |allocations| && allocations[r.value].address == row
                        && allocations[r.value].status == Status.Quarantined
    ensures r.None? ==> forall i :: 0 <= i < |allocations| ==>
              !(allocations[i].address == row && allocations[i].status == Status.Quarantined)
  {
    if allocations == [] then None
    else
      var n := |allocations| - 1;
      if allocations[n].address == row && allocations[n].status == Status.Quarantined then Some(n)
      else FindQuarantined(allocations[..n], row)
  }

  function ApproveRelease(db: Db, row: nat, now: int): Outcome {
    if row >= |db.addresses| then Outcome(db, Err(IpAddressNotFound))
    else if db.addresses[row].state != State.Quarantined then Outcome(db, Err(IpAddressNotQuarantined))
    else if db.addresses[row].quarantinedUntil.Some? && db.addresses[row].quarantinedUntil.value > now then
      Outcome(db, Err(IpQuarantineActive))
    else
      var id := FindQuarantined(db.allocations, row);
      if id.None? then Outcome(db, Err(IpAllocationStateInvalid))
      else
        Outcome(Move(db, id.value, db.allocations[id.value].(status := Released), Available, None), Ok(Row(row)))
  }

  // ----- requests and runs ------------------------------------------------------

  /** One service call with the environment's share of it: the clusters and the workload
      that exist, the draws of the random generator, the provisioning requests in flight. */
  datatype Call =
    | CallCreatePool(create: PoolCreate, clusters: set<nat>)
    | CallUpdatePool(pool: nat, update: PoolUpdate, clusters: set<nat>)
    | CallDeletePool(pool: nat, version: nat, activeRequests: nat)
    | CallReserveAddress(pool: nat, ip: Ip)
    | CallAllocate(pool: nat, workload: Option<Workload>, requested: Option<Ip>, draws: Draws)
    | CallReserveForProvisioning(pool: nat, request: nat, requested: Option<Ip>, draws: Draws)
    | CallConfirmProvisioningIp(request: nat, workloadId: nat)
    | CallQuarantineProvisioningIp(request: nat)
    | CallRelease(allocation: nat)
    | CallApproveRelease(address: nat)

  datatype Event = Event(now: int, call: Call)

  function Step(db: Db, e: Event): Outcome
    requires ForeignKeys(db)
  {
    match e.call
    case CallCreatePool(p, clusters) => CreatePool(db, p, clusters)
    case CallUpdatePool(pid, u, clusters) => UpdatePool(db, pid, u, clusters)
    case CallDeletePool(pid, version, n) => DeletePool(db, pid, version, n)
    case CallReserveAddress(pid, ip) => ReserveAddress(db, pid, ip)
    case CallAllocate(pid, w, ip, draws) => Allocate(db, pid, w, ip, draws)
    case CallReserveForProvisioning(pid, rq, ip, draws) => ReserveForProvisioning(db, pid, rq, ip, draws)
    case CallConfirmProvisioningIp(rq, w) => ConfirmProvisioningIp(db, rq, w)
    case CallQuarantineProvisioningIp(rq) => QuarantineProvisioningIp(db, rq, e.now)
    case CallRelease(id) => Release(db, id, e.now)
    case CallApproveRelease(row) => ApproveRelease(db, row, e.now)
  }
}
