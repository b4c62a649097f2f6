/** What the IP address manager promises over whole runs. */
module IpamTheorems {
  import opened Wrappers
  import opened Networks
  import opened FirstFree
  import opened IpamModel
  import opened IpamInvariants

  // ----- runs -------------------------------------------------------------------

  const EmptyDb := Db([], [], [])

  /** The tables after a list of calls; calls that fail leave no trace. */
  ghost function Run(db: Db, es: seq<Event>): (r: Db)
    requires Inv(db)
    ensures Inv(r)
    decreases |es|
  {
    if es == [] then db
    else
      StepKeepsInv(db, es[0]);
      Run(Step(db, es[0]).db, es[1..])
  }

  /** The clock never runs backwards. */
  ghost predicate Clocked(es: seq<Event>) {
    forall i, j :: 0 <= i < j < |es| ==> es[i].now <= es[j].now
  }

  lemma EmptyDbOk()
    ensures Inv(EmptyDb)
  {
  }

  // ----- one holder per address and cluster ---------------------------------------

  ghost predicate Serves(pool: Pool, cluster: nat) {
    pool.cluster.None? || pool.cluster.value == cluster
  }

  function PoolOf(db: Db, i: nat): nat
    requires ForeignKeys(db) && i < |db.allocations|
  {
    db.addresses[db.allocations[i].address].pool
  }

  function IpOf(db: Db, i: nat): Ip
    requires ForeignKeys(db) && i < |db.allocations|
  {
    db.addresses[db.allocations[i].address].ip
  }

  lemma NoTwoHolders(db: Db, cluster: nat, i: nat, j: nat)
    requires Inv(db) && Active(db, i) && Active(db, j) && IpOf(db, i) == IpOf(db, j)
    requires Serves(db.pools[PoolOf(db, i)], cluster) && Serves(db.pools[PoolOf(db, j)], cluster)
    ensures i == j
  {
    var p, q := PoolOf(db, i), PoolOf(db, j);
    var ip := IpOf(db, i);
    assert PoolOk(db.pools[p]) && PoolOk(db.pools[q]);
    assert InCommonScope(db.pools[p], db.pools[q]);
    OverlapsIsIntersection(db.pools[p].net, db.pools[q].net);
    assert Contains(db.pools[p].net, ip) && Contains(db.pools[q].net, ip);
  }

  /** In every reachable state, across all pools that serve a cluster, deleted ones
      included, an IP value has at most one reserved, assigned or quarantined holder. */
  lemma UniqueHolderInEveryRun(es: seq<Event>, cluster: nat)
    ensures Inv(EmptyDb)
    ensures var db := Run(EmptyDb, es);
      forall i, j :: Active(db, i) && Active(db, j) && IpOf(db, i) == IpOf(db, j)
                     && Serves(db.pools[PoolOf(db, i)], cluster) && Serves(db.pools[PoolOf(db, j)], cluster)
                     ==> i == j
  {
    EmptyDbOk();
    var db := Run(EmptyDb, es);
    forall i, j | Active(db, i) && Active(db, j) && IpOf(db, i) == IpOf(db, j)
                  && Serves(db.pools[PoolOf(db, i)], cluster) && Serves(db.pools[PoolOf(db, j)], cluster)
      ensures i == j
    {
      NoTwoHolders(db, cluster, i, j);
    }
  }

  // ----- the two tables agree -------------------------------------------------------

  /** Exactly one active allocation points at the row, and its status is the row's state. */
  ghost predicate HeldByExactlyOne(db: Db, r: nat)
    requires ForeignKeys(db) && r < |db.addresses|
  {
    exists i :: Active(db, i) && db.allocations[i].address == r
      && StateOf(db.allocations[i].status) == db.addresses[r].state
      && forall j :: Active(db, j) && db.allocations[j].address == r ==> j == i
  }

  /** A row is reserved, assigned or quarantined exactly when one active allocation of that
      status holds it; an available or disabled row has none. */
  lemma TablesAgree(db: Db, r: nat)
    requires Inv(db) && r < |db.addresses|
    ensures Held(db.addresses[r].state) <==> HeldByExactlyOne(db, r)
    ensures !Held(db.addresses[r].state) <==> !HasHolder(db, r)
  {
    if Held(db.addresses[r].state) {
      var i :| Active(db, i) && db.allocations[i].address == r;
      assert StateOf(db.allocations[i].status) == db.addresses[r].state;
    } else {
      AvailableHasNoHolder(db, r);
    }
  }

  /** Nothing a run may hand out is the network address, the IPv4 broadcast address, the
      gateway of the moment or inside an excluded range. */
  lemma OnlyUsableAddressesInEveryRun(es: seq<Event>, r: nat)
    ensures Inv(EmptyDb)
    ensures var db := Run(EmptyDb, es);
      r < |db.addresses| && db.addresses[r].state != Disabled ==>
        db.addresses[r].pool < |db.pools| && Usable(db.pools[db.addresses[r].pool], db.addresses[r].ip)
  {
    EmptyDbOk();
    var db := Run(EmptyDb, es);
    assert RowsOk(db);
  }

  // ----- life cycles ------------------------------------------------------------------

  /** The moves one call may make with an address. */
  ghost predicate RowMoves(before: AddressRow, after: AddressRow, now: int, quarantineSeconds: nat) {
    && after.pool == before.pool && after.ip == before.ip
    && (|| after == before
        || (before.state == Available && after.state in {State.Reserved, State.Assigned, Disabled}
            && after.quarantinedUntil == None)
        || (before.state == State.Reserved && after.state == State.Assigned && after.quarantinedUntil == None)
        || (before.state in {State.Reserved, State.Assigned} && after.state == State.Quarantined
            && after.quarantinedUntil == Some(now + quarantineSeconds))
        || (before.state == State.Quarantined && before.quarantinedUntil.Some? && before.quarantinedUntil.value <= now
            && after.state == Available && after.quarantinedUntil == None))
  }

  /** The moves one call may make with an allocation. */
  ghost predicate AllocationMoves(before: Allocation, after: Allocation) {
    && after.address == before.address && after.request == before.request
    && (|| after == before
        || (before.status == Status.Reserved && after.status == Status.Assigned)
        || (before.status in {Status.Reserved, Status.Assigned} && after == before.(status := Status.Quarantined))
        || (before.status == Status.Quarantined && after == before.(status := Released)))
  }

  ghost predicate OldRowsMove(db: Db, db': Db, now: int) {
    && |db.addresses| <= |db'.addresses|
    && forall r :: 0 <= r < |db.addresses| ==> RowMoves(db.addresses[r], db'.addresses[r], now, QuarantineOf(db, r))
  }

  ghost predicate OldAllocationsMove(db: Db, db': Db) {
    && |db.allocations| <= |db'.allocations|
    && forall i :: 0 <= i < |db.allocations| ==> AllocationMoves(db.allocations[i], db'.allocations[i])
  }

  /** The candidate search leaves old rows alone; the row it finds may be taken. */
  lemma CandidateLeavesRows(db: Db, pid: nat, requested: Option<Ip>, draws: Draws)
    requires Inv(db) && Locked(db, pid)
    ensures var c := PickCandidate(db, pid, requested, draws);
      c.Found? ==>
        && c.db.allocations == db.allocations && |db.addresses| <= |c.db.addresses|
        && (forall r :: 0 <= r < |db.addresses| ==> c.db.addresses[r] == db.addresses[r])
        && (c.db.addresses[c.row].state == Available ==> c.db.addresses[c.row].quarantinedUntil == None)
  {
    CandidateIsGood(db, pid, requested, draws);
    var c := PickCandidate(db, pid, requested, draws);
    if c.Found? {
      forall r | 0 <= r < |db.addresses|
        ensures c.db.addresses[r] == db.addresses[r]
      {
        assert c.db.addresses[..|db.addresses|][r] == db.addresses[r];
      }
    }
  }

  lemma AllocateLifecycle(db: Db, pid: nat, w: Option<Workload>, ip: Option<Ip>, draws: Draws, now: int)
    requires Inv(db)
    ensures OldRowsMove(db, Allocate(db, pid, w, ip, draws).db, now)
    ensures OldAllocationsMove(db, Allocate(db, pid, w, ip, draws).db)
  {
    if Locked(db, pid) {
      CandidateLeavesRows(db, pid, ip, draws);
    }
    hide Inv, PickCandidate;
  }

  lemma ReserveForProvisioningLifecycle(db: Db, pid: nat, rq: nat, ip: Option<Ip>, draws: Draws, now: int)
    requires Inv(db)
    ensures OldRowsMove(db, ReserveForProvisioning(db, pid, rq, ip, draws).db, now)
    ensures OldAllocationsMove(db, ReserveForProvisioning(db, pid, rq, ip, draws).db)
  {
    if Locked(db, pid) {
      CandidateLeavesRows(db, pid, ip, draws);
    }
    hide Inv, PickCandidate;
  }

  lemma ReserveAddressLifecycle(db: Db, pid: nat, ip: Ip, now: int)
    requires Inv(db)
    ensures OldRowsMove(db, ReserveAddress(db, pid, ip).db, now)
    ensures OldAllocationsMove(db, ReserveAddress(db, pid, ip).db)
  {
  }

  lemma MoveLifecycle(db: Db, id: nat, a: Allocation, state: State, until: Option<int>, now: int)
    requires ForeignKeys(db) && id < |db.allocations| && AllocationMoves(db.allocations[id], a)
    requires var row := db.addresses[a.address];
      RowMoves(row, row.(state := state, quarantinedUntil := until), now, QuarantineOf(db, a.address))
    ensures OldRowsMove(db, Move(db, id, a, state, until), now) && OldAllocationsMove(db, Move(db, id, a, state, until))
  {
  }

  /** What the invariant says of the row an active allocation holds. */
  lemma RowOfActive(db: Db, id: nat)
    requires Inv(db) && Active(db, id)
    ensures var row := db.addresses[db.allocations[id].address];
      && row.state == StateOf(db.allocations[id].status)
      && (row.quarantinedUntil.Some? <==> row.state == State.Quarantined)
  {
  }

  lemma QuarantineLifecycle(db: Db, id: nat, now: int)
    requires Inv(db) && id < |db.allocations| && db.allocations[id].status in {Status.Reserved, Status.Assigned}
    ensures OldRowsMove(db, Quarantine(db, id, now), now) && OldAllocationsMove(db, Quarantine(db, id, now))
  {
    var a := db.allocations[id];
    RowOfActive(db, id);
    var until := now + QuarantineOf(db, a.address);
    MoveLifecycle(db, id, a.(status := Status.Quarantined), State.Quarantined, Some(until), now);
  }

  lemma PoolCallLifecycle(db: Db, e: Event)
    requires Inv(db) && (e.call.CallCreatePool? || e.call.CallUpdatePool? || e.call.CallDeletePool?)
    ensures OldRowsMove(db, Step(db, e).db, e.now) && OldAllocationsMove(db, Step(db, e).db)
  {
    var db' := Step(db, e).db;
    assert db'.addresses == db.addresses && db'.allocations == db.allocations;
  }

  lemma ConfirmLifecycle(db: Db, rq: nat, w: nat, now: int)
    requires Inv(db)
    ensures OldRowsMove(db, ConfirmProvisioningIp(db, rq, w).db, now)
    ensures OldAllocationsMove(db, ConfirmProvisioningIp(db, rq, w).db)
  {
    var id := FindForRequest(db.allocations, rq, {Status.Reserved});
    if id.Some? {
      var a := db.allocations[id.value];
      RowOfActive(db, id.value);
      MoveLifecycle(db, id.value, a.(workload := Some(w), status := Status.Assigned), State.Assigned,
                    db.addresses[a.address].quarantinedUntil, now);
    }
  }

  lemma QuarantineProvisioningLifecycle(db: Db, rq: nat, now: int)
    requires Inv(db)
    ensures OldRowsMove(db, QuarantineProvisioningIp(db, rq, now).db, now)
    ensures OldAllocationsMove(db, QuarantineProvisioningIp(db, rq, now).db)
  {
    var id := FindForRequest(db.allocations, rq, {Status.Reserved});
    if id.Some? {
      QuarantineLifecycle(db, id.value, now);
    }
  }

  lemma ReleaseLifecycle(db: Db, id: nat, now: int)
    requires Inv(db)
    ensures OldRowsMove(db, Release(db, id, now).db, now) && OldAllocationsMove(db, Release(db, id, now).db)
  {
    if id < |db.allocations| && db.allocations[id].status !in {Status.Released, Status.Quarantined} {
      QuarantineLifecycle(db, id, now);
    }
  }

  lemma ApproveReleaseLifecycle(db: Db, row: nat, now: int)
    requires Inv(db)
    ensures OldRowsMove(db, ApproveRelease(db, row, now).db, now)
    ensures OldAllocationsMove(db, ApproveRelease(db, row, now).db)
  {
    var id := FindQuarantined(db.allocations, row);
    if row < |db.addresses| && id.Some? && ApproveRelease(db, row, now).reply.Ok? {
      RowOfActive(db, id.value);
      MoveLifecycle(db, id.value, db.allocations[id.value].(status := Released), Available, None, now);
    }
  }

  /** Addresses and allocations move only along their life cycles, whatever is called. */
  lemma Lifecycle(db: Db, e: Event)
    requires Inv(db)
    ensures OldRowsMove(db, Step(db, e).db, e.now) && OldAllocationsMove(db, Step(db, e).db)
  {
    assert ForeignKeys(db);
    hide Inv, OldRowsMove, OldAllocationsMove;
    match e.call
    case CallReserveAddress(pid, ip) => ReserveAddressLifecycle(db, pid, ip, e.now);
    case CallAllocate(pid, w, ip, draws) => AllocateLifecycle(db, pid, w, ip, draws, e.now);
    case CallReserveForProvisioning(pid, rq, ip, draws) =>
      ReserveForProvisioningLifecycle(db, pid, rq, ip, draws, e.now);
    case CallConfirmProvisioningIp(rq, w) => ConfirmLifecycle(db, rq, w, e.now);
    case CallQuarantineProvisioningIp(rq) => QuarantineProvisioningLifecycle(db, rq, e.now);
    case CallRelease(id) => ReleaseLifecycle(db, id, e.now);
    case CallApproveRelease(row) => ApproveReleaseLifecycle(db, row, e.now);
    case _ => PoolCallLifecycle(db, e);
  }

  /** Disabled addresses stay disabled and keep their pool from ever being deleted;
      released allocations never revive. */
  lemma {:induction false} TerminalStatesStay(db: Db, es: seq<Event>)
    requires Inv(db)
    ensures |Run(db, es).addresses| >= |db.addresses| && |Run(db, es).allocations| >= |db.allocations|
    ensures forall r :: 0 <= r < |db.addresses| && db.addresses[r].state == Disabled ==>
      Run(db, es).addresses[r] == db.addresses[r]
      && db.addresses[r].pool < |Run(db, es).pools| && Run(db, es).pools[db.addresses[r].pool].active
    ensures forall i :: 0 <= i < |db.allocations| && db.allocations[i].status == Released ==>
      Run(db, es).allocations[i] == db.allocations[i]
    decreases |es|
  {
    if es == [] {
      assert RowsOk(db);
    } else {
      Lifecycle(db, es[0]);
      StepKeepsInv(db, es[0]);
      TerminalStatesStay(Step(db, es[0]).db, es[1..]);
    }
  }

  // ----- quarantine ---------------------------------------------------------------------

  /** A quarantined address is untouched until some call comes at or after its deadline. */
  lemma {:induction false} QuarantineHolds(db: Db, r: nat, es: seq<Event>)
    requires Inv(db) && r < |db.addresses| && db.addresses[r].state == State.Quarantined
    requires Clocked(es)
    ensures db.addresses[r].quarantinedUntil.Some?
    ensures |Run(db, es).addresses| > r
    ensures Run(db, es).addresses[r] == db.addresses[r]
            || (es != [] && es[|es| - 1].now >= db.addresses[r].quarantinedUntil.value)
    decreases |es|
  {
    assert RowsOk(db);
    if es != [] {
      var db' := Step(db, es[0]).db;
      Lifecycle(db, es[0]);
      StepKeepsInv(db, es[0]);
      assert ForeignKeys(db);
      hide Inv, Step;
      if db'.addresses[r] == db.addresses[r] {
        QuarantineHolds(db', r, es[1..]);
        assert |es| > 1 ==> es[1..][|es| - 2] == es[|es| - 1];
      } else {
        assert es[0].now >= db.addresses[r].quarantinedUntil.value;
        assert es[0].now <= es[|es| - 1].now;
        TerminalStatesStay(db', es[1..]);
      }
    }
  }

  /** If a call puts an address into quarantine at time t, then whenever a later call has
      reserved or assigned it again, that call came no earlier than t plus the quarantine
      period the pool had at t. */
  lemma QuarantineOverWholeRuns(db: Db, e: Event, r: nat, es: seq<Event>)
    requires Inv(db) && r < |db.addresses| && db.addresses[r].state != State.Quarantined
    requires Inv(Step(db, e).db) && r < |Step(db, e).db.addresses|
    requires Step(db, e).db.addresses[r].state == State.Quarantined
    requires Clocked(es)
    ensures r < |Run(Step(db, e).db, es).addresses| && db.addresses[r].pool < |db.pools|
    ensures Run(Step(db, e).db, es).addresses[r].state != State.Quarantined ==>
      es != [] && es[|es| - 1].now >= e.now + db.pools[db.addresses[r].pool].quarantineSeconds
  {
    assert RowsOk(db);
    Lifecycle(db, e);
    QuarantineHolds(Step(db, e).db, r, es);
  }

  /** Releasing again changes nothing: the deadline neither shrinks nor grows. */
  lemma ReleaseIsIdempotent(db: Db, id: nat, first: int, again: int)
    requires Inv(db) && id < |db.allocations|
    ensures ForeignKeys(Release(db, id, first).db)
    ensures Release(Release(db, id, first).db, id, again) == Outcome(Release(db, id, first).db, Ok(Row(id)))
  {
    ReleaseKeepsInv(db, id, first);
  }

  // ----- provisioning reservations --------------------------------------------------------

  /** Asking again for a provisioning address, with whatever arguments, returns the
      reservation already made and changes nothing. */
  lemma ReservationIsIdempotent(db: Db, pid: nat, request: nat, ip: Option<Ip>, draws: Draws,
                                pid2: nat, ip2: Option<Ip>, draws2: Draws)
    requires Inv(db) && ReserveForProvisioning(db, pid, request, ip, draws).reply.Ok?
    requires Locked(ReserveForProvisioning(db, pid, request, ip, draws).db, pid2)
    ensures var first := ReserveForProvisioning(db, pid, request, ip, draws);
      ReserveForProvisioning(first.db, pid2, request, ip2, draws2) == first
  {
    var first := ReserveForProvisioning(db, pid, request, ip, draws);
    ReserveForProvisioningKeepsInv(db, pid, request, ip, draws);
    var id := FindForRequest(first.db.allocations, request, {Status.Reserved, Status.Assigned});
    var mine := first.reply.value.id;
    if first.db == db {
      assert Active(db, mine) && Active(db, id.value);
    } else {
      CandidateIsGood(db, pid, ip, draws);
      assert first.db.allocations[mine].request == Some(request);
      assert Active(first.db, mine) && Active(first.db, id.value);
    }
  }

  ghost predicate QuarantinedRequest(db: Db, request: nat) {
    exists i :: 0 <= i < |db.allocations| && db.allocations[i].request == Some(request)
                && db.allocations[i].status == Status.Quarantined
  }

  /** Where idempotence ends. A request whose address went into quarantine cannot reserve
      again: the unique index on active provisioning requests rejects the insert. For an
      automatic reservation in a pool with room this is the only way to fail. */
  lemma AutomaticReservationFailsIffQuarantined(db: Db, pid: nat, request: nat, draws: Draws)
    requires Inv(db) && Locked(db, pid) && FreeOffsets(db, pid) != {}
    ensures ReserveForProvisioning(db, pid, request, None, draws).reply.Err? <==> QuarantinedRequest(db, request)
    ensures QuarantinedRequest(db, request) ==>
      ReserveForProvisioning(db, pid, request, None, draws) == Outcome(db, Err(IpAddressUnavailable))
  {
    var existing := FindForRequest(db.allocations, request, {Status.Reserved, Status.Assigned});
    if existing.Some? {
      assert Active(db, existing.value);
      forall i | 0 <= i < |db.allocations| && db.allocations[i].request == Some(request)
        ensures db.allocations[i].status != Status.Quarantined
      {
        assert SameRequest(db.allocations[i], db.allocations[existing.value]);
        assert Active(db, i) ==> i == existing.value;
      }
    } else {
      AutomaticRefusedIffNoRoom(db, pid, draws);
      AutomaticCandidateIsGood(db, pid, draws);
      var c := AutomaticCandidate(db, pid, draws);
      InsertClashIffRequestActive(c.db, c.row, Some(request));
      hide Inv, GoodCandidate, AutomaticCandidate, FreeOffsets, InsertClash;
      assert RequestActive(c.db, request) <==> QuarantinedRequest(db, request);
    }
  }

  ghost predicate RequestActive(db: Db, request: nat) {
    exists i :: Active(db, i) && db.allocations[i].request == Some(request)
  }

  /** For an available row, only a request that is still active makes the insert fail. */
  lemma InsertClashIffRequestActive(db: Db, row: nat, request: Option<nat>)
    requires Inv(db) && row < |db.addresses| && db.addresses[row].state == Available
    ensures InsertClash(db.allocations, row, request) <==> request.Some? && RequestActive(db, request.value)
  {
    AvailableHasNoHolder(db, row);
    if InsertClash(db.allocations, row, request) {
      var i :| 0 <= i < |db.allocations| && ActiveStatus(db.allocations[i].status)
               && (db.allocations[i].address == row || (request.Some? && db.allocations[i].request == request));
      assert Active(db, i);
    }
    if request.Some? && RequestActive(db, request.value) {
      var i :| Active(db, i) && db.allocations[i].request == request;
      assert ActiveStatus(db.allocations[i].status);
    }
  }

  // ----- pools ------------------------------------------------------------------------------

  /** A block moves only while the cursor stands at 0, so the cursor it leaves alone fits. */
  lemma CidrChangeFindsCursorAtZero(db: Db, pid: nat, u: PoolUpdate, clusters: set<nat>)
    requires Inv(db) && pid < |db.pools|
    ensures var db' := UpdatePool(db, pid, u, clusters).db;
      db'.pools[pid].net != db.pools[pid].net ==> db.pools[pid].nextOffset == 0 == db'.pools[pid].nextOffset
  {
  }

  /** An update that leaves block and cluster alone is never rejected for overlap. */
  lemma HarmlessUpdateNeverOverlaps(db: Db, pid: nat, u: PoolUpdate, clusters: set<nat>)
    requires Inv(db) && u.cidr.None? && u.cluster.None?
    ensures UpdatePool(db, pid, u, clusters).reply != Err(IpPoolOverlap)
  {
    if Locked(db, pid) {
      forall i | 0 <= i < |db.pools| && i != pid
        ensures !Clashes(db.pools[i], db.pools[pid].net, db.pools[pid].cluster)
      {
        assert InCommonScope(db.pools[pid], db.pools[i])
            <==> db.pools[i].active && SameScope(db.pools[i].cluster, db.pools[pid].cluster);
      }
    }
  }

  /** A new pool is refused for overlap exactly when it shares an address with an active
      pool of a common scope. */
  lemma OverlapRefusalIsExact(db: Db, p: PoolCreate, clusters: set<nat>)
    requires Inv(db) && ParseNetwork(p.cidr).Some?
    ensures ScopeClash(db.pools, None, ParseNetwork(p.cidr).value, p.cluster)
            <==> exists q, ip :: 0 <= q < |db.pools| && db.pools[q].active && SameScope(db.pools[q].cluster, p.cluster)
                   && Contains(db.pools[q].net, ip) && Contains(ParseNetwork(p.cidr).value, ip)
  {
    var net := ParseNetwork(p.cidr).value;
    forall q | 0 <= q < |db.pools|
      ensures Overlaps(net, db.pools[q].net) <==> exists ip :: Contains(db.pools[q].net, ip) && Contains(net, ip)
    {
      assert PoolOk(db.pools[q]);
      OverlapsIsIntersection(net, db.pools[q].net);
    }
    if q, ip :| 0 <= q < |db.pools| && db.pools[q].active && SameScope(db.pools[q].cluster, p.cluster)
                && Contains(db.pools[q].net, ip) && Contains(net, ip) {
      assert Clashes(db.pools[q], net, p.cluster);
    }
  }

  // ----- capacity -----------------------------------------------------------------------------

  /** Nothing stands in the way of handing this offset out. */
  ghost predicate OffsetFree(db: Db, pid: nat, k: int)
    requires pid < |db.pools| && 0 <= k
  {
    var ip := AddressAt(db.pools[pid].net, k);
    var row := FindRow(db.addresses, pid, ip);
    Usable(db.pools[pid], ip) && (row.None? || db.addresses[row.value].state == Available)
  }

  ghost function FreeOffsets(db: Db, pid: nat): set<int>
    requires pid < |db.pools|
  {
    set k | 0 <= k < Size(db.pools[pid].net) && OffsetFree(db, pid, k)
  }

  ghost function OffsetOf(db: Db, pid: nat, row: nat): int
    requires pid < |db.pools| && row < |db.addresses|
  {
    db.addresses[row].ip.value - db.pools[pid].net.base
  }

  lemma AvailableRowIsFreeOffset(db: Db, pid: nat, r: nat)
    requires Inv(db) && pid < |db.pools| && r < |db.addresses| && IsAvailable(db.addresses[r], pid)
    ensures OffsetOf(db, pid, r) in FreeOffsets(db, pid)
  {
    var net := db.pools[pid].net;
    ContainsIsInterval(net, db.addresses[r].ip);
    assert AddressAt(net, OffsetOf(db, pid, r)) == db.addresses[r].ip;
    var row := FindRow(db.addresses, pid, db.addresses[r].ip);
    assert row == Some(r);
  }

  /** Without an available row, an offset is free exactly when nothing blocks it. */
  lemma FreeIsUnblocked(db: Db, pid: nat, k: int)
    requires Inv(db) && pid < |db.pools| && FirstAvailable(db.addresses, pid).None? && 0 <= k < Size(db.pools[pid].net)
    ensures k in FreeOffsets(db, pid) <==> !Covered(Blocked(db, pid), k)
  {
    BlockedMeans(db, pid, k);
    var row := FindRow(db.addresses, pid, AddressAt(db.pools[pid].net, k));
    if row.Some? {
      assert !IsAvailable(db.addresses[row.value], pid);
    }
  }

  /** Exhaustion is reported exactly when no usable offset is unmaterialized or available,
      under either strategy and for every outcome of the probes. */
  lemma AutomaticRefusedIffNoRoom(db: Db, pid: nat, draws: Draws)
    requires Inv(db) && Locked(db, pid)
    ensures AutomaticCandidate(db, pid, draws).Refused? <==> FreeOffsets(db, pid) == {}
    ensures var c := AutomaticCandidate(db, pid, draws);
      c.Refused? ==> c.error == IpPoolExhausted
    ensures var c := AutomaticCandidate(db, pid, draws);
      c.Found? ==> c.row < |c.db.addresses| && pid < |c.db.pools| && OffsetOf(c.db, pid, c.row) in FreeOffsets(db, pid)
  {
    var net := db.pools[pid].net;
    var free := FirstAvailable(db.addresses, pid);
    if free.Some? {
      AvailableRowIsFreeOffset(db, pid, free.value);
    } else {
      var offset := ChooseOffset(db, pid, draws);
      if offset.Some? {
        ChosenOffsetIsFree(db, pid, draws);
        FreeIsUnblocked(db, pid, offset.value);
      } else {
        CyclicScanIsFirstFit(Size(net), db.pools[pid].nextOffset, Blocked(db, pid));
        forall k | k in FreeOffsets(db, pid)
          ensures false
        {
          FreeIsUnblocked(db, pid, k);
        }
      }
    }
  }

  ghost predicate Eligible(db: Db, pid: nat, w: Option<Workload>)
    requires pid < |db.pools|
  {
    w.Some? && (db.pools[pid].cluster.Some? ==> db.pools[pid].cluster.value == w.value.cluster)
  }

  /** The chosen row is the only one of its offset, so taking it frees no other. */
  lemma TakingUsesOneOffset(db: Db, pid: nat, c: Candidate, a: Allocation)
    requires Inv(db) && Locked(db, pid) && c.Found? && GoodCandidate(db, pid, c)
    requires c.db.addresses[c.row].state == Available && a.address == c.row && a.status != Released
    requires |c.db.addresses| <= |db.addresses| + 1
    requires |c.db.addresses| > |db.addresses| ==> c.row == |db.addresses|
    ensures FreeOffsets(Take(c.db, c.row, StateOf(a.status), a), pid)
            == FreeOffsets(db, pid) - {OffsetOf(c.db, pid, c.row)}
  {
    var db' := Take(c.db, c.row, StateOf(a.status), a);
    var net := db.pools[pid].net;
    var o := OffsetOf(c.db, pid, c.row);
    ContainsIsInterval(net, c.db.addresses[c.row].ip);
    assert db'.pools[pid].net == net;
    forall k | 0 <= k < Size(net)
      ensures OffsetFree(db', pid, k) <==> OffsetFree(db, pid, k) && k != o
    {
      var ip := AddressAt(net, k);
      OneOffset(db, pid, c, db', ip);
    }
  }

  lemma OneOffset(db: Db, pid: nat, c: Candidate, db': Db, ip: Ip)
    requires Inv(db) && Locked(db, pid) && c.Found? && GoodCandidate(db, pid, c)
    requires c.db.addresses[c.row].state == Available
    requires |c.db.addresses| <= |db.addresses| + 1
    requires |c.db.addresses| > |db.addresses| ==> c.row == |db.addresses|
    requires |db'.addresses| == |c.db.addresses|
    requires db'.addresses == c.db.addresses[c.row := c.db.addresses[c.row].(state := db'.addresses[c.row].state)]
    requires db'.addresses[c.row].state != Available
    ensures var row, row' := FindRow(db.addresses, pid, ip), FindRow(db'.addresses, pid, ip);
      if ip == c.db.addresses[c.row].ip then row' == Some(c.row)
      else row' == row && (row.Some? ==> db'.addresses[row.value] == db.addresses[row.value])
  {
    var row, row' := FindRow(db.addresses, pid, ip), FindRow(db'.addresses, pid, ip);
    assert RowsUnique(db'.addresses);
    forall r | 0 <= r < |db.addresses|
      ensures c.db.addresses[r] == db.addresses[r]
    {
      assert c.db.addresses[..|db.addresses|][r] == db.addresses[r];
    }
    if ip == c.db.addresses[c.row].ip {
      assert db'.addresses[c.row].pool == pid && db'.addresses[c.row].ip == ip;
    } else if row.Some? {
      assert db'.addresses[row.value] == db.addresses[row.value];
      assert row'.Some?;
    }
  }

  lemma AllocateIsTake(db: Db, pid: nat, w: Workload, draws: Draws, mid: Db, row: nat)
    requires Locked(db, pid) && Eligible(db, pid, Some(w)) && AutomaticCandidate(db, pid, draws) == Found(mid, row)
    requires mid.allocations == db.allocations && row < |mid.addresses|
    requires mid.addresses[row].state == Available && mid.addresses[row].quarantinedUntil == None
    requires !InsertClash(mid.allocations, row, None)
    ensures Allocate(db, pid, Some(w), None, draws)
            == Outcome(Take(mid, row, State.Assigned, Allocation(row, Some(w.id), None, Status.Assigned)),
                       Ok(Row(|db.allocations|)))
  {
    hide AutomaticCandidate, InsertClash;
    assert PickCandidate(db, pid, None, draws) == AutomaticCandidate(db, pid, draws);
    assert mid.addresses[row := mid.addresses[row].(quarantinedUntil := None)] == mid.addresses;
  }

  /** The call assigned a free address of the pool, and exactly that one is no longer free. */
  ghost predicate Assigns(db: Db, pid: nat, w: Workload, r: Outcome)
    requires pid < |db.pools|
  {
    var n := |db.allocations|;
    && r.reply == Ok(Row(n)) && Inv(r.db) && Locked(r.db, pid)
    && r.db.pools[pid].cluster == db.pools[pid].cluster
    && |r.db.allocations| == n + 1 && r.db.allocations[n].address < |r.db.addresses|
    && r.db.allocations[n].status == Status.Assigned && r.db.allocations[n].workload == Some(w.id)
    && AssignedOffset(r.db, pid, n) in FreeOffsets(db, pid)
    && FreeOffsets(r.db, pid) == FreeOffsets(db, pid) - {AssignedOffset(r.db, pid, n)}
  }

  /** The offset an allocation holds; -1 for an allocation that does not exist. */
  ghost function AssignedOffset(db: Db, pid: nat, i: nat): int {
    if pid < |db.pools| && i < |db.allocations| && db.allocations[i].address < |db.addresses|
    then OffsetOf(db, pid, db.allocations[i].address) else -1
  }

  /** What is known of the row an automatic allocation takes. */
  lemma AutomaticRowIsReady(db: Db, pid: nat, draws: Draws)
    requires Inv(db) && Locked(db, pid) && AutomaticCandidate(db, pid, draws).Found?
    ensures var c := AutomaticCandidate(db, pid, draws);
      && GoodCandidate(db, pid, c)
      && c.db.addresses[c.row].state == Available && c.db.addresses[c.row].quarantinedUntil == None
      && !InsertClash(c.db.allocations, c.row, None)
      && |c.db.addresses| <= |db.addresses| + 1 && (|c.db.addresses| > |db.addresses| ==> c.row == |db.addresses|)
  {
    AutomaticCandidateIsGood(db, pid, draws);
    var c := AutomaticCandidate(db, pid, draws);
    InsertClashIffRequestActive(c.db, c.row, None);
  }

  lemma AutomaticAllocationAssigns(db: Db, pid: nat, w: Workload, draws: Draws)
    requires Inv(db) && Locked(db, pid) && Eligible(db, pid, Some(w)) && AutomaticCandidate(db, pid, draws).Found?
    ensures Assigns(db, pid, w, Allocate(db, pid, Some(w), None, draws))
  {
    hide Inv, AutomaticCandidate, FreeOffsets, InsertClash, Allocate;
    AutomaticRefusedIffNoRoom(db, pid, draws);
    AutomaticRowIsReady(db, pid, draws);
    AllocateKeepsInv(db, pid, Some(w), None, draws);
    var c := AutomaticCandidate(db, pid, draws);
    var a := Allocation(c.row, Some(w.id), None, Status.Assigned);
    TakingUsesOneOffset(db, pid, c, a);
    AllocateIsTake(db, pid, w, draws, c.db, c.row);
  }

  /** One automatic allocation is refused as exhausted when nothing is free, and otherwise
      assigns a free address. */
  lemma AutomaticAllocation(db: Db, pid: nat, w: Workload, draws: Draws)
    requires Inv(db) && Locked(db, pid) && Eligible(db, pid, Some(w))
    ensures var r := Allocate(db, pid, Some(w), None, draws);
      if FreeOffsets(db, pid) == {} then r == Outcome(db, Err(IpPoolExhausted)) else Assigns(db, pid, w, r)
  {
    AutomaticRefusedIffNoRoom(db, pid, draws);
    assert PickCandidate(db, pid, None, draws) == AutomaticCandidate(db, pid, draws);
    hide Inv, AutomaticCandidate, PickCandidate, FreeOffsets, Assigns;
    if FreeOffsets(db, pid) != {} {
      AutomaticAllocationAssigns(db, pid, w, draws);
    }
  }

  /** The offsets a list of successive automatic allocations is granted. */
  ghost function Grants(db: Db, pid: nat, ws: seq<Workload>, draws: seq<Draws>): (r: seq<int>)
    requires |ws| == |draws|
    decreases |ws|
  {
    if ws == [] then []
    else
      var r := Allocate(db, pid, Some(ws[0]), None, draws[0]);
      if r.reply.Ok? then [AssignedOffset(r.db, pid, |db.allocations|)] + Grants(r.db, pid, ws[1..], draws[1..])
      else Grants(db, pid, ws[1..], draws[1..])
  }

  /** Capacity. Of any number of successive automatic allocations exactly as many succeed
      as there are free offsets; they get pairwise different ones, and enough of them get
      them all. This holds under both strategies and for every outcome of the probes. */
  lemma {:induction false} Capacity(db: Db, pid: nat, ws: seq<Workload>, draws: seq<Draws>)
    requires Inv(db) && Locked(db, pid) && |ws| == |draws|
    requires forall i :: 0 <= i < |ws| ==> Eligible(db, pid, Some(ws[i]))
    ensures var g := Grants(db, pid, ws, draws);
      && |g| == Min(|ws|, |FreeOffsets(db, pid)|)
      && (forall i :: 0 <= i < |g| ==> g[i] in FreeOffsets(db, pid))
      && (forall i, j :: 0 <= i < j < |g| ==> g[i] != g[j])
      && (|ws| >= |FreeOffsets(db, pid)| ==> forall k :: k in FreeOffsets(db, pid) ==> k in g)
    decreases |ws|
  {
    hide Inv, Allocate, FreeOffsets;
    if ws != [] {
      AutomaticAllocation(db, pid, ws[0], draws[0]);
      var r := Allocate(db, pid, Some(ws[0]), None, draws[0]);
      var free := FreeOffsets(db, pid);
      if r.reply.Ok? {
        var o := AssignedOffset(r.db, pid, |db.allocations|);
        Capacity(r.db, pid, ws[1..], draws[1..]);
        assert |free - {o}| == |free| - 1;
        var rest := Grants(r.db, pid, ws[1..], draws[1..]);
        assert Grants(db, pid, ws, draws) == [o] + rest;
        forall k | k in free && |ws| >= |free|
          ensures k in [o] + rest
        {
          assert k == o || k in free - {o};
        }
      } else {
        Capacity(db, pid, ws[1..], draws[1..]);
      }
    } else if |FreeOffsets(db, pid)| <= 0 {
      assert FreeOffsets(db, pid) == {};
    }
  }

  /** A pool just created has its usable offsets free, all of them and no other. */
  lemma FreshPoolIsAllFree(db: Db, p: PoolCreate, clusters: set<nat>)
    requires Inv(db) && CreatePool(db, p, clusters).reply.Ok?
    ensures var db' := CreatePool(db, p, clusters).db;
      var pid := |db.pools|;
      && Locked(db', pid)
      && FreeOffsets(db', pid)
         == set k | 0 <= k < Size(db'.pools[pid].net) && Usable(db'.pools[pid], AddressAt(db'.pools[pid].net, k))
  {
    var db' := CreatePool(db, p, clusters).db;
    var pid := |db.pools|;
    forall k | 0 <= k < Size(db'.pools[pid].net)
      ensures FindRow(db'.addresses, pid, AddressAt(db'.pools[pid].net, k)).None?
    {
      assert RowsOk(db);
    }
  }
}
