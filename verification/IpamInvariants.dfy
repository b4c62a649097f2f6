/** What every committed state of the IP address manager's tables satisfies, and the
    proof that each of its operations keeps it. */
module IpamInvariants {
  import opened Wrappers
  import opened Networks
  import opened FirstFree
  import opened IpamModel

  // ----- the invariant ----------------------------------------------------------

  ghost predicate PoolOk(pool: Pool) {
    && ValidNetwork(pool.net)
    && GatewayFits(pool.net, pool.gateway)
    && (forall i :: 0 <= i < |pool.exclusions| ==> ExclusionFits(pool.net, pool.exclusions[i]))
    && pool.nextOffset < Size(pool.net)
  }

  ghost predicate PoolsOk(pools: seq<Pool>) {
    forall p :: 0 <= p < |pools| ==> PoolOk(pools[p])
  }

  ghost predicate InCommonScope(a: Pool, b: Pool) {
    a.active && b.active && SameScope(a.cluster, b.cluster)
  }

  /** Active pools that serve a common cluster share no block. */
  ghost predicate PoolsDisjoint(pools: seq<Pool>) {
    forall p, q :: 0 <= p < |pools| && 0 <= q < |pools| && p != q && InCommonScope(pools[p], pools[q]) ==>
      !Overlaps(pools[p].net, pools[q].net)
  }

  /** An address that may be handed out: inside the block, not special, not excluded. */
  ghost predicate Usable(pool: Pool, ip: Ip) {
    Contains(pool.net, ip) && !Special(pool, ip) && !Excluded(pool, ip)
  }

  ghost predicate RowFits(pool: Pool, row: AddressRow) {
    && Contains(pool.net, row.ip)
    && (row.state != Disabled ==> Usable(pool, row.ip))
    && (row.state == State.Quarantined <==> row.quarantinedUntil.Some?)
    && (!pool.active ==> row.state == Available)
  }

  ghost predicate RowsOk(db: Db) {
    forall r :: 0 <= r < |db.addresses| ==>
      db.addresses[r].pool < |db.pools| && RowFits(db.pools[db.addresses[r].pool], db.addresses[r])
  }

  ghost predicate RowsUnique(rows: seq<AddressRow>) {
    forall r, s :: 0 <= r < |rows| && 0 <= s < |rows| && rows[r].pool == rows[s].pool && rows[r].ip == rows[s].ip ==>
      r == s
  }

  /** A pool whose cursor has moved has handed something out. */
  ghost predicate CursorsOk(db: Db) {
    forall p :: 0 <= p < |db.pools| && db.pools[p].nextOffset != 0 ==> HasRows(db, p)
  }

  function StateOf(s: Status): State {
    match s
    case Reserved => State.Reserved
    case Assigned => State.Assigned
    case Quarantined => State.Quarantined
    case Released => State.Available
  }

  ghost predicate Held(s: State) {
    s == State.Reserved || s == State.Assigned || s == State.Quarantined
  }

  ghost predicate Active(db: Db, i: int) {
    0 <= i < |db.allocations| && db.allocations[i].status != Released
  }

  /** An active allocation points at a row in the state of the same name. */
  ghost predicate AllocationsAgree(db: Db)
    requires ForeignKeys(db)
  {
    forall i :: Active(db, i) ==> db.addresses[db.allocations[i].address].state == StateOf(db.allocations[i].status)
  }

  ghost predicate OneHolder(db: Db) {
    forall i, j :: Active(db, i) && Active(db, j) && db.allocations[i].address == db.allocations[j].address ==> i == j
  }

  ghost predicate SameRequest(a: Allocation, b: Allocation) {
    a.request.Some? && a.request == b.request
  }

  ghost predicate OnePerRequest(db: Db) {
    forall i, j :: Active(db, i) && Active(db, j) && SameRequest(db.allocations[i], db.allocations[j]) ==> i == j
  }

  ghost predicate HasHolder(db: Db, r: int) {
    exists i :: Active(db, i) && db.allocations[i].address == r
  }

  ghost predicate HeldRowsHaveHolders(db: Db) {
    forall r :: 0 <= r < |db.addresses| && Held(db.addresses[r].state) ==> HasHolder(db, r)
  }

  ghost predicate TablesOk(db: Db) {
    PoolsOk(db.pools) && PoolsDisjoint(db.pools) && RowsOk(db) && RowsUnique(db.addresses) && CursorsOk(db)
  }

  ghost predicate LedgerOk(db: Db) {
    ForeignKeys(db) && AllocationsAgree(db) && OneHolder(db) && OnePerRequest(db) && HeldRowsHaveHolders(db)
  }

  ghost predicate Inv(db: Db) {
    TablesOk(db) && LedgerOk(db)
  }

  // ----- rows -------------------------------------------------------------------

  lemma RowsStay(db: Db, db': Db)
    requires CursorsOk(db)
    requires |db.pools| == |db'.pools| && |db.addresses| <= |db'.addresses|
    requires forall p :: 0 <= p < |db.pools| && db'.pools[p].nextOffset != 0 ==>
      db.pools[p].nextOffset != 0 || HasRows(db', p)
    requires forall r :: 0 <= r < |db.addresses| ==> db'.addresses[r].pool == db.addresses[r].pool
    ensures CursorsOk(db')
  {
    forall p | 0 <= p < |db'.pools| && db'.pools[p].nextOffset != 0
      ensures HasRows(db', p)
    {
      if db.pools[p].nextOffset != 0 {
        var r :| 0 <= r < |db.addresses| && db.addresses[r].pool == p;
        assert db'.addresses[r].pool == p;
      }
    }
  }

  /** The tables with a new row and perhaps a moved cursor. */
  function WithRow(db: Db, pid: nat, ip: Ip, state: State, cursor: nat): Db
    requires pid < |db.pools|
  {
    Db(db.pools[pid := db.pools[pid].(nextOffset := cursor)],
       db.addresses + [AddressRow(pid, ip, state, None)], db.allocations)
  }

  lemma AddRowKeepsPools(db: Db, pid: nat, ip: Ip, state: State, cursor: nat)
    requires PoolsOk(db.pools) && PoolsDisjoint(db.pools) && Locked(db, pid)
    requires cursor < Size(db.pools[pid].net)
    ensures PoolsOk(WithRow(db, pid, ip, state, cursor).pools)
    ensures PoolsDisjoint(WithRow(db, pid, ip, state, cursor).pools)
  {
  }

  /** A new row, in a state no allocation refers to, and perhaps a moved cursor. */
  lemma AddRowKeepsInv(db: Db, pid: nat, ip: Ip, state: State, cursor: nat)
    requires Inv(db) && Locked(db, pid) && FindRow(db.addresses, pid, ip).None?
    requires !Held(state) && RowFits(db.pools[pid], AddressRow(pid, ip, state, None))
    requires cursor < Size(db.pools[pid].net)
    ensures Inv(WithRow(db, pid, ip, state, cursor))
  {
    var db' := WithRow(db, pid, ip, state, cursor);
    assert db'.addresses[|db.addresses|].pool == pid;
    AddRowKeepsPools(db, pid, ip, state, cursor);
    RowsStay(db, db');
    SameLedger(db, db');
    hide LedgerOk, PoolsOk, PoolsDisjoint;
  }

  /** Rows beyond the old ones do not disturb the ledger while no allocation holds them. */
  lemma SameLedger(db: Db, db': Db)
    requires LedgerOk(db) && db'.allocations == db.allocations && |db.addresses| <= |db'.addresses|
    requires forall r :: 0 <= r < |db.addresses| ==>
      db'.addresses[r].state == db.addresses[r].state || (!Held(db.addresses[r].state) && !Held(db'.addresses[r].state))
    requires forall r :: |db.addresses| <= r < |db'.addresses| ==> !Held(db'.addresses[r].state)
    ensures LedgerOk(db')
  {
    forall r | 0 <= r < |db'.addresses| && Held(db'.addresses[r].state)
      ensures HasHolder(db', r)
    {
      var i :| Active(db, i) && db.allocations[i].address == r;
      assert Active(db', i);
    }
    forall i | Active(db', i)
      ensures db'.addresses[db'.allocations[i].address].state == StateOf(db'.allocations[i].status)
    {
      assert Active(db, i);
    }
    forall i, j | Active(db', i) && Active(db', j)
      ensures Active(db, i) && Active(db, j)
    {
    }
  }

  lemma DisableRowKeepsInv(db: Db, row: nat)
    requires Inv(db) && row < |db.addresses| && db.addresses[row].state == Available
    requires Locked(db, db.addresses[row].pool)
    ensures Inv(db.(addresses := db.addresses[row := db.addresses[row].(state := Disabled)]))
  {
    var db' := db.(addresses := db.addresses[row := db.addresses[row].(state := Disabled)]);
    RowsStay(db, db');
    SameLedger(db, db');
  }

  // ----- candidates ---------------------------------------------------------------

  /** What a candidate search guarantees its caller: consistent tables, the old rows and
      allocations as they were, and a row of this pool that may be handed out. */
  ghost predicate GoodCandidate(db: Db, pid: nat, c: Candidate)
    requires c.Found?
  {
    && Inv(c.db)
    && c.row < |c.db.addresses|
    && c.db.addresses[c.row].pool == pid
    && c.db.allocations == db.allocations
    && |db.addresses| <= |c.db.addresses|
    && c.db.addresses[..|db.addresses|] == db.addresses
    && Locked(c.db, pid)
    && |c.db.pools| == |db.pools|
    && c.db.pools == db.pools[pid := db.pools[pid].(nextOffset := c.db.pools[pid].nextOffset)]
  }

  lemma ExcludedOffsetsCover(pool: Pool, k: int)
    requires PoolOk(pool) && 0 <= k < Size(pool.net)
    ensures Covered(ExcludedOffsets(pool), k) <==> Excluded(pool, AddressAt(pool.net, k))
  {
    var blocked := ExcludedOffsets(pool);
    var ip := AddressAt(pool.net, k);
    forall i | 0 <= i < |pool.exclusions|
      ensures Covers(blocked[i], k) <==> pool.exclusions[i].start.value <= ip.value <= pool.exclusions[i].end.value
    {
      ContainsIsInterval(pool.net, pool.exclusions[i].start);
      ContainsIsInterval(pool.net, pool.exclusions[i].end);
    }
    if Excluded(pool, ip) {
      var i :| 0 <= i < |pool.exclusions| && pool.exclusions[i].start.value <= ip.value <= pool.exclusions[i].end.value;
      assert Covers(blocked[i], k);
    }
  }

  lemma CoveredConcat(a: seq<Interval>, b: seq<Interval>, k: int)
    ensures Covered(a + b, k) <==> Covered(a, k) || Covered(b, k)
  {
    var c := a + b;
    if Covered(a, k) {
      var i :| 0 <= i < |a| && Covers(a[i], k);
      assert Covers(c[i], k);
    }
    if Covered(b, k) {
      var i :| 0 <= i < |b| && Covers(b[i], k);
      assert Covers(c[|a| + i], k);
    }
    if Covered(c, k) {
      var i :| 0 <= i < |c| && Covers(c[i], k);
      if i < |a| {
        assert Covers(a[i], k);
      } else {
        assert Covers(b[i - |a|], k);
      }
    }
  }

  lemma CoveredSingle(x: int, k: int)
    ensures Covered([Interval(x, x)], k) <==> k == x
  {
    assert Covers([Interval(x, x)][0], k) <==> k == x;
  }

  /** The single offsets in the list are those of the special addresses. */
  lemma SpecialMeans(pool: Pool, k: int)
    requires PoolOk(pool) && 0 <= k < Size(pool.net)
    ensures Special(pool, AddressAt(pool.net, k)) <==>
      || k == 0
      || (pool.net.family == V4 && k == Size(pool.net) - 1)
      || (pool.gateway.Some? && k == pool.gateway.value.value - pool.net.base)
  {
    if pool.gateway.Some? {
      ContainsIsInterval(pool.net, pool.gateway.value);
    }
  }

  /** What covers an offset is one of the five parts of the list. */
  lemma BlockedParts(db: Db, pid: nat, k: int)
    requires pid < |db.pools|
    ensures var pool := db.pools[pid];
      Covered(Blocked(db, pid), k) <==>
        || Covered(ExcludedOffsets(pool), k)
        || Covered(Materialized(db.addresses, pid, pool.net.base), k)
        || k == 0
        || (pool.net.family == V4 && k == Size(pool.net) - 1)
        || (pool.gateway.Some? && k == pool.gateway.value.value - pool.net.base)
  {
    var pool := db.pools[pid];
    var size, base := Size(pool.net), pool.net.base;
    hide Covered, Size, Materialized, ExcludedOffsets;
    var a, m, z := ExcludedOffsets(pool), Materialized(db.addresses, pid, base), [Interval(0, 0)];
    var l := if pool.net.family == V4 then [Interval(size - 1, size - 1)] else [];
    var g := if pool.gateway.Some? then
               [Interval(pool.gateway.value.value - base, pool.gateway.value.value - base)] else [];
    assert Blocked(db, pid) == (((a + m) + z) + l) + g;
    CoveredConcat(a, m, k);
    CoveredConcat(a + m, z, k);
    CoveredConcat((a + m) + z, l, k);
    CoveredConcat(((a + m) + z) + l, g, k);
    CoveredNone(k);
    CoveredSingle(0, k);
    CoveredSingle(size - 1, k);
    if pool.gateway.Some? {
      CoveredSingle(pool.gateway.value.value - base, k);
    }
  }

  lemma CoveredNone(k: int)
    ensures !Covered([], k)
  {
  }

  /** The blocked list says exactly which offsets have a row or may not be handed out. */
  lemma BlockedMeans(db: Db, pid: nat, k: int)
    requires TablesOk(db) && pid < |db.pools| && 0 <= k < Size(db.pools[pid].net)
    ensures Covered(Blocked(db, pid), k)
            <==> (FindRow(db.addresses, pid, AddressAt(db.pools[pid].net, k)).Some?
                  || !Usable(db.pools[pid], AddressAt(db.pools[pid].net, k)))
  {
    var pool := db.pools[pid];
    assert PoolOk(pool);
    ContainsIsInterval(pool.net, AddressAt(pool.net, k));
    BlockedParts(db, pid, k);
    MaterializedMeans(db, pid, k);
    ExcludedOffsetsCover(pool, k);
    SpecialMeans(pool, k);
    hide TablesOk, PoolOk, Contains, Special, Excluded, Covered, FindRow, Size, Blocked;
  }

  lemma MaterializedMeans(db: Db, pid: nat, k: int)
    requires TablesOk(db) && pid < |db.pools| && 0 <= k < Size(db.pools[pid].net)
    ensures Covered(Materialized(db.addresses, pid, db.pools[pid].net.base), k)
            <==> FindRow(db.addresses, pid, AddressAt(db.pools[pid].net, k)).Some?
  {
    var net := db.pools[pid].net;
    forall i | 0 <= i < |db.addresses| && db.addresses[i].pool == pid
      ensures db.addresses[i].ip.value - net.base == k <==> db.addresses[i].ip == AddressAt(net, k)
    {
      ContainsIsInterval(net, db.addresses[i].ip);
    }
  }

  /** An offset the search chooses lies in the pool and is free for a new row. */
  lemma ChosenOffsetIsFree(db: Db, pid: nat, draws: Draws)
    requires TablesOk(db) && pid < |db.pools|
    ensures var r := ChooseOffset(db, pid, draws);
      r.Some? ==> r.value < Size(db.pools[pid].net) && !Covered(Blocked(db, pid), r.value)
  {
    var pool := db.pools[pid];
    CyclicScanIsFirstFit(Size(pool.net), pool.nextOffset, Blocked(db, pid));
  }

  lemma FreshCandidateIsGood(db: Db, pid: nat, offset: nat)
    requires Inv(db) && Locked(db, pid)
    requires offset < Size(db.pools[pid].net) && !Covered(Blocked(db, pid), offset)
    ensures GoodCandidate(
      db, pid, Found(Materialize(MoveCursor(db, pid, offset), pid, AddressAt(db.pools[pid].net, offset)),
                                         |db.addresses|))
  {
    var pool := db.pools[pid];
    BlockedMeans(db, pid, offset);
    AddRowKeepsInv(db, pid, AddressAt(pool.net, offset), Available, (offset + 1) % Size(pool.net));
  }

  lemma AutomaticCandidateIsGood(db: Db, pid: nat, draws: Draws)
    requires Inv(db) && Locked(db, pid)
    ensures var c := AutomaticCandidate(db, pid, draws);
      c.Found? ==> GoodCandidate(db, pid, c) && c.db.addresses[c.row].state == Available
  {
    var pool := db.pools[pid];
    var c := AutomaticCandidate(db, pid, draws);
    if FirstAvailable(db.addresses, pid).Some? {
      assert db.pools[pid := pool.(nextOffset := pool.nextOffset)] == db.pools;
    } else if c.Found? {
      ChosenOffsetIsFree(db, pid, draws);
      FreshCandidateIsGood(db, pid, ChooseOffset(db, pid, draws).value);
    }
  }

  lemma ManualCandidateIsGood(db: Db, pid: nat, ip: Ip)
    requires Inv(db) && Locked(db, pid)
    ensures var c := ManualCandidate(db, pid, ip); c.Found? ==> GoodCandidate(db, pid, c)
  {
    var pool := db.pools[pid];
    assert db.pools[pid := pool.(nextOffset := pool.nextOffset)] == db.pools;
    var c := ManualCandidate(db, pid, ip);
    if c.Found? && FindRow(db.addresses, pid, ip).None? {
      AddRowKeepsInv(db, pid, ip, Available, pool.nextOffset);
    }
  }

  lemma CandidateIsGood(db: Db, pid: nat, requested: Option<Ip>, draws: Draws)
    requires Inv(db) && Locked(db, pid)
    ensures var c := PickCandidate(db, pid, requested, draws); c.Found? ==> GoodCandidate(db, pid, c)
  {
    if requested.Some? {
      ManualCandidateIsGood(db, pid, requested.value);
    } else {
      AutomaticCandidateIsGood(db, pid, draws);
    }
  }

  // ----- taking and moving ----------------------------------------------------------

  /** An available row has no holder, so the index on active addresses admits the insert. */
  lemma AvailableHasNoHolder(db: Db, row: nat)
    requires LedgerOk(db) && row < |db.addresses| && !Held(db.addresses[row].state)
    ensures !HasHolder(db, row)
  {
  }

  lemma TakeKeepsInv(db: Db, row: nat, a: Allocation)
    requires Inv(db) && row < |db.addresses| && db.addresses[row].state == Available
    requires Locked(db, db.addresses[row].pool)
    requires a.address == row && (a.status == Status.Reserved || a.status == Status.Assigned)
    requires !InsertClash(db.allocations, row, a.request)
    ensures Inv(Take(db, row, StateOf(a.status), a))
  {
    var db' := Take(db, row, StateOf(a.status), a);
    var n := |db.allocations|;
    RowsStay(db, db');
    assert forall i :: 0 <= i < n ==> db'.allocations[i] == db.allocations[i];
    assert Active(db', n) && db'.allocations[n] == a;
    forall i | Active(db', i) && i != n
      ensures Active(db, i) && db'.allocations[i].address != row
      ensures a.request.Some? ==> db'.allocations[i].request != a.request
    {
      assert Active(db, i);
    }
    forall r | 0 <= r < |db'.addresses| && Held(db'.addresses[r].state)
      ensures HasHolder(db', r)
    {
      if r != row {
        var i :| Active(db, i) && db.allocations[i].address == r;
        assert Active(db', i);
      }
    }
  }

  lemma MoveKeepsLedger(db: Db, id: nat, a: Allocation, state: State, until: Option<int>)
    requires LedgerOk(db) && Active(db, id)
    requires a.address == db.allocations[id].address && a.request == db.allocations[id].request
    requires state == StateOf(a.status)
    ensures LedgerOk(Move(db, id, a, state, until))
  {
    var db' := Move(db, id, a, state, until);
    var row := a.address;
    forall i | Active(db', i)
      ensures Active(db, i) && (i != id ==> db.allocations[i].address != row)
    {
      assert Active(db, i);
    }
    forall r | 0 <= r < |db'.addresses| && Held(db'.addresses[r].state)
      ensures HasHolder(db', r)
    {
      if r == row {
        assert Active(db', id);
      } else {
        var i :| Active(db, i) && db.allocations[i].address == r;
        assert Active(db', i);
      }
    }
  }

  /** Moving an active allocation and its row to one status keeps the tables in step. */
  lemma MoveKeepsInv(db: Db, id: nat, a: Allocation, state: State, until: Option<int>)
    requires Inv(db) && Active(db, id)
    requires a.address == db.allocations[id].address && a.request == db.allocations[id].request
    requires state == StateOf(a.status) && (until.Some? <==> state == State.Quarantined)
    ensures Inv(Move(db, id, a, state, until))
  {
    MoveKeepsLedger(db, id, a, state, until);
    assert Held(db.addresses[a.address].state);
    RowsStay(db, Move(db, id, a, state, until));
    hide LedgerOk;
  }

  // ----- pools ------------------------------------------------------------------------

  lemma CreatePoolKeepsInv(db: Db, p: PoolCreate, clusters: set<nat>)
    requires Inv(db)
    ensures Inv(CreatePool(db, p, clusters).db)
  {
    var db' := CreatePool(db, p, clusters).db;
    if db' != db {
      var n := |db.pools|;
      var pool := db'.pools[n];
      forall q | 0 <= q < n && db.pools[q].active && SameScope(db.pools[q].cluster, pool.cluster)
        ensures !Overlaps(db.pools[q].net, pool.net) && !Overlaps(pool.net, db.pools[q].net)
      {
        OverlapIsSymmetric(pool.net, db.pools[q].net);
        assert !Clashes(db.pools[q], pool.net, pool.cluster);
      }
      forall q | 0 <= q < |db'.pools| && db'.pools[q].nextOffset != 0
        ensures HasRows(db', q)
      {
        assert HasRows(db, q);
      }
    }
  }

  lemma UpdatePoolKeepsInv(db: Db, pid: nat, u: PoolUpdate, clusters: set<nat>)
    requires Inv(db)
    ensures Inv(UpdatePool(db, pid, u, clusters).db)
  {
    var db' := UpdatePool(db, pid, u, clusters).db;
    if db' != db {
      var old_, pool := db.pools[pid], db'.pools[pid];
      forall q | 0 <= q < |db.pools| && q != pid && db.pools[q].active && SameScope(db.pools[q].cluster, pool.cluster)
        ensures !Overlaps(db.pools[q].net, pool.net) && !Overlaps(pool.net, db.pools[q].net)
      {
        OverlapIsSymmetric(pool.net, db.pools[q].net);
        assert !Clashes(db.pools[q], pool.net, pool.cluster);
      }
      assert PoolOk(pool) by {
        assert PoolOk(old_);
        if pool.net != old_.net {
          assert !HasRows(db, pid);
        }
      }
      RowsStay(db, db');
      forall r | 0 <= r < |db.addresses|
        ensures RowFits(db'.pools[db.addresses[r].pool], db.addresses[r])
      {
        if db.addresses[r].pool == pid {
          assert HasRows(db, pid);
        }
      }
      SameLedger(db, db');
    }
  }

  lemma DeletePoolKeepsInv(db: Db, pid: nat, version: nat, activeRequests: nat)
    requires Inv(db)
    ensures Inv(DeletePool(db, pid, version, activeRequests).db)
  {
    var db' := DeletePool(db, pid, version, activeRequests).db;
    if db' != db {
      RowsStay(db, db');
      SameLedger(db, db');
    }
  }

  // ----- addresses and allocations ------------------------------------------------------

  lemma ReserveAddressKeepsInv(db: Db, pid: nat, ip: Ip)
    requires Inv(db)
    ensures Inv(ReserveAddress(db, pid, ip).db)
  {
    var db' := ReserveAddress(db, pid, ip).db;
    if db' != db {
      var row := FindRow(db.addresses, pid, ip);
      if row.None? {
        AddRowKeepsInv(db, pid, ip, Disabled, db.pools[pid].nextOffset);
        assert db.pools[pid := db.pools[pid].(nextOffset := db.pools[pid].nextOffset)] == db.pools;
      } else {
        DisableRowKeepsInv(db, row.value);
      }
    }
  }

  lemma AllocateKeepsInv(db: Db, pid: nat, workload: Option<Workload>, requested: Option<Ip>, draws: Draws)
    requires Inv(db)
    ensures Inv(Allocate(db, pid, workload, requested, draws).db)
  {
    var db' := Allocate(db, pid, workload, requested, draws).db;
    if db' != db {
      var c := PickCandidate(db, pid, requested, draws);
      CandidateIsGood(db, pid, requested, draws);
      assert c.db.addresses[c.row].quarantinedUntil == None;
      assert c.db.addresses[c.row := c.db.addresses[c.row].(quarantinedUntil := None)] == c.db.addresses;
      TakeKeepsInv(c.db, c.row, Allocation(c.row, Some(workload.value.id), None, Status.Assigned));
    }
  }

  lemma ReserveForProvisioningKeepsInv(db: Db, pid: nat, request: nat, requested: Option<Ip>, draws: Draws)
    requires Inv(db)
    ensures Inv(ReserveForProvisioning(db, pid, request, requested, draws).db)
  {
    var db' := ReserveForProvisioning(db, pid, request, requested, draws).db;
    if db' != db {
      var c := PickCandidate(db, pid, requested, draws);
      CandidateIsGood(db, pid, requested, draws);
      TakeKeepsInv(c.db, c.row, Allocation(c.row, None, Some(request), Status.Reserved));
    }
  }

  lemma QuarantineKeepsInv(db: Db, id: nat, now: int)
    requires Inv(db) && Active(db, id)
    ensures Inv(Quarantine(db, id, now))
  {
    var a := db.allocations[id];
    MoveKeepsInv(db, id, a.(status := Status.Quarantined), State.Quarantined, Some(now + QuarantineOf(db, a.address)));
  }

  lemma ConfirmKeepsInv(db: Db, request: nat, workload: nat)
    requires Inv(db)
    ensures Inv(ConfirmProvisioningIp(db, request, workload).db)
  {
    var id := FindForRequest(db.allocations, request, {Status.Reserved});
    if id.Some? {
      var a := db.allocations[id.value];
      assert Active(db, id.value);
      MoveKeepsInv(db, id.value, a.(workload := Some(workload), status := Status.Assigned), State.Assigned,
                   db.addresses[a.address].quarantinedUntil);
    }
  }

  lemma ApproveReleaseKeepsInv(db: Db, row: nat, now: int)
    requires Inv(db)
    ensures Inv(ApproveRelease(db, row, now).db)
  {
    var id := FindQuarantined(db.allocations, row);
    if row < |db.addresses| && id.Some? {
      assert Active(db, id.value);
      MoveKeepsInv(db, id.value, db.allocations[id.value].(status := Released), Available, None);
    }
  }

  lemma QuarantineProvisioningKeepsInv(db: Db, request: nat, now: int)
    requires Inv(db)
    ensures Inv(QuarantineProvisioningIp(db, request, now).db)
  {
    var id := FindForRequest(db.allocations, request, {Status.Reserved});
    if id.Some? {
      QuarantineKeepsInv(db, id.value, now);
    }
  }

  lemma ReleaseKeepsInv(db: Db, id: nat, now: int)
    requires Inv(db)
    ensures Inv(Release(db, id, now).db)
  {
    if id < |db.allocations| && db.allocations[id].status !in {Status.Released, Status.Quarantined} {
      QuarantineKeepsInv(db, id, now);
    }
  }

  lemma PoolCallKeepsInv(db: Db, e: Event)
    requires Inv(db) && (e.call.CallCreatePool? || e.call.CallUpdatePool? || e.call.CallDeletePool?)
    ensures Inv(Step(db, e).db)
  {
    match e.call
    case CallCreatePool(p, clusters) => CreatePoolKeepsInv(db, p, clusters);
    case CallUpdatePool(pid, u, clusters) => UpdatePoolKeepsInv(db, pid, u, clusters);
    case CallDeletePool(pid, version, n) => DeletePoolKeepsInv(db, pid, version, n);
  }

  ghost predicate TakingCall(c: Call) {
    c.CallReserveAddress? || c.CallAllocate? || c.CallReserveForProvisioning?
  }

  lemma TakingCallKeepsInv(db: Db, e: Event)
    requires Inv(db) && TakingCall(e.call)
    ensures Inv(Step(db, e).db)
  {
    match e.call
    case CallReserveAddress(pid, ip) => ReserveAddressKeepsInv(db, pid, ip);
    case CallAllocate(pid, w, ip, draws) => AllocateKeepsInv(db, pid, w, ip, draws);
    case CallReserveForProvisioning(pid, rq, ip, draws) => ReserveForProvisioningKeepsInv(db, pid, rq, ip, draws);
  }

  lemma MovingCallKeepsInv(db: Db, e: Event)
    requires Inv(db) && !TakingCall(e.call)
    requires !(e.call.CallCreatePool? || e.call.CallUpdatePool? || e.call.CallDeletePool?)
    ensures Inv(Step(db, e).db)
  {
    match e.call
    case CallConfirmProvisioningIp(rq, w) => ConfirmKeepsInv(db, rq, w);
    case CallQuarantineProvisioningIp(rq) => QuarantineProvisioningKeepsInv(db, rq, e.now);
    case CallRelease(id) => ReleaseKeepsInv(db, id, e.now);
    case CallApproveRelease(row) => ApproveReleaseKeepsInv(db, row, e.now);
  }

  /** Every call, successful or not, keeps the invariant. */
  lemma StepKeepsInv(db: Db, e: Event)
    requires Inv(db)
    ensures Inv(Step(db, e).db)
  {
    if TakingCall(e.call) {
      TakingCallKeepsInv(db, e);
    } else if e.call.CallCreatePool? || e.call.CallUpdatePool? || e.call.CallDeletePool? {
      PoolCallKeepsInv(db, e);
    } else {
      MovingCallKeepsInv(db, e);
    }
  }
}
