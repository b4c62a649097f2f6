/** Which address an automatic allocation takes: the answer of the two strategies, told by
    the offsets that are free and not by the search that finds it. */
module IpamChoice {
  import opened Wrappers
  import opened Networks
  import opened FirstFree
  import opened IpamModel
  import opened IpamInvariants
  import opened IpamTheorems
  import opened IpamEffects

  /** The lowest of the pool's available rows. */
  ghost predicate LowestAvailable(db: Db, pid: nat, row: nat) {
    && row < |db.addresses| && db.addresses[row].pool == pid && db.addresses[row].state == Available
    && forall i :: 0 <= i < |db.addresses| && db.addresses[i].pool == pid && db.addresses[i].state == Available ==>
         db.addresses[row].ip.value <= db.addresses[i].ip.value
  }

  ghost predicate HasAvailable(db: Db, pid: nat) {
    exists i :: 0 <= i < |db.addresses| && db.addresses[i].pool == pid && db.addresses[i].state == Available
  }

  /** No free offset comes before this one when the pool is walked round from its cursor. */
  ghost predicate NextInOrder(db: Db, pid: nat, o: int)
    requires pid < |db.pools|
  {
    var size, cursor := Size(db.pools[pid].net), db.pools[pid].nextOffset;
    forall k :: k in FreeOffsets(db, pid) ==> Distance(size, cursor, o) <= Distance(size, cursor, k)
  }

  ghost predicate Hits(db: Db, pid: nat, draw: nat)
    requires pid < |db.pools|
  {
    draw % Size(db.pools[pid].net) in FreeOffsets(db, pid)
  }

  /** The offset of the first draw that hits a free one. */
  ghost predicate FirstHit(db: Db, pid: nat, draws: Draws, o: int)
    requires pid < |db.pools|
  {
    exists i :: 0 <= i < |draws| && o == draws[i] % Size(db.pools[pid].net)
      && Hits(db, pid, draws[i]) && forall j :: 0 <= j < i ==> !Hits(db, pid, draws[j])
  }

  /** The offset the pool's strategy asks for: a sequential pool, and any pool of at most two
      addresses, goes on from the cursor; a random one takes the first draw that hits, and
      goes on from the cursor only when none does. */
  ghost predicate StrategyChooses(db: Db, pid: nat, draws: Draws, o: int)
    requires pid < |db.pools|
  {
    && o in FreeOffsets(db, pid)
    && if db.pools[pid].strategy == Random && Size(db.pools[pid].net) > 2
          && exists i :: 0 <= i < |draws| && Hits(db, pid, draws[i])
       then FirstHit(db, pid, draws, o)
       else NextInOrder(db, pid, o)
  }

  /** What an automatic candidate leaves behind: the lowest available row and untouched
      pools, or a new row at the strategy's offset and the cursor just past it. */
  ghost predicate ChosenRow(db: Db, pid: nat, draws: Draws, pools: seq<Pool>, rows: seq<AddressRow>, row: nat)
    requires pid < |db.pools|
  {
    if HasAvailable(db, pid) then LowestAvailable(db, pid, row) && pools == db.pools
    else
      && row == |db.addresses| < |rows|
      && rows[row].ip.family == db.pools[pid].net.family
      && (var o := rows[row].ip.value - db.pools[pid].net.base;
          && StrategyChooses(db, pid, draws, o)
          && pools == db.pools[pid := db.pools[pid].(nextOffset := (o + 1) % Size(db.pools[pid].net))])
  }

  lemma FreeIsNotCovered(db: Db, pid: nat)
    requires Inv(db) && pid < |db.pools| && !HasAvailable(db, pid)
    ensures FirstAvailable(db.addresses, pid).None?
    ensures forall k :: 0 <= k < Size(db.pools[pid].net) ==>
      (k in FreeOffsets(db, pid) <==> !Covered(Blocked(db, pid), k))
  {
    var free := FirstAvailable(db.addresses, pid);
    assert free.None?;
    forall k | 0 <= k < Size(db.pools[pid].net)
      ensures k in FreeOffsets(db, pid) <==> !Covered(Blocked(db, pid), k)
    {
      FreeIsUnblocked(db, pid, k);
    }
  }

  lemma {:induction false} FirstDrawIsFirst(draws: seq<nat>, size: nat, blocked: seq<Interval>)
    requires size >= 1
    ensures var r := FirstDraw(draws, size, blocked);
      r.Some? ==> exists i :: 0 <= i < |draws| && r.value == draws[i] % size && !Covered(blocked, draws[i] % size)
                    && forall j :: 0 <= j < i ==> Covered(blocked, draws[j] % size)
  {
    var r := FirstDraw(draws, size, blocked);
    if r.Some? && Covered(blocked, draws[0] % size) {
      FirstDrawIsFirst(draws[1..], size, blocked);
      var i :| 0 <= i < |draws[1..]| && r.value == draws[1..][i] % size && !Covered(blocked, draws[1..][i] % size)
               && forall j :: 0 <= j < i ==> Covered(blocked, draws[1..][j] % size);
      assert draws[i + 1] == draws[1..][i];
      forall j | 0 <= j < i + 1
        ensures Covered(blocked, draws[j] % size)
      {
        assert j > 0 ==> draws[j] == draws[1..][j - 1];
      }
    }
  }

  lemma ProbeIsFirstHit(db: Db, pid: nat, draws: Draws)
    requires Inv(db) && pid < |db.pools| && !HasAvailable(db, pid)
    ensures var probe := FirstDraw(draws, Size(db.pools[pid].net), Blocked(db, pid));
      && (probe.Some? <==> exists i :: 0 <= i < |draws| && Hits(db, pid, draws[i]))
      && (probe.Some? ==> FirstHit(db, pid, draws, probe.value))
  {
    var size, blocked := Size(db.pools[pid].net), Blocked(db, pid);
    FreeIsNotCovered(db, pid);
    FirstDrawIsFirst(draws, size, blocked);
    hide Inv, FreeOffsets, FirstDraw, Blocked, Covered, Size;
    forall i | 0 <= i < |draws|
      ensures Hits(db, pid, draws[i]) <==> !Covered(blocked, draws[i] % size)
    {
    }
  }

  lemma ScanIsNextInOrder(db: Db, pid: nat)
    requires Inv(db) && pid < |db.pools| && !HasAvailable(db, pid)
    ensures var r := CyclicScan(Size(db.pools[pid].net), db.pools[pid].nextOffset, Blocked(db, pid));
      r.Some? ==> NextInOrder(db, pid, r.value)
  {
    assert PoolOk(db.pools[pid]);
    FreeIsNotCovered(db, pid);
    CyclicScanIsFirstFit(Size(db.pools[pid].net), db.pools[pid].nextOffset, Blocked(db, pid));
  }

  lemma OffsetFollowsStrategy(db: Db, pid: nat, draws: Draws)
    requires Inv(db) && pid < |db.pools| && !HasAvailable(db, pid) && ChooseOffset(db, pid, draws).Some?
    ensures var o := ChooseOffset(db, pid, draws).value;
      o < Size(db.pools[pid].net) && StrategyChooses(db, pid, draws, o)
  {
    ChosenOffsetIsFree(db, pid, draws);
    FreeIsNotCovered(db, pid);
    ProbeIsFirstHit(db, pid, draws);
    ScanIsNextInOrder(db, pid);
    hide Inv, FirstHit, NextInOrder, FirstDraw, CyclicScan, FreeOffsets, Blocked, Hits, Size, Covered;
  }

  lemma CandidateIsChosen(db: Db, pid: nat, draws: Draws)
    requires Inv(db) && Locked(db, pid) && AutomaticCandidate(db, pid, draws).Found?
    ensures var c := AutomaticCandidate(db, pid, draws);
      ChosenRow(db, pid, draws, c.db.pools, c.db.addresses, c.row)
  {
    if HasAvailable(db, pid) {
      var free := FirstAvailable(db.addresses, pid);
      assert free.Some?;
    } else {
      FreeIsNotCovered(db, pid);
      OffsetFollowsStrategy(db, pid, draws);
      hide Inv, StrategyChooses, ChooseOffset, FirstAvailable, Size;
    }
  }

  /** The address an automatic allocation takes is the one its pool's strategy asks for, and
      the cursor moves just past a new one. */
  lemma AutomaticAllocationFollowsStrategy(db: Db, pid: nat, w: Workload, draws: Draws)
    requires Inv(db) && Allocate(db, pid, Some(w), None, draws).reply.Ok?
    ensures Locked(db, pid)
    ensures var db' := Allocate(db, pid, Some(w), None, draws).db;
      && |db'.allocations| == |db.allocations| + 1
      && ChosenRow(db, pid, draws, db'.pools, db'.addresses, db'.allocations[|db.allocations|].address)
  {
    CandidateIsChosen(db, pid, draws);
    hide Inv, AutomaticCandidate, StrategyChooses, LowestAvailable, HasAvailable;
  }

  /** So does the first automatic reservation for a provisioning request. */
  lemma AutomaticReservationFollowsStrategy(db: Db, pid: nat, request: nat, draws: Draws)
    requires Inv(db) && ReserveForProvisioning(db, pid, request, None, draws).reply.Ok?
    requires !HoldsReservation(db, request)
    ensures Locked(db, pid)
    ensures var db' := ReserveForProvisioning(db, pid, request, None, draws).db;
      && |db'.allocations| == |db.allocations| + 1
      && ChosenRow(db, pid, draws, db'.pools, db'.addresses, db'.allocations[|db.allocations|].address)
  {
    HoldsIffFound(db, request);
    CandidateIsChosen(db, pid, draws);
    hide Inv, AutomaticCandidate, StrategyChooses, LowestAvailable, HasAvailable;
  }
}
