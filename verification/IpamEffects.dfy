/** When the IP address manager's calls succeed, and what they then have changed. */
module IpamEffects {
  import opened Wrappers
  import opened Networks
  import opened FirstFree
  import opened IpamModel
  import opened IpamInvariants
  import opened IpamTheorems

  // ----- handing out ------------------------------------------------------------

  /** Exactly one address of the pool, usable, as requested if one was requested, and free
      until now, is held by one new allocation; all other rows stay as they were, and of the
      pools at most this one's cursor moves, and only for an automatic choice. */
  ghost predicate HandsOut(db: Db, db': Db, pid: nat, requested: Option<Ip>, a: Allocation)
    requires pid < |db.pools|
  {
    var row := a.address;
    && db'.allocations == db.allocations + [a]
    && row < |db'.addresses| && |db.addresses| <= |db'.addresses| <= |db.addresses| + 1
    && (|db.addresses| < |db'.addresses| ==> row == |db.addresses|)
    && (forall r :: 0 <= r < |db.addresses| && r != row ==> db'.addresses[r] == db.addresses[r])
    && (row < |db.addresses| ==> db.addresses[row].state == Available && db.addresses[row].ip == db'.addresses[row].ip)
    && db'.addresses[row] == AddressRow(pid, db'.addresses[row].ip, StateOf(a.status), None)
    && Usable(db.pools[pid], db'.addresses[row].ip)
    && (requested.Some? ==> db'.addresses[row].ip == requested.value && db'.pools == db.pools)
    && |db'.pools| == |db.pools|
    && db'.pools == db.pools[pid := db.pools[pid].(nextOffset := db'.pools[pid].nextOffset)]
  }

  lemma CandidateShape(db: Db, pid: nat, requested: Option<Ip>, draws: Draws)
    requires Inv(db) && Locked(db, pid)
    ensures var c := PickCandidate(db, pid, requested, draws);
      c.Found? ==>
        && |c.db.addresses| <= |db.addresses| + 1 && (|db.addresses| < |c.db.addresses| ==> c.row == |db.addresses|)
        && (requested.Some? ==> c.db.addresses[c.row].ip == requested.value)
        && c.db.addresses[c.row].pool == pid
        && (requested.Some? ==> c.db.pools == db.pools)
        && (c.db.addresses[c.row].state != Disabled ==> Usable(db.pools[pid], c.db.addresses[c.row].ip))
  {
    CandidateIsGood(db, pid, requested, draws);
    var c := PickCandidate(db, pid, requested, draws);
    if c.Found? {
      assert RowsOk(c.db);
      assert SameAddressing(db.pools[pid], c.db.pools[pid]);
    }
  }

  /** Pools that agree on what `Usable` looks at. */
  ghost predicate SameAddressing(a: Pool, b: Pool) {
    a.net == b.net && a.gateway == b.gateway && a.exclusions == b.exclusions
  }

  lemma TakenIsHandedOut(db: Db, pid: nat, requested: Option<Ip>, draws: Draws, a: Allocation)
    requires Inv(db) && Locked(db, pid) && PickCandidate(db, pid, requested, draws).Found?
    requires var c := PickCandidate(db, pid, requested, draws);
      c.db.addresses[c.row].state == Available && a.address == c.row && a.status != Released
    ensures var c := PickCandidate(db, pid, requested, draws);
      HandsOut(db, Take(c.db, c.row, StateOf(a.status), a), pid, requested, a)
  {
    CandidateLeavesRows(db, pid, requested, draws);
    CandidateShape(db, pid, requested, draws);
    CandidateIsGood(db, pid, requested, draws);
    hide Inv, PickCandidate, Usable;
  }

  /** A successful allocation hands out one address to the workload. */
  lemma AllocateHandsOut(db: Db, pid: nat, w: Option<Workload>, requested: Option<Ip>, draws: Draws)
    requires Inv(db) && Allocate(db, pid, w, requested, draws).reply.Ok?
    ensures Locked(db, pid) && w.Some? && Eligible(db, pid, w)
    ensures var r := Allocate(db, pid, w, requested, draws);
      var n := |db.allocations|;
      && r.reply == Ok(Row(n)) && n < |r.db.allocations|
      && HandsOut(db, r.db, pid, requested, r.db.allocations[n])
      && (var row := r.db.allocations[n].address;
          && r.db.allocations[n] == Allocation(row, Some(w.value.id), None, Status.Assigned)
          && r.db.addresses[row].state == State.Assigned)
  {
    var c := PickCandidate(db, pid, requested, draws);
    var a := Allocation(c.row, Some(w.value.id), None, Status.Assigned);
    CandidateLeavesRows(db, pid, requested, draws);
    TakenIsHandedOut(db, pid, requested, draws, a);
    assert c.db.addresses[c.row := c.db.addresses[c.row].(quarantinedUntil := None)] == c.db.addresses;
    hide Inv, PickCandidate, InsertClash;
    assert Allocate(db, pid, w, requested, draws).db == Take(c.db, c.row, State.Assigned, a);
  }

  /** A reservation that is not a repetition hands out one address to the request. */
  lemma ReservationHandsOut(db: Db, pid: nat, request: nat, requested: Option<Ip>, draws: Draws)
    requires Inv(db) && ReserveForProvisioning(db, pid, request, requested, draws).reply.Ok?
    requires FindForRequest(db.allocations, request, {Status.Reserved, Status.Assigned}).None?
    ensures Locked(db, pid)
    ensures var r := ReserveForProvisioning(db, pid, request, requested, draws);
      var n := |db.allocations|;
      && r.reply == Ok(Row(n)) && n < |r.db.allocations|
      && HandsOut(db, r.db, pid, requested, r.db.allocations[n])
      && (var row := r.db.allocations[n].address;
          && r.db.allocations[n] == Allocation(row, None, Some(request), Status.Reserved)
          && r.db.addresses[row].state == State.Reserved)
  {
    var c := PickCandidate(db, pid, requested, draws);
    var a := Allocation(c.row, None, Some(request), Status.Reserved);
    TakenIsHandedOut(db, pid, requested, draws, a);
    hide Inv, PickCandidate, InsertClash;
    assert ReserveForProvisioning(db, pid, request, requested, draws).db == Take(c.db, c.row, State.Reserved, a);
  }

  /** No row yet, or a row nobody holds. */
  ghost predicate Vacant(db: Db, pid: nat, ip: Ip) {
    var row := FindRow(db.addresses, pid, ip);
    row.None? || db.addresses[row.value].state == Available
  }

  /** A requested address is granted exactly when the pool serves the workload's cluster and
      the address is usable and vacant. */
  lemma ManualAllocationExact(db: Db, pid: nat, w: Option<Workload>, ip: Ip, draws: Draws)
    requires Inv(db)
    ensures Allocate(db, pid, w, Some(ip), draws).reply.Ok?
            <==> (Locked(db, pid) && Eligible(db, pid, w) && Usable(db.pools[pid], ip) && Vacant(db, pid, ip))
  {
    if Locked(db, pid) {
      var c := ManualCandidate(db, pid, ip);
      ManualCandidateIsGood(db, pid, ip);
      if c.Found? {
        if c.db.addresses[c.row].state == Available {
          InsertClashIffRequestActive(c.db, c.row, None);
        }
        hide Inv, InsertClash, GoodCandidate;
        assert Allocate(db, pid, w, Some(ip), draws).reply.Ok? <==>
          Eligible(db, pid, w) && c.db.addresses[c.row].state == Available;
      }
    }
  }

  /** The pool can hand something out: the requested address, or any at all. */
  ghost predicate HasRoom(db: Db, pid: nat, requested: Option<Ip>)
    requires pid < |db.pools|
  {
    match requested
    case Some(ip) => Usable(db.pools[pid], ip) && Vacant(db, pid, ip)
    case None => FreeOffsets(db, pid) != {}
  }

  /** Having room is offering an available row, and never needs a requested row created anew. */
  lemma RoomIsACandidate(db: Db, pid: nat, requested: Option<Ip>, draws: Draws)
    requires Inv(db) && Locked(db, pid)
    ensures var c := PickCandidate(db, pid, requested, draws);
      HasRoom(db, pid, requested) <==> c.Found? && c.db.addresses[c.row].state == Available
  {
    if requested.Some? {
      CandidateShape(db, pid, requested, draws);
    } else {
      AutomaticRefusedIffNoRoom(db, pid, draws);
      AutomaticCandidateIsGood(db, pid, draws);
    }
  }

  lemma HoldsIffFound(db: Db, request: nat)
    ensures HoldsReservation(db, request)
            <==> FindForRequest(db.allocations, request, {Status.Reserved, Status.Assigned}).Some?
  {
    var found := FindForRequest(db.allocations, request, {Status.Reserved, Status.Assigned});
  }

  /** Whatever address is asked for, a reservation succeeds exactly when the request holds
      one already, or the pool has room and no address of the request is in quarantine. */
  lemma ReservationExact(db: Db, pid: nat, request: nat, requested: Option<Ip>, draws: Draws)
    requires Inv(db)
    ensures ReserveForProvisioning(db, pid, request, requested, draws).reply.Ok? <==>
      Locked(db, pid)
      && (HoldsReservation(db, request) || (HasRoom(db, pid, requested) && !QuarantinedRequest(db, request)))
    ensures Locked(db, pid) && HasRoom(db, pid, requested) && !HoldsReservation(db, request)
            && QuarantinedRequest(db, request) ==>
      ReserveForProvisioning(db, pid, request, requested, draws) == Outcome(db, Err(IpAddressUnavailable))
  {
    HoldsIffFound(db, request);
    if Locked(db, pid) && !HoldsReservation(db, request) {
      RoomIsACandidate(db, pid, requested, draws);
      CandidateIsGood(db, pid, requested, draws);
      var c := PickCandidate(db, pid, requested, draws);
      if HasRoom(db, pid, requested) {
        InsertClashIffRequestActive(c.db, c.row, Some(request));
        assert RequestActive(c.db, request) <==> QuarantinedRequest(db, request) by {
          hide Inv, PickCandidate, HasRoom, InsertClash;
          ActiveWithoutReservation(db, c.db, request);
        }
      }
      hide Inv, PickCandidate, HasRoom, InsertClash, GoodCandidate, HoldsReservation, QuarantinedRequest, RequestActive;
    }
  }

  lemma ActiveWithoutReservation(db: Db, mid: Db, request: nat)
    requires !HoldsReservation(db, request) && mid.allocations == db.allocations
    ensures RequestActive(mid, request) <==> QuarantinedRequest(db, request)
  {
    if QuarantinedRequest(db, request) {
      var i :| 0 <= i < |db.allocations| && db.allocations[i].request == Some(request)
               && db.allocations[i].status == Status.Quarantined;
      assert Active(mid, i);
    }
    if RequestActive(mid, request) {
      var i :| Active(mid, i) && mid.allocations[i].request == Some(request);
      assert db.allocations[i].status == Status.Quarantined;
    }
  }

  /** A provisioning that fails bars its own retry: once its reserved address has gone into
      quarantine the request reserves nothing, in no pool, however much room there is. */
  lemma FailedProvisioningCannotReserve(db: Db, request: nat, now: int, pid: nat, requested: Option<Ip>, draws: Draws)
    requires Inv(db) && FindForRequest(db.allocations, request, {Status.Reserved}).Some?
    ensures Inv(QuarantineProvisioningIp(db, request, now).db)
    ensures var after := QuarantineProvisioningIp(db, request, now).db;
      var retry := ReserveForProvisioning(after, pid, request, requested, draws);
      && retry.reply.Err?
      && (Locked(after, pid) && HasRoom(after, pid, requested) ==> retry == Outcome(after, Err(IpAddressUnavailable)))
  {
    var id := FindForRequest(db.allocations, request, {Status.Reserved}).value;
    var after := QuarantineProvisioningIp(db, request, now).db;
    QuarantineProvisioningKeepsInv(db, request, now);
    assert after.allocations[id].request == Some(request) && after.allocations[id].status == Status.Quarantined;
    assert QuarantinedRequest(after, request);
    forall i | 0 <= i < |after.allocations| && after.allocations[i].request == Some(request)
      ensures after.allocations[i].status !in {Status.Reserved, Status.Assigned}
    {
      assert Active(db, id);
      assert SameRequest(db.allocations[i], db.allocations[id]);
      assert Active(db, i) ==> i == id;
    }
    ReservationExact(after, pid, request, requested, draws);
  }

  /** A pool on a /30 block, which has two usable addresses, and the first of them reserved
      for request 1. */
  const SmallNet := Network(V4, 0, 30)
  const SmallPool := Pool("pool", None, SmallNet, None, [], [], Sequential, 60, 0, true, 1)
  const FirstIp := Ip(V4, 1)
  const SecondIp := Ip(V4, 2)
  const PoolMade := Db([SmallPool], [], [])
  const AddressTaken := Db([SmallPool], [AddressRow(0, FirstIp, State.Reserved, None)],
                           [Allocation(0, None, Some(1), Status.Reserved)])
  const AfterFailure := QuarantineProvisioningIp(AddressTaken, 1, 0).db

  lemma SmallPoolWorks()
    ensures ParseNetwork(Parsable(Ip(V4, 0), 30)) == Some(SmallNet)
    ensures Usable(SmallPool, FirstIp) && Usable(SmallPool, SecondIp)
  {
    assert Pow2(2) == 4;
  }

  lemma ReachesTaken(draws: Draws) returns (create: Event, reserve: Event)
    ensures ForeignKeys(EmptyDb) && Step(EmptyDb, create).db == PoolMade
    ensures ForeignKeys(PoolMade) && Step(PoolMade, reserve).db == AddressTaken
  {
    SmallPoolWorks();
    hide ParseNetwork, Contains, Special, Excluded, Size, Pow2, Mask;
    create := Event(0, CallCreatePool(
      PoolCreate("pool", None, Parsable(Ip(V4, 0), 30), None, [], [], Sequential, 60), {}));
    reserve := Event(0, CallReserveForProvisioning(0, 1, Some(FirstIp), draws));
    assert PickCandidate(PoolMade, 0, Some(FirstIp), draws) == Found(Materialize(PoolMade, 0, FirstIp), 0);
    assert ReserveForProvisioning(PoolMade, 0, 1, Some(FirstIp), draws).db == AddressTaken;
  }

  lemma RunThree(db: Db, a: Event, b: Event, c: Event)
    requires Inv(db)
    ensures Inv(Step(db, a).db) && Inv(Step(Step(db, a).db, b).db)
    ensures Run(db, [a, b, c]) == Step(Step(Step(db, a).db, b).db, c).db
  {
    var db1 := Step(db, a).db;
    StepKeepsInv(db, a);
    var db2 := Step(db1, b).db;
    StepKeepsInv(db1, b);
    StepKeepsInv(db2, c);
    hide Inv, Step;
    assert [a, b, c][1..] == [b, c] && [b, c][1..] == [c] && [c][1..] == [];
    assert Run(db2, [c]) == Step(db2, c).db;
    assert Run(db1, [b, c]) == Run(db2, [c]);
  }

  lemma SecondIsVacantAndRefused(draws: Draws)
    ensures Inv(AddressTaken) && Inv(AfterFailure)
    ensures Locked(AfterFailure, 0) && HasRoom(AfterFailure, 0, Some(SecondIp))
    ensures ReserveForProvisioning(AfterFailure, 0, 1, Some(SecondIp), draws)
            == Outcome(AfterFailure, Err(IpAddressUnavailable))
  {
    var create, reserve := ReachesTaken(draws);
    EmptyDbOk();
    SmallPoolWorks();
    hide Inv, Usable, ParseNetwork, Contains, Size, Pow2, Mask, Step;
    StepKeepsInv(EmptyDb, create);
    StepKeepsInv(PoolMade, reserve);
    FailedProvisioningCannotReserve(AddressTaken, 1, 0, 0, Some(SecondIp), draws);
  }

  /** It happens: three calls lead to a pool with two usable addresses, one of them in
      quarantine for a failed request. The other is free, and the request does not get it. */
  lemma RetryIsRefused(draws: Draws) returns (es: seq<Event>)
    ensures |es| == 3 && Inv(EmptyDb) && Run(EmptyDb, es) == AfterFailure
    ensures Inv(AfterFailure) && Locked(AfterFailure, 0) && HasRoom(AfterFailure, 0, Some(SecondIp))
    ensures ReserveForProvisioning(AfterFailure, 0, 1, Some(SecondIp), draws)
            == Outcome(AfterFailure, Err(IpAddressUnavailable))
  {
    EmptyDbOk();
    var create, reserve := ReachesTaken(draws);
    var fail := Event(0, CallQuarantineProvisioningIp(1));
    assert Step(AddressTaken, fail).db == AfterFailure;
    SecondIsVacantAndRefused(draws);
    RunThree(EmptyDb, create, reserve, fail);
    hide Inv, ReserveForProvisioning, HasRoom, Step;
    es := [create, reserve, fail];
  }

  /** An administrator may exclude any vacant address that is not special, excluded ranges
      included; it is disabled then, and nothing else changes. */
  lemma ReserveAddressExact(db: Db, pid: nat, ip: Ip)
    requires Inv(db)
    ensures var r := ReserveAddress(db, pid, ip);
      && (r.reply.Ok? <==>
            (Locked(db, pid) && Contains(db.pools[pid].net, ip) && !Special(db.pools[pid], ip) && Vacant(db, pid, ip)))
      && (r.reply.Ok? ==>
            var row := FindRow(r.db.addresses, pid, ip);
            && row.Some? && r.reply == Ok(Row(row.value)) && r.db.addresses[row.value].state == Disabled
            && r.db.pools == db.pools && r.db.allocations == db.allocations
            && forall k :: 0 <= k < |db.addresses| && k != row.value ==> r.db.addresses[k] == db.addresses[k])
  {
    var r := ReserveAddress(db, pid, ip);
    ReserveAddressKeepsInv(db, pid, ip);
    if r.reply.Ok? {
      var id := r.reply.value.id;
      assert r.db.addresses[id].pool == pid && r.db.addresses[id].ip == ip;
    }
  }

  // ----- confirming, releasing, approving -------------------------------------------

  /** The request has an allocation in one of the two live states. */
  ghost predicate HoldsReservation(db: Db, request: nat) {
    exists i :: 0 <= i < |db.allocations| && db.allocations[i].request == Some(request)
                && db.allocations[i].status in {Status.Reserved, Status.Assigned}
  }

  /** Confirmation succeeds exactly for a request that holds a reservation, and leaves it with
      an assigned address; a second confirmation changes nothing. */
  lemma ConfirmExact(db: Db, request: nat, w: nat, w2: nat)
    requires Inv(db)
    ensures var r := ConfirmProvisioningIp(db, request, w);
      && (r.reply.Ok? <==> HoldsReservation(db, request))
      && (r.reply.Ok? ==>
            exists i :: 0 <= i < |r.db.allocations| && IsFor(r.db.allocations[i], request, Status.Assigned)
              && r.db.allocations[i].address < |r.db.addresses|
              && r.db.addresses[r.db.allocations[i].address].state == State.Assigned
              && (db.allocations[i].status == Status.Reserved ==> r.db.allocations[i].workload == Some(w)))
      && ForeignKeys(r.db)
      && (r.reply.Ok? ==> ConfirmProvisioningIp(r.db, request, w2) == Outcome(r.db, Ok(Done)))
  {
    var r := ConfirmProvisioningIp(db, request, w);
    ConfirmKeepsInv(db, request, w);
    var reserved := FindForRequest(db.allocations, request, {Status.Reserved});
    var confirmed := FindForRequest(db.allocations, request, {Status.Assigned});
    if reserved.Some? {
      var id := reserved.value;
      assert Active(db, id) && Active(r.db, id);
      assert IsFor(r.db.allocations[id], request, Status.Assigned);
      forall i | 0 <= i < |r.db.allocations| && r.db.allocations[i].request == Some(request)
        ensures r.db.allocations[i].status != Status.Reserved
      {
        assert SameRequest(r.db.allocations[i], r.db.allocations[id]);
        assert Active(r.db, i) ==> i == id;
      }
    } else if confirmed.Some? {
      assert Active(db, confirmed.value);
      assert IsFor(r.db.allocations[confirmed.value], request, Status.Assigned);
    }
  }

  /** Releasing a held address starts its quarantine: from then on the row says until when. */
  lemma ReleaseStartsQuarantine(db: Db, id: nat, now: int)
    requires Inv(db) && id < |db.allocations| && db.allocations[id].status in {Status.Reserved, Status.Assigned}
    ensures var r := Release(db, id, now);
      var row := db.allocations[id].address;
      && r.reply == Ok(Row(id)) && |r.db.allocations| == |db.allocations| && |r.db.addresses| == |db.addresses|
      && r.db.allocations[id] == db.allocations[id].(status := Status.Quarantined)
      && r.db.addresses[row].state == State.Quarantined
      && r.db.addresses[row].quarantinedUntil == Some(now + QuarantineOf(db, row))
      && QuarantineProvisioned(db, r, id, now)
  {
    var request := db.allocations[id].request;
    if db.allocations[id].status == Status.Reserved && request.Some? {
      var found := FindForRequest(db.allocations, request.value, {Status.Reserved});
      assert Active(db, id);
      assert found.Some? && Active(db, found.value);
      assert SameRequest(db.allocations[found.value], db.allocations[id]);
    }
  }

  /** A failed provisioning does to its reservation what a release would do. */
  ghost predicate QuarantineProvisioned(db: Db, r: Outcome, id: nat, now: int)
    requires ForeignKeys(db) && id < |db.allocations|
  {
    db.allocations[id].status == Status.Reserved && db.allocations[id].request.Some? ==>
      QuarantineProvisioningIp(db, db.allocations[id].request.value, now).db == r.db
  }

  /** Approval succeeds exactly for a quarantined address whose period is over: the check for
      a missing allocation never fires. The address is free again, and its offset with it. */
  lemma ApproveExact(db: Db, row: nat, now: int)
    requires Inv(db)
    ensures var r := ApproveRelease(db, row, now);
      r.reply.Ok? <==> (row < |db.addresses| && db.addresses[row].state == State.Quarantined
                        && db.addresses[row].quarantinedUntil.value <= now)
    ensures ApproveRelease(db, row, now).reply != Err(IpAllocationStateInvalid)
    ensures var r := ApproveRelease(db, row, now);
      r.reply.Ok? ==>
        Inv(r.db) && row < |r.db.addresses| && r.db.addresses[row].state == Available && !HasHolder(r.db, row)
  {
    ApproveReleaseKeepsInv(db, row, now);
    if row < |db.addresses| && db.addresses[row].state == State.Quarantined {
      assert HasHolder(db, row);
      var i :| Active(db, i) && db.allocations[i].address == row;
      assert db.allocations[i].status == Status.Quarantined;
      var r := ApproveRelease(db, row, now);
      if r.reply.Ok? {
        AvailableHasNoHolder(r.db, row);
      }
    }
  }

  /** Approval gives back exactly the offset that handing out took. */
  lemma ApproveFreesOneOffset(db: Db, row: nat, now: int)
    requires Inv(db) && ApproveRelease(db, row, now).reply.Ok?
    ensures row < |db.addresses| && db.addresses[row].pool < |db.pools|
    ensures var pid := db.addresses[row].pool;
      var db' := ApproveRelease(db, row, now).db;
      && db'.pools == db.pools && OffsetOf(db, pid, row) !in FreeOffsets(db, pid)
      && FreeOffsets(db', pid) == FreeOffsets(db, pid) + {OffsetOf(db, pid, row)}
  {
    var pid := db.addresses[row].pool;
    var db' := ApproveRelease(db, row, now).db;
    var net, ip := db.pools[pid].net, db.addresses[row].ip;
    var o := OffsetOf(db, pid, row);
    ContainsIsInterval(net, ip);
    assert RowFits(db.pools[pid], db.addresses[row]);
    assert AddressAt(net, o) == ip;
    assert db'.addresses == db.addresses[row := db'.addresses[row]] && db'.addresses[row].state == Available;
    assert db'.addresses[row].pool == pid && db'.addresses[row].ip == ip;
    forall k | 0 <= k < Size(net)
      ensures OffsetFree(db', pid, k) <==> OffsetFree(db, pid, k) || k == o
      ensures k == o ==> !OffsetFree(db, pid, k)
    {
      SameRowFound(db, db', row, pid, AddressAt(net, k));
    }
  }

  lemma SameRowFound(db: Db, db': Db, row: nat, pid: nat, ip: Ip)
    requires RowsUnique(db.addresses) && row < |db.addresses| && |db'.addresses| == |db.addresses|
    requires db'.addresses == db.addresses[row := db'.addresses[row]]
    requires db'.addresses[row].pool == db.addresses[row].pool && db'.addresses[row].ip == db.addresses[row].ip
    ensures FindRow(db'.addresses, pid, ip) == FindRow(db.addresses, pid, ip)
    ensures db.addresses[row].pool == pid && db.addresses[row].ip == ip ==> FindRow(db.addresses, pid, ip) == Some(row)
  {
    var a, b := FindRow(db.addresses, pid, ip), FindRow(db'.addresses, pid, ip);
    assert a.Some? ==> db'.addresses[a.value].pool == pid && db'.addresses[a.value].ip == ip;
    assert b.Some? ==> db.addresses[b.value].pool == pid && db.addresses[b.value].ip == ip;
  }

  // ----- pools --------------------------------------------------------------------------

  /** A pool can be deleted exactly when its version matches, no provisioning waits for it
      and nothing of it is held or disabled; a deleted pool has no holder ever after. */
  lemma DeleteExact(db: Db, pid: nat, version: nat, activeRequests: nat)
    requires Inv(db)
    ensures var r := DeletePool(db, pid, version, activeRequests);
      && (r.reply.Ok? <==>
            (Locked(db, pid) && db.pools[pid].version == version && activeRequests == 0
             && forall k :: 0 <= k < |db.addresses| && db.addresses[k].pool == pid ==>
                  db.addresses[k].state == Available))
      && (r.reply.Ok? ==> !Locked(r.db, pid) && r.db.addresses == db.addresses && r.db.allocations == db.allocations)
  {
  }

  lemma DeletedPoolsAreDrained(es: seq<Event>, i: nat)
    ensures Inv(EmptyDb)
    ensures var db := Run(EmptyDb, es);
      Active(db, i) ==> PoolOf(db, i) < |db.pools| && db.pools[PoolOf(db, i)].active
  {
    EmptyDbOk();
    var db := Run(EmptyDb, es);
    if Active(db, i) {
      assert RowFits(db.pools[PoolOf(db, i)], db.addresses[db.allocations[i].address]);
    }
  }

  /** The offsets a request for a new pool leaves to automatic allocation: not the network
      address, not the IPv4 broadcast address, not the gateway and in no excluded range. */
  ghost predicate Allocatable(p: PoolCreate, net: Network, k: int)
    requires 0 <= k
  {
    && k != 0
    && (net.family == V4 ==> k != Size(net) - 1)
    && (p.gateway.Some? ==> p.gateway.value.value != net.base + k)
    && forall i :: 0 <= i < |p.excluded| ==> !(p.excluded[i].start.value <= net.base + k <= p.excluded[i].end.value)
  }

  /** A pool just created has exactly these offsets free. */
  lemma FreshPoolCapacity(db: Db, p: PoolCreate, clusters: set<nat>)
    requires Inv(db) && CreatePool(db, p, clusters).reply.Ok?
    ensures ParseNetwork(p.cidr).Some?
    ensures var net := ParseNetwork(p.cidr).value;
      var r := CreatePool(db, p, clusters);
      && r.reply == Ok(Row(|db.pools|)) && Locked(r.db, |db.pools|) && r.db.pools[|db.pools|].cluster == p.cluster
      && FreeOffsets(r.db, |db.pools|) == set k | 0 <= k < Size(net) && Allocatable(p, net, k)
  {
    FreshPoolIsAllFree(db, p, clusters);
    var net := ParseNetwork(p.cidr).value;
    var pool := CreatePool(db, p, clusters).db.pools[|db.pools|];
    forall k | 0 <= k < Size(net)
      ensures Usable(pool, AddressAt(net, k)) <==> Allocatable(p, net, k)
    {
      var ip := AddressAt(net, k);
      ContainsIsInterval(net, ip);
    }
  }

  /** An update is all or nothing, touches one pool, and leaves its cursor, its excluded
      ranges and whether it is active alone. */
  lemma UpdateTouchesOnePool(db: Db, pid: nat, u: PoolUpdate, clusters: set<nat>)
    requires Inv(db)
    ensures var r := UpdatePool(db, pid, u, clusters);
      && (r.reply.Err? ==> r.db == db)
      && r.db.addresses == db.addresses && r.db.allocations == db.allocations && |r.db.pools| == |db.pools|
      && (forall q :: 0 <= q < |db.pools| && q != pid ==> r.db.pools[q] == db.pools[q])
      && (r.reply.Ok? ==>
            && pid < |db.pools| && r.db.pools[pid].version == db.pools[pid].version + 1 == u.version + 1
            && r.db.pools[pid].nextOffset == db.pools[pid].nextOffset
            && r.db.pools[pid].exclusions == db.pools[pid].exclusions && r.db.pools[pid].active
            && (u.cidr.Some? ==> Some(r.db.pools[pid].net) == ParseNetwork(u.cidr.value))
            && (u.cluster.Some? ==> r.db.pools[pid].cluster == u.cluster.value)
            && (u.gateway.Some? ==> r.db.pools[pid].gateway == u.gateway.value)
            && (u.quarantineSeconds.Some? ==> r.db.pools[pid].quarantineSeconds == u.quarantineSeconds.value)
            && (HasRows(db, pid) ==>
                  SameAddressing(db.pools[pid], r.db.pools[pid]) && r.db.pools[pid].cluster == db.pools[pid].cluster))
  {
  }
}
