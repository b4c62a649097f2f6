/** What the calls on addresses answer, and all that each of them changes. */
module IpamAnswers {
  import opened Wrappers
  import opened Networks
  import opened IpamModel
  import opened IpamInvariants
  import opened IpamTheorems
  import opened IpamEffects
  import opened IpamPools

  // ----- reserving and handing out ------------------------------------------------

  /** What stands in the way of a requested address, in the order it is looked for. */
  ghost function AddressChecks(db: Db, pid: nat, ip: Ip, ranges: bool): seq<Check>
    requires pid < |db.pools|
  {
    var pool := db.pools[pid];
    [Check(Contains(pool.net, ip), IpOutsidePool),
     Check(!Special(pool, ip), IpAddressExcluded),
     Check(ranges ==> !Excluded(pool, ip), IpAddressExcluded),
     Check(Vacant(db, pid, ip), IpAddressUnavailable)]
  }

  /** What stands in the way of handing out the requested address, or any. */
  ghost function RoomChecks(db: Db, pid: nat, requested: Option<Ip>): seq<Check>
    requires pid < |db.pools|
  {
    match requested
    case Some(ip) => AddressChecks(db, pid, ip, true)
    case None => [Check(FreeOffsets(db, pid) != {}, IpPoolExhausted)]
  }

  /** An administrator's exclusion answers with the first thing in its way. Otherwise the
      address's row, made if there was none, is disabled, and nothing else changes. */
  lemma ReserveAddressAnswers(db: Db, pid: nat, ip: Ip)
    requires Inv(db)
    ensures var r := ReserveAddress(db, pid, ip);
      var row := if FindRow(db.addresses, pid, ip).Some? then FindRow(db.addresses, pid, ip).value else |db.addresses|;
      && (if Locked(db, pid) then Answers(r.reply, AddressChecks(db, pid, ip, false), Row(row))
          else r.reply == Err(IpPoolNotFound))
      && (r.reply.Err? ==> r.db == db)
      && (r.reply.Ok? ==>
            r.db == db.(addresses := if row < |db.addresses|
                                     then db.addresses[row := AddressRow(pid, ip, Disabled, None)]
                                     else db.addresses + [AddressRow(pid, ip, Disabled, None)]))
  {
    if Locked(db, pid) {
      var r, checks := ReserveAddress(db, pid, ip), AddressChecks(db, pid, ip, false);
      hide Contains, Special, Excluded, Inv;
      if r.reply.Err? {
        Fails(r.reply, checks, Done, if !checks[0].holds then 0 else if !checks[1].holds then 1 else 3);
      }
    }
  }

  ghost predicate Ready(c: Candidate) {
    c.Found? && c.row < |c.db.addresses| && c.db.addresses[c.row].state == Available
  }

  /** The error of a candidate that is refused, or found but not available. */
  ghost function Obstacle(c: Candidate): Error {
    match c
    case Found(_, _) => IpAddressUnavailable
    case Refused(e) => e
  }

  /** A candidate is refused for the first thing in its way, and otherwise available. */
  lemma CandidateAnswers(db: Db, pid: nat, requested: Option<Ip>, draws: Draws)
    requires Inv(db) && Locked(db, pid)
    ensures var c := PickCandidate(db, pid, requested, draws);
      var checks := RoomChecks(db, pid, requested);
      if Ready(c) then AllHold(checks) else Refuses(checks, Obstacle(c))
  {
    var c := PickCandidate(db, pid, requested, draws);
    var checks := RoomChecks(db, pid, requested);
    match requested
    case None =>
      AutomaticRefusedIffNoRoom(db, pid, draws);
      AutomaticCandidateIsGood(db, pid, draws);
      hide Inv, AutomaticCandidate, FreeOffsets, GoodCandidate;
      assert c.Refused? ==> FirstFailure(checks, 0);
    case Some(ip) =>
      hide Contains, Special, Excluded, Inv;
      var i := if !checks[0].holds then 0 else if !checks[1].holds then 1 else if !checks[2].holds then 2 else 3;
      assert Ready(c) || FirstFailure(checks, i);
  }

  lemma AllocateReply(db: Db, pid: nat, w: Option<Workload>, requested: Option<Ip>, draws: Draws)
    requires Inv(db) && Locked(db, pid)
    ensures var r := Allocate(db, pid, w, requested, draws);
      var c := PickCandidate(db, pid, requested, draws);
      && r.reply == (if w.None? then Err(WorkloadNotFound)
                     else if !ServesCluster(db.pools[pid].cluster, w.value.cluster) then Err(IpPoolClusterMismatch)
                     else if Ready(c) then Ok(Row(|db.allocations|))
                     else Err(Obstacle(c)))
      && (r.reply.Err? ==> r.db == db)
  {
    CandidateIsGood(db, pid, requested, draws);
    var c := PickCandidate(db, pid, requested, draws);
    if Ready(c) {
      InsertClashIffRequestActive(c.db, c.row, None);
    }
    hide Inv, PickCandidate, InsertClash, GoodCandidate;
  }

  /** An allocation answers with the first thing in its way; a refusal leaves no trace. */
  lemma AllocateAnswers(db: Db, pid: nat, w: Option<Workload>, requested: Option<Ip>, draws: Draws)
    requires Inv(db)
    ensures var r := Allocate(db, pid, w, requested, draws);
      && (if Locked(db, pid) then
            Answers(r.reply, [Check(w.Some?, WorkloadNotFound),
                              Check(w.Some? ==> ServesCluster(db.pools[pid].cluster, w.value.cluster),
                                    IpPoolClusterMismatch)]
                             + RoomChecks(db, pid, requested), Row(|db.allocations|))
          else r.reply == Err(IpPoolNotFound))
      && (r.reply.Err? ==> r.db == db)
  {
    if Locked(db, pid) {
      var first := [Check(w.Some?, WorkloadNotFound),
                    Check(w.Some? ==> ServesCluster(db.pools[pid].cluster, w.value.cluster), IpPoolClusterMismatch)];
      AllocateReply(db, pid, w, requested, draws);
      CandidateAnswers(db, pid, requested, draws);
      assert w.None? ==> FirstFailure(first, 0);
      assert w.Some? && !first[1].holds ==> FirstFailure(first, 1);
      assert w.Some? && first[1].holds ==> AllHold(first);
      ChecksInTurn(first, RoomChecks(db, pid, requested));
      hide Inv, PickCandidate, RoomChecks, Allocate, AllHold, FirstFailure, Ready, Obstacle;
    }
  }

  /** A reservation for a request that holds one repeats it; any other answers with the
      first thing in its way, the last of which is an address of the request in quarantine. */
  lemma ReservationAnswers(db: Db, pid: nat, request: nat, requested: Option<Ip>, draws: Draws)
    requires Inv(db)
    ensures var r := ReserveForProvisioning(db, pid, request, requested, draws);
      && (if !Locked(db, pid) then r.reply == Err(IpPoolNotFound)
          else if HoldsReservation(db, request) then
            r.db == db && r.reply.Ok? && r.reply.value.Row? && r.reply.value.id < |db.allocations|
            && db.allocations[r.reply.value.id].request == Some(request)
            && db.allocations[r.reply.value.id].status in {Status.Reserved, Status.Assigned}
          else
            Answers(r.reply, RoomChecks(db, pid, requested)
                             + [Check(!QuarantinedRequest(db, request), IpAddressUnavailable)], Row(|db.allocations|)))
      && (r.reply.Err? ==> r.db == db)
  {
    HoldsIffFound(db, request);
    if Locked(db, pid) && !HoldsReservation(db, request) {
      var last := [Check(!QuarantinedRequest(db, request), IpAddressUnavailable)];
      ReservationReply(db, pid, request, requested, draws);
      CandidateAnswers(db, pid, requested, draws);
      assert !last[0].holds ==> FirstFailure(last, 0);
      assert last[0].holds ==> AllHold(last);
      ChecksInTurn(RoomChecks(db, pid, requested), last);
      hide Inv, PickCandidate, RoomChecks, ReserveForProvisioning, AllHold, FirstFailure, Ready, Obstacle;
      hide HoldsReservation, QuarantinedRequest;
    }
  }

  lemma ReservationReply(db: Db, pid: nat, request: nat, requested: Option<Ip>, draws: Draws)
    requires Inv(db) && Locked(db, pid) && !HoldsReservation(db, request)
    ensures var r := ReserveForProvisioning(db, pid, request, requested, draws);
      var c := PickCandidate(db, pid, requested, draws);
      && r.reply == (if !Ready(c) then Err(Obstacle(c))
                     else if QuarantinedRequest(db, request) then Err(IpAddressUnavailable)
                     else Ok(Row(|db.allocations|)))
      && (r.reply.Err? ==> r.db == db)
  {
    HoldsIffFound(db, request);
    RoomIsACandidate(db, pid, requested, draws);
    ReservationExact(db, pid, request, requested, draws);
    CandidateIsGood(db, pid, requested, draws);
    hide Inv, PickCandidate, InsertClash, GoodCandidate, HasRoom, HoldsReservation, QuarantinedRequest;
  }

  // ----- the life of one address ----------------------------------------------------

  /** One allocation and its row become what is said here; all else stays. */
  ghost predicate OneBecomes(db: Db, db': Db, id: nat, a: Allocation, row: AddressRow) {
    && id < |db.allocations| && db.allocations[id].address < |db.addresses|
    && db'.pools == db.pools
    && db'.allocations == db.allocations[id := a]
    && db'.addresses == db.addresses[db.allocations[id].address := row]
  }

  /** The allocation's address goes into quarantine for the period its pool has now. */
  ghost predicate GoesIntoQuarantine(db: Db, db': Db, id: nat, now: int) {
    && id < |db.allocations| && db.allocations[id].address < |db.addresses|
    && (var row := db.addresses[db.allocations[id].address];
        row.pool < |db.pools|
        && OneBecomes(db, db', id, db.allocations[id].(status := Status.Quarantined),
                      row.(state := State.Quarantined,
                           quarantinedUntil := Some(now + db.pools[row.pool].quarantineSeconds))))
  }

  /** A request has at most one allocation that is not released. */
  lemma OnlyOneForRequest(db: Db, request: nat, i: nat, j: nat)
    requires Inv(db) && i < |db.allocations| && j < |db.allocations|
    requires db.allocations[i].request == db.allocations[j].request == Some(request)
    requires db.allocations[i].status != Released && db.allocations[j].status != Released
    ensures i == j
  {
    assert Active(db, i) && Active(db, j) && SameRequest(db.allocations[i], db.allocations[j]);
  }

  /** Confirmation assigns the reserved address to the workload, repeats itself without
      effect, and is refused for a request without a reservation; all else stays. */
  lemma ConfirmAnswers(db: Db, request: nat, w: nat)
    requires Inv(db)
    ensures var r := ConfirmProvisioningIp(db, request, w);
      && (r.reply == if HoldsReservation(db, request) then Ok(Done) else Err(IpReservationMissing))
      && (forall i :: 0 <= i < |db.allocations| && IsFor(db.allocations[i], request, Status.Reserved) ==>
            OneBecomes(db, r.db, i, db.allocations[i].(workload := Some(w), status := Status.Assigned),
                       db.addresses[db.allocations[i].address].(state := State.Assigned)))
      && ((forall i :: 0 <= i < |db.allocations| ==> !IsFor(db.allocations[i], request, Status.Reserved)) ==>
            r.db == db)
  {
    var r := ConfirmProvisioningIp(db, request, w);
    var found := FindForRequest(db.allocations, request, {Status.Reserved});
    HoldsByEither(db, request);
    forall i | 0 <= i < |db.allocations| && IsFor(db.allocations[i], request, Status.Reserved)
      ensures found == Some(i)
    {
      OnlyOneForRequest(db, request, i, found.value);
    }
  }

  lemma HoldsByEither(db: Db, request: nat)
    ensures HoldsReservation(db, request)
            <==> FindForRequest(db.allocations, request, {Status.Reserved}).Some?
                 || FindForRequest(db.allocations, request, {Status.Assigned}).Some?
  {
    var a, b := FindForRequest(db.allocations, request, {Status.Reserved}),
                FindForRequest(db.allocations, request, {Status.Assigned});
  }

  /** A failed provisioning sends the reserved address of its request into quarantine. It
      changes nothing for a request without one, in particular none that is confirmed. */
  lemma FailedProvisioningAnswers(db: Db, request: nat, now: int)
    requires Inv(db)
    ensures var r := QuarantineProvisioningIp(db, request, now);
      && r.reply == Ok(Done)
      && (forall i :: 0 <= i < |db.allocations| && IsFor(db.allocations[i], request, Status.Reserved) ==>
            GoesIntoQuarantine(db, r.db, i, now))
      && ((forall i :: 0 <= i < |db.allocations| ==> !IsFor(db.allocations[i], request, Status.Reserved)) ==>
            r.db == db)
  {
    var found := FindForRequest(db.allocations, request, {Status.Reserved});
    forall i | 0 <= i < |db.allocations| && IsFor(db.allocations[i], request, Status.Reserved)
      ensures found == Some(i)
    {
      OnlyOneForRequest(db, request, i, found.value);
    }
  }

  /** A release sends a reserved or assigned address into quarantine, changes nothing for one
      that is there or already released, and knows no other allocation. */
  lemma ReleaseAnswers(db: Db, id: nat, now: int)
    requires Inv(db)
    ensures var r := Release(db, id, now);
      && r.reply == (if id < |db.allocations| then Ok(Row(id)) else Err(IpAllocationNotFound))
      && (if id < |db.allocations| && db.allocations[id].status in {Status.Reserved, Status.Assigned}
          then GoesIntoQuarantine(db, r.db, id, now) else r.db == db)
  {
  }

  /** The allocation is released and its address available again. */
  ghost predicate IsReleased(db: Db, db': Db, id: nat) {
    && id < |db.allocations| && db.allocations[id].address < |db.addresses|
    && (var row := db.addresses[db.allocations[id].address];
        OneBecomes(db, db', id, db.allocations[id].(status := Released), AddressRow(row.pool, row.ip, Available, None)))
  }

  /** An approval answers with the first thing in its way. Otherwise the address is available
      again and the allocation that held it released; all else stays. */
  lemma ApproveAnswers(db: Db, row: nat, now: int)
    requires Inv(db)
    ensures var r := ApproveRelease(db, row, now);
      && Answers(r.reply,
                 [Check(row < |db.addresses|, IpAddressNotFound),
                  Check(row < |db.addresses| ==> db.addresses[row].state == State.Quarantined, IpAddressNotQuarantined),
                  Check(row < |db.addresses| && db.addresses[row].quarantinedUntil.Some? ==>
                          db.addresses[row].quarantinedUntil.value <= now, IpQuarantineActive)], Row(row))
      && (r.reply.Err? ==> r.db == db)
      && (r.reply.Ok? ==> exists i :: Active(db, i) && db.allocations[i].address == row && IsReleased(db, r.db, i))
  {
    var r := ApproveRelease(db, row, now);
    ApproveExact(db, row, now);
    var checks := [Check(row < |db.addresses|, IpAddressNotFound),
                   Check(row < |db.addresses| ==> db.addresses[row].state == State.Quarantined,
                         IpAddressNotQuarantined),
                   Check(row < |db.addresses| && db.addresses[row].quarantinedUntil.Some? ==>
                           db.addresses[row].quarantinedUntil.value <= now, IpQuarantineActive)];
    if r.reply.Err? {
      Fails(r.reply, checks, Row(row), if !checks[0].holds then 0 else if !checks[1].holds then 1 else 2);
    } else {
      var id := FindQuarantined(db.allocations, row).value;
      assert Active(db, id) && IsReleased(db, r.db, id);
    }
  }
}
