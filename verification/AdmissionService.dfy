/** One admission from start to end, when nobody else touches the tables in between. */
module AdmissionService {
  import opened Wrappers
  import opened Admission

  ghost predicate KeyUsed(t: Tables, rq: Request, k: nat) {
    k < |t.ops| && t.ops[k].user == rq.user && t.ops[k].key == rq.key
  }

  /** An active operation has the workload, or an active restore the target. */
  ghost predicate Held(t: Tables, rq: Request) {
    || (exists k :: ActiveOn(t.ops, k, rq.workload))
    || (rq.body.Restore? && exists r :: ActiveAt(t.restores, r, rq.cluster, rq.body.vmid))
  }

  /** The answer of a request that meets no other: from the operation of its key if there is
      one, a conflict if its workload or target is held, a new operation otherwise. */
  ghost predicate AloneAnswers(t: Tables, rq: Request, reply: Reply) {
    && (forall k: nat :: KeyUsed(t, rq, k) ==>
          reply == if t.ops[k].body != rq.body then KeyReused
                   else if rq.body.CustomerPower?
                           && (t.ops[k].workload != rq.workload || t.ops[k].organization != rq.organization)
                   then NotFound
                   else Accepted(k, false))
    && ((forall k: nat :: !KeyUsed(t, rq, k)) ==> reply == if Held(t, rq) then Conflict else Accepted(|t.ops|, true))
  }

  lemma HeldIffRejected(t: Tables, rq: Request)
    ensures Held(t, rq) <==>
      Busy(t.ops, rq.workload) || (rq.body.Restore? && TargetTaken(t.restores, rq.cluster, rq.body.vmid))
  {
    if Busy(t.ops, rq.workload) {
      var k :| 0 <= k < |t.ops| && t.ops[k].workload == rq.workload && ActiveStatus(t.ops[k].status);
      assert ActiveOn(t.ops, k, rq.workload);
    }
    if rq.body.Restore? && TargetTaken(t.restores, rq.cluster, rq.body.vmid) {
      var r :| 0 <= r < |t.restores| && t.restores[r].cluster == rq.cluster
               && t.restores[r].vmid == rq.body.vmid && ActiveStatus(t.restores[r].status);
      assert ActiveAt(t.restores, r, rq.cluster, rq.body.vmid);
    }
  }

  lemma AloneReplyAnswers(t: Tables, rq: Request)
    requires TablesOk(t)
    ensures AloneAnswers(t, rq, AloneReply(t, rq))
  {
    HeldIffRejected(t, rq);
    var found := FindKey(t.ops, rq.user, rq.key);
    forall k: nat | KeyUsed(t, rq, k)
      ensures found == Some(k)
    {
      assert HasKey(t.ops[k], rq.user, rq.key);
      assert HasKey(t.ops[found.value], t.ops[k].user, t.ops[k].key);
    }
    assert found.Some? ==> KeyUsed(t, rq, found.value);
    hide Held, Busy, TargetTaken;
  }

  class OperationService {
    var ops: seq<Operation>
    var backupRuns: set<nat>
    var restores: seq<RestoreRun>

    function Rows(): Tables
      reads this
    {
      Tables(ops, backupRuns, restores)
    }

    ghost predicate Valid()
      reads this
    {
      TablesOk(Rows())
    }

    constructor ()
      ensures Valid() && Rows() == Empty.t
    {
      ops, backupRuns, restores := [], {}, [];
    }

    /** `request_power_action`, `request_admin_action`, the customer's `request_power_action`,
        `request_backup` and `request_restore` after their own validation: they differ in the
        body they hash, in the extra rows, and in that a restore skips the conflict lookup.
        Running alone, a request is exactly five steps of the interleaving system. */
    method Admit(rq: Request) returns (reply: Reply)
      requires Valid()
      modifies this
      ensures Valid() && OpsPersist(old(ops), ops)
      ensures Exec(System(old(Rows()), []), [Arrives(rq), LooksUpKey(0), LooksForConflict(0), Inserts(0), Replies(0)])
              == System(Rows(), [Process(rq, Answered(reply))])
      ensures AloneAnswers(old(Rows()), rq, reply)
      ensures reply.Accepted? && reply.created <==> |ops| == |old(ops)| + 1
      ensures reply.Accepted? && reply.created ==>
        && reply.op == |old(ops)| && ops[..|old(ops)|] == old(ops) && IsQueuedFor(ops[|old(ops)|], rq)
        && backupRuns == old(backupRuns) + (if rq.body.Backup? then {|old(ops)|} else {})
        && restores == old(restores)
                       + if rq.body.Restore? then [RestoreRun(|old(ops)|, rq.cluster, rq.body.vmid, Queued)] else []
      ensures !(reply.Accepted? && reply.created) ==> Rows() == old(Rows())
      ensures reply.Accepted? ==>
        reply.op < |ops| && HasKey(ops[reply.op], rq.user, rq.key) && ops[reply.op].body == rq.body
    {
      ghost var t := Rows();
      AloneIsFiveSteps(t, rq);
      AloneReplyAnswers(t, rq);
      var existing := FindKey(ops, rq.user, rq.key);
      if existing.Some? {
        var op := ops[existing.value];
        if op.body != rq.body {
          return KeyReused;
        }
        match rq.body {
          case CustomerPower(_, _) =>
            if op.workload != rq.workload || op.organization != rq.organization {
              return NotFound;
            }
          case Backup(_, _, _, _) =>
            if existing.value !in backupRuns {
              return KeyReused;
            }
          case Restore(_, _, _, _) =>
            if !HasRestore(restores, existing.value) {
              return KeyReused;
            }
          case _ =>
        }
        return Accepted(existing.value, false);
      }
      if !rq.body.Restore? && Busy(ops, rq.workload) {
        return Conflict;
      }
      if Busy(ops, rq.workload) || (rq.body.Restore? && TargetTaken(restores, rq.cluster, rq.body.vmid)) {
        return Conflict;
      }
      InsertKeepsTables(t, rq);
      var n := |ops|;
      ops := ops + [Operation(rq.user, rq.key, rq.body, rq.workload, Owner(rq), Queued)];
      if rq.body.Backup? {
        backupRuns := backupRuns + {n};
      }
      if rq.body.Restore? {
        restores := restores + [RestoreRun(n, rq.cluster, rq.body.vmid, Queued)];
      }
      return Accepted(n, true);
    }
  }

  /** The reply of a request that meets no one. */
  function AloneReply(t: Tables, rq: Request): Reply {
    var existing := FindKey(t.ops, rq.user, rq.key);
    if existing.Some? then AnswerExisting(t, rq, existing.value)
    else if Rejected(t, rq) then Conflict
    else Accepted(|t.ops|, true)
  }

  lemma AloneIsFiveSteps(t: Tables, rq: Request)
    ensures var reply := AloneReply(t, rq);
      Exec(System(t, []), [Arrives(rq), LooksUpKey(0), LooksForConflict(0), Inserts(0), Replies(0)])
      == System(if reply.Accepted? && reply.created then Insert(t, rq) else t, [Process(rq, Answered(reply))])
  {
    var s0, p := System(t, []), Process(rq, ReadingKey);
    var s1 := System(t, [p]);
    var s2 := Next(s1, LooksUpKey(0));
    var s3 := Next(s2, LooksForConflict(0));
    var s4 := Next(s3, Inserts(0));
    assert Exec(s0, []) == s0;
    assert [Arrives(rq), LooksUpKey(0), LooksForConflict(0), Inserts(0), Replies(0)]
        == [] + [Arrives(rq)] + [LooksUpKey(0)] + [LooksForConflict(0)] + [Inserts(0)] + [Replies(0)];
    hide Exec;
    OneMore(s0, [], Arrives(rq));
    OneMore(s0, [] + [Arrives(rq)], LooksUpKey(0));
    OneMore(s0, [] + [Arrives(rq)] + [LooksUpKey(0)], LooksForConflict(0));
    OneMore(s0, [] + [Arrives(rq)] + [LooksUpKey(0)] + [LooksForConflict(0)], Inserts(0));
    OneMore(s0, [] + [Arrives(rq)] + [LooksUpKey(0)] + [LooksForConflict(0)] + [Inserts(0)], Replies(0));
  }

  lemma OneMore(s: System, actions: seq<Action>, a: Action)
    ensures Exec(s, actions + [a]) == Next(Exec(s, actions), a)
  {
    assert (actions + [a])[..|actions|] == actions;
  }
}
