/** Idempotent admission of operations by the five request paths that share the operations
    table: power and admin actions, customer power actions, backups and restores.

    A request reads the table at one moment, decides on what it saw, inserts at a later
    moment and answers later still; in between, other requests and the workers commit, and
    the request may die. What holds the table together are its unique indexes, checked by
    the insert. */
module Admission {
  import opened Wrappers

  datatype Status = Queued | Running | Succeeded | Failed | Timeout

  predicate ActiveStatus(s: Status) {
    s == Queued || s == Running
  }

  /** The hashed request body. Hashing is taken as injective. */
  datatype Fingerprint =
    | Power(workload: nat, action: string)
    | CustomerPower(workload: nat, action: string)
    | Admin(workload: nat, action: string, payload: string)
    | Backup(workload: nat, target: nat, mode: string, compression: string)
    | Restore(backupRun: nat, node: string, vmid: nat, name: string)

  /** A validated request. `workload` is the workload it acts on (for a restore, the source of
      the backup), `organization` the workload's owner and `cluster` its cluster. */
  datatype Request = Request(
    user: nat, key: string, body: Fingerprint, workload: nat, organization: Option<nat>, cluster: nat)

  datatype Operation = Operation(
    user: nat, key: string, body: Fingerprint, workload: nat, organization: Option<nat>, status: Status)

  datatype RestoreRun = RestoreRun(op: nat, cluster: nat, vmid: nat, status: Status)

  /** The operations, the operations that have a backup run row, and the restore run rows. */
  datatype Tables = Tables(ops: seq<Operation>, backupRuns: set<nat>, restores: seq<RestoreRun>)

  datatype Reply = Accepted(op: nat, created: bool) | KeyReused | Conflict | NotFound

  /** Where a request stands: before its key lookup, before its conflict lookup, before its
      insert, after the commit of its operation and before its answer, or at its end. A
      request that died has answered nothing, whether or not it had committed. */
  datatype Place =
    | ReadingKey | ReadingConflict | Inserting
    | Committed(op: nat)
    | Answered(reply: Reply)
    | Died(made: Option<nat>)

  datatype Process = Process(rq: Request, place: Place)

  datatype System = System(t: Tables, procs: seq<Process>)

  // ----- lookups and indexes ------------------------------------------------------

  predicate HasKey(op: Operation, user: nat, key: string) {
    op.user == user && op.key == key
  }

  function FindKey(ops: seq<Operation>, user: nat, key: string): (r: Option<nat>)
    ensures r.Some? ==> r.value < |ops| && HasKey(ops[r.value], user, key)
    ensures r.None? ==> forall i :: 0 <= i < |ops| ==> !HasKey(ops[i], user, key)
  {
    if ops == [] then None
    else
      var n := |ops| - 1;
      if HasKey(ops[n], user, key) then Some(n) else FindKey(ops[..n], user, key)
  }

  predicate Busy(ops: seq<Operation>, workload: nat) {
    exists i :: 0 <= i < |ops| && ops[i].workload == workload && ActiveStatus(ops[i].status)
  }

  predicate TargetTaken(restores: seq<RestoreRun>, cluster: nat, vmid: nat) {
    exists i :: 0 <= i < |restores|
      && restores[i].cluster == cluster && restores[i].vmid == vmid && ActiveStatus(restores[i].status)
  }

  predicate HasRestore(restores: seq<RestoreRun>, op: nat) {
    exists i :: 0 <= i < |restores| && restores[i].op == op
  }

  /** The answer to a request whose key is already in the table. */
  function AnswerExisting(t: Tables, rq: Request, k: nat): Reply
    requires k < |t.ops|
  {
    var op := t.ops[k];
    if op.body != rq.body then KeyReused
    else if rq.body.CustomerPower? && (op.workload != rq.workload || op.organization != rq.organization) then NotFound
    else if rq.body.Backup? && k !in t.backupRuns then KeyReused
    else if rq.body.Restore? && !HasRestore(t.restores, k) then KeyReused
    else Accepted(k, false)
  }

  /** A unique index rejects the insert of this request's rows. */
  predicate Rejected(t: Tables, rq: Request) {
    || FindKey(t.ops, rq.user, rq.key).Some?
    || Busy(t.ops, rq.workload)
    || (rq.body.Restore? && TargetTaken(t.restores, rq.cluster, rq.body.vmid))
  }

  /** The owner recorded with an operation: restores have none. */
  function Owner(rq: Request): Option<nat> {
    if rq.body.Restore? then None else rq.organization
  }

  /** The rows a successful admission adds in one commit. */
  function Insert(t: Tables, rq: Request): Tables {
    var n := |t.ops|;
    Tables(t.ops + [Operation(rq.user, rq.key, rq.body, rq.workload, Owner(rq), Queued)],
           if rq.body.Backup? then t.backupRuns + {n} else t.backupRuns,
           if rq.body.Restore? then t.restores + [RestoreRun(n, rq.cluster, rq.body.vmid, Queued)] else t.restores)
  }

  // ----- steps ----------------------------------------------------------------------

  datatype Action =
    | Arrives(rq: Request)
    | LooksUpKey(i: nat)
    | LooksForConflict(i: nat)
    | Inserts(i: nat)
    | Replies(i: nat)
    | Dies(i: nat)
    | WorkerSets(op: nat, status: Status)
    | WorkerSetsRestore(run: nat, status: Status)

  function At(s: System, i: nat): Place {
    if i < |s.procs| then s.procs[i].place else Died(None)
  }

  function Moved(s: System, i: nat, place: Place): System
    requires i < |s.procs|
  {
    s.(procs := s.procs[i := s.procs[i].(place := place)])
  }

  /** Any worker may write any status, as far as the unique index on active rows lets it. */
  function WorkerWrites(t: Tables, k: nat, status: Status): Tables {
    if k < |t.ops| && (!ActiveStatus(status) || ActiveStatus(t.ops[k].status) || !Busy(t.ops, t.ops[k].workload))
    then t.(ops := t.ops[k := t.ops[k].(status := status)]) else t
  }

  function WorkerWritesRestore(t: Tables, r: nat, status: Status): Tables {
    if r < |t.restores| && (!ActiveStatus(status) || ActiveStatus(t.restores[r].status)
                            || !TargetTaken(t.restores, t.restores[r].cluster, t.restores[r].vmid))
    then t.(restores := t.restores[r := t.restores[r].(status := status)]) else t
  }

  /** An action that does not fit the request's place changes nothing. */
  function Next(s: System, a: Action): System {
    match a
    case Arrives(rq) => s.(procs := s.procs + [Process(rq, ReadingKey)])
    case LooksUpKey(i) =>
      if At(s, i) != ReadingKey then s
      else
        var rq := s.procs[i].rq;
        var existing := FindKey(s.t.ops, rq.user, rq.key);
        if existing.Some? then Moved(s, i, Answered(AnswerExisting(s.t, rq, existing.value)))
        else Moved(s, i, if rq.body.Restore? then Inserting else ReadingConflict)
    case LooksForConflict(i) =>
      if At(s, i) != ReadingConflict then s
      else Moved(s, i, if Busy(s.t.ops, s.procs[i].rq.workload) then Answered(Conflict) else Inserting)
    case Inserts(i) =>
      if At(s, i) != Inserting then s
      else
        var rq := s.procs[i].rq;
        if Rejected(s.t, rq) then Moved(s, i, Answered(Conflict))
        else Moved(s, i, Committed(|s.t.ops|)).(t := Insert(s.t, rq))
    case Replies(i) =>
      if At(s, i).Committed? then Moved(s, i, Answered(Accepted(At(s, i).op, true))) else s
    case Dies(i) =>
      if At(s, i).Answered? || At(s, i).Died? then s
      else Moved(s, i, Died(if At(s, i).Committed? then Some(At(s, i).op) else None))
    case WorkerSets(k, status) => s.(t := WorkerWrites(s.t, k, status))
    case WorkerSetsRestore(r, status) => s.(t := WorkerWritesRestore(s.t, r, status))
  }

  function Exec(s: System, actions: seq<Action>): System {
    if actions == [] then s else Next(Exec(s, actions[..|actions| - 1]), actions[|actions| - 1])
  }

  const Empty := System(Tables([], {}, []), [])

  // ----- the invariant ----------------------------------------------------------------

  ghost predicate KeysUnique(ops: seq<Operation>) {
    forall i, j :: 0 <= i < |ops| && 0 <= j < |ops| && HasKey(ops[i], ops[j].user, ops[j].key) ==> i == j
  }

  ghost predicate Unfinished(s: Status) {
    s !in {Succeeded, Failed, Timeout}
  }

  ghost predicate ActiveOn(ops: seq<Operation>, i: int, workload: nat) {
    0 <= i < |ops| && ops[i].workload == workload && Unfinished(ops[i].status)
  }

  ghost predicate OneActivePerWorkload(ops: seq<Operation>) {
    forall w, i, j :: ActiveOn(ops, i, w) && ActiveOn(ops, j, w) ==> i == j
  }

  ghost predicate ActiveAt(rs: seq<RestoreRun>, i: int, cluster: nat, vmid: nat) {
    0 <= i < |rs| && rs[i].cluster == cluster && rs[i].vmid == vmid && Unfinished(rs[i].status)
  }

  ghost predicate OneRestorePerTarget(rs: seq<RestoreRun>) {
    forall c, v, i, j :: ActiveAt(rs, i, c, v) && ActiveAt(rs, j, c, v) ==> i == j
  }

  /** Every backup operation has its run row, every restore operation its restore row. */
  ghost predicate RunsComplete(t: Tables) {
    && (forall k :: 0 <= k < |t.ops| && t.ops[k].body.Backup? ==> k in t.backupRuns)
    && (forall k :: 0 <= k < |t.ops| && t.ops[k].body.Restore? ==> HasRestore(t.restores, k))
  }

  ghost predicate TablesOk(t: Tables) {
    KeysUnique(t.ops) && OneActivePerWorkload(t.ops) && OneRestorePerTarget(t.restores) && RunsComplete(t)
  }

  /** The operation a request was accepted with, created or died with. */
  function Named(p: Process): Option<nat> {
    match p.place
    case Answered(Accepted(k, _)) => Some(k)
    case Committed(k) => Some(k)
    case Died(made) => made
    case _ => None
  }

  /** It has the request's own user, key and body. */
  ghost predicate ReplyOk(t: Tables, p: Process) {
    Named(p).Some? ==>
      && Named(p).value < |t.ops|
      && HasKey(t.ops[Named(p).value], p.rq.user, p.rq.key)
      && t.ops[Named(p).value].body == p.rq.body
  }

  /** The request whose commit made the operation, answered or not. */
  predicate Creator(p: Process, k: nat) {
    p.place == Committed(k) || p.place == Answered(Accepted(k, true)) || p.place == Died(Some(k))
  }

  /** Each operation was created by exactly one request. */
  ghost predicate OneCreator(s: System) {
    && (forall k, i, j :: 0 <= i < |s.procs| && 0 <= j < |s.procs| ==>
          Creator(s.procs[i], k) && Creator(s.procs[j], k) ==> i == j)
    && (forall k :: 0 <= k < |s.t.ops| ==> HasCreator(s, k))
  }

  ghost predicate HasCreator(s: System, k: nat) {
    exists i :: 0 <= i < |s.procs| && Creator(s.procs[i], k)
  }

  ghost predicate Inv(s: System) {
    TablesOk(s.t) && (forall i :: 0 <= i < |s.procs| ==> ReplyOk(s.t, s.procs[i])) && OneCreator(s)
  }

  // ----- every step keeps it ------------------------------------------------------------

  /** Rows never disappear and never change who asked for what; only statuses move. */
  ghost predicate OpsPersist(before: seq<Operation>, after: seq<Operation>) {
    && |before| <= |after|
    && forall k :: 0 <= k < |before| ==> after[k] == before[k].(status := after[k].status)
  }

  /** Requests stay what they asked for, and their ends are final. */
  ghost predicate EndsPersist(before: seq<Process>, after: seq<Process>) {
    && |before| <= |after|
    && forall i :: 0 <= i < |before| ==>
         && after[i].rq == before[i].rq
         && (before[i].place.Answered? || before[i].place.Died? ==> after[i] == before[i])
  }

  lemma InsertKeepsTables(t: Tables, rq: Request)
    requires TablesOk(t) && !Rejected(t, rq)
    ensures TablesOk(Insert(t, rq)) && OpsPersist(t.ops, Insert(t, rq).ops)
  {
    var t' := Insert(t, rq);
    var n := |t.ops|;
    assert forall i :: 0 <= i < n ==> t'.ops[i] == t.ops[i];
    forall w, i, j | ActiveOn(t'.ops, i, w) && ActiveOn(t'.ops, j, w)
      ensures i == j
    {
      if i < n && j < n {
        assert ActiveOn(t.ops, i, w) && ActiveOn(t.ops, j, w);
      }
    }
    forall c, v, i, j | ActiveAt(t'.restores, i, c, v) && ActiveAt(t'.restores, j, c, v)
      ensures i == j
    {
      if i < |t.restores| && j < |t.restores| {
        assert ActiveAt(t.restores, i, c, v) && ActiveAt(t.restores, j, c, v);
      }
    }
    forall k | 0 <= k < |t'.ops| && t'.ops[k].body.Restore?
      ensures HasRestore(t'.restores, k)
    {
      if k < n {
        var i :| 0 <= i < |t.restores| && t.restores[i].op == k;
        assert t'.restores[i].op == k;
      } else {
        assert t'.restores[|t.restores|].op == n;
      }
    }
  }

  lemma WorkerKeepsTables(t: Tables, k: nat, status: Status)
    requires TablesOk(t)
    ensures TablesOk(WorkerWrites(t, k, status)) && OpsPersist(t.ops, WorkerWrites(t, k, status).ops)
  {
    var t' := WorkerWrites(t, k, status);
    forall w, i, j | ActiveOn(t'.ops, i, w) && ActiveOn(t'.ops, j, w)
      ensures i == j
    {
      assert i != k ==> ActiveOn(t.ops, i, w);
      assert j != k ==> ActiveOn(t.ops, j, w);
      if (i == k || j == k) && ActiveStatus(t.ops[k].status) {
        assert ActiveOn(t.ops, k, w);
      }
    }
  }

  lemma RestoreWorkerKeepsTables(t: Tables, r: nat, status: Status)
    requires TablesOk(t)
    ensures TablesOk(WorkerWritesRestore(t, r, status))
  {
    var t' := WorkerWritesRestore(t, r, status);
    forall c, v, i, j | ActiveAt(t'.restores, i, c, v) && ActiveAt(t'.restores, j, c, v)
      ensures i == j
    {
      assert i != r ==> ActiveAt(t.restores, i, c, v);
      assert j != r ==> ActiveAt(t.restores, j, c, v);
      if (i == r || j == r) && ActiveStatus(t.restores[r].status) {
        assert ActiveAt(t.restores, r, c, v);
      }
    }
    forall k | HasRestore(t.restores, k)
      ensures HasRestore(t'.restores, k)
    {
      var i :| 0 <= i < |t.restores| && t.restores[i].op == k;
      assert t'.restores[i].op == k;
    }
  }

  lemma TablesStep(s: System, a: Action)
    requires TablesOk(s.t)
    ensures TablesOk(Next(s, a).t) && OpsPersist(s.t.ops, Next(s, a).t.ops)
  {
    match a
    case Inserts(i) =>
      if At(s, i) == Inserting && !Rejected(s.t, s.procs[i].rq) {
        InsertKeepsTables(s.t, s.procs[i].rq);
      }
    case WorkerSets(k, status) => WorkerKeepsTables(s.t, k, status);
    case WorkerSetsRestore(r, status) => RestoreWorkerKeepsTables(s.t, r, status);
    case _ =>
  }

  lemma EndsStay(s: System, a: Action)
    ensures EndsPersist(s.procs, Next(s, a).procs)
  {
  }

  /** What a request names after a step, it named before, found by its key, or made. */
  lemma NamedStep(s: System, a: Action, i: nat)
    requires i < |Next(s, a).procs| && (i < |s.procs| ==> ReplyOk(s.t, s.procs[i]))
    requires OpsPersist(s.t.ops, Next(s, a).t.ops)
    ensures ReplyOk(Next(s, a).t, Next(s, a).procs[i])
  {
  }

  /** Every answer stays sound, and a new one is. */
  lemma AnswersStep(s: System, a: Action)
    requires Inv(s)
    ensures forall i :: 0 <= i < |Next(s, a).procs| ==> ReplyOk(Next(s, a).t, Next(s, a).procs[i])
  {
    TablesStep(s, a);
    forall i | 0 <= i < |Next(s, a).procs|
      ensures ReplyOk(Next(s, a).t, Next(s, a).procs[i])
    {
      NamedStep(s, a, i);
    }
    hide Next, ReplyOk;
  }

  lemma CreatorsStep(s: System, a: Action)
    requires Inv(s)
    ensures OneCreator(Next(s, a))
  {
    var s' := Next(s, a);
    AnswersStep(s, a);
    forall k | 0 <= k < |s'.t.ops|
      ensures HasCreator(s', k)
    {
      if k < |s.t.ops| {
        assert HasCreator(s, k);
        var i :| 0 <= i < |s.procs| && Creator(s.procs[i], k);
        CreatorStays(s, a, i, k);
      } else {
        assert Creator(s'.procs[a.i], k);
      }
    }
    forall k, i, j | 0 <= i < |s'.procs| && 0 <= j < |s'.procs| && Creator(s'.procs[i], k) && Creator(s'.procs[j], k)
      ensures i == j
    {
      NewCreatorIsNew(s, a, i, k);
      NewCreatorIsNew(s, a, j, k);
      assert i < |s.procs| && Creator(s.procs[i], k) ==> ReplyOk(s.t, s.procs[i]);
      assert j < |s.procs| && Creator(s.procs[j], k) ==> ReplyOk(s.t, s.procs[j]);
    }
  }

  lemma CreatorStays(s: System, a: Action, i: nat, k: nat)
    requires i < |s.procs| && Creator(s.procs[i], k)
    ensures i < |Next(s, a).procs| && Creator(Next(s, a).procs[i], k)
  {
  }

  /** A request that turns creator in a step created the newest row. */
  lemma NewCreatorIsNew(s: System, a: Action, i: nat, k: nat)
    requires i < |Next(s, a).procs| && Creator(Next(s, a).procs[i], k)
    ensures (i < |s.procs| && Creator(s.procs[i], k)) || (a == Inserts(i) && k == |s.t.ops|)
  {
  }

  lemma NextKeepsInv(s: System, a: Action)
    requires Inv(s)
    ensures Inv(Next(s, a))
  {
    TablesStep(s, a);
    AnswersStep(s, a);
    CreatorsStep(s, a);
  }

  lemma {:induction false} ExecKeepsInv(s: System, actions: seq<Action>)
    requires Inv(s)
    ensures Inv(Exec(s, actions))
  {
    if actions != [] {
      ExecKeepsInv(s, actions[..|actions| - 1]);
      NextKeepsInv(Exec(s, actions[..|actions| - 1]), actions[|actions| - 1]);
    }
  }

  // ----- what callers may rely on ---------------------------------------------------------

  /** In every interleaving: one operation per user and key, one active operation per
      workload, one active restore per target; every accepted reply names the operation of
      its own key and body, and all accepted replies for a key name the same one. Exactly
      one request made each operation, and it has answered so, is about to, or has died. */
  lemma AdmissionInEveryInterleaving(actions: seq<Action>)
    ensures var s := Exec(Empty, actions);
      && KeysUnique(s.t.ops) && OneActivePerWorkload(s.t.ops) && OneRestorePerTarget(s.t.restores)
      && (forall i :: 0 <= i < |s.procs| ==> ReplyOk(s.t, s.procs[i]))
      && OneCreator(s)
      && forall i, j :: 0 <= i < |s.procs| && 0 <= j < |s.procs| && BothAccepted(s.procs[i], s.procs[j])
           && s.procs[i].rq.user == s.procs[j].rq.user && s.procs[i].rq.key == s.procs[j].rq.key
           ==> s.procs[i].place.reply.op == s.procs[j].place.reply.op && s.procs[i].rq.body == s.procs[j].rq.body
  {
    ExecKeepsInv(Empty, actions);
    var s := Exec(Empty, actions);
    forall i, j | 0 <= i < |s.procs| && 0 <= j < |s.procs| && BothAccepted(s.procs[i], s.procs[j])
                  && s.procs[i].rq.user == s.procs[j].rq.user && s.procs[i].rq.key == s.procs[j].rq.key
      ensures s.procs[i].place.reply.op == s.procs[j].place.reply.op && s.procs[i].rq.body == s.procs[j].rq.body
    {
      assert ReplyOk(s.t, s.procs[i]) && ReplyOk(s.t, s.procs[j]);
    }
  }

  predicate BothAccepted(p: Process, q: Process) {
    p.place.Answered? && p.place.reply.Accepted? && q.place.Answered? && q.place.reply.Accepted?
  }

  lemma {:induction false} RowsPersist(s: System, actions: seq<Action>)
    requires TablesOk(s.t)
    ensures TablesOk(Exec(s, actions).t) && OpsPersist(s.t.ops, Exec(s, actions).t.ops)
    ensures EndsPersist(s.procs, Exec(s, actions).procs)
  {
    if actions != [] {
      var n := |actions| - 1;
      RowsPersist(s, actions[..n]);
      EndsStay(Exec(s, actions[..n]), actions[n]);
      TablesStep(Exec(s, actions[..n]), actions[n]);
    }
  }

  /** Replay. Once an operation exists for a key, then however the system moves on, a request
      with that key is answered from it: the same operation for the same body (and, for a
      customer, the same owner), never a second one; reuse for another body is refused. */
  lemma ReplayFindsTheOperation(s: System, k: nat, actions: seq<Action>, i: nat)
    requires TablesOk(s.t) && k < |s.t.ops|
    requires var s' := Exec(s, actions);
      At(s', i) == ReadingKey && HasKey(s.t.ops[k], s'.procs[i].rq.user, s'.procs[i].rq.key)
    ensures var s' := Exec(s, actions);
      var rq := s'.procs[i].rq;
      At(Next(s', LooksUpKey(i)), i) == Answered(
        if s.t.ops[k].body != rq.body then KeyReused
        else if rq.body.CustomerPower?
                && (s.t.ops[k].workload != rq.workload || s.t.ops[k].organization != rq.organization)
        then NotFound
        else Accepted(k, false))
  {
    RowsPersist(s, actions);
    var s' := Exec(s, actions);
    var rq := s'.procs[i].rq;
    assert HasKey(s'.t.ops[k], rq.user, rq.key);
    assert FindKey(s'.t.ops, rq.user, rq.key) == Some(k);
  }

  /** A stale read cannot admit a duplicate: whatever a request saw, its insert succeeds
      exactly when at that moment its key is unused, its workload idle and its target free. */
  lemma InsertIsExact(s: System, i: nat)
    requires Inv(s) && At(s, i) == Inserting
    ensures var rq := s.procs[i].rq;
      At(Next(s, Inserts(i)), i) == Committed(|s.t.ops|) <==>
        && (forall k :: 0 <= k < |s.t.ops| ==> !HasKey(s.t.ops[k], rq.user, rq.key))
        && (forall k :: !ActiveOn(s.t.ops, k, rq.workload))
        && (rq.body.Restore? ==> forall r :: !ActiveAt(s.t.restores, r, rq.cluster, rq.body.vmid))
  {
    var rq := s.procs[i].rq;
    var found := FindKey(s.t.ops, rq.user, rq.key);
    if Busy(s.t.ops, rq.workload) {
      var k :| 0 <= k < |s.t.ops| && s.t.ops[k].workload == rq.workload && ActiveStatus(s.t.ops[k].status);
      assert ActiveOn(s.t.ops, k, rq.workload);
    }
    if rq.body.Restore? && TargetTaken(s.t.restores, rq.cluster, rq.body.vmid) {
      var r :| 0 <= r < |s.t.restores| && s.t.restores[r].cluster == rq.cluster
               && s.t.restores[r].vmid == rq.body.vmid && ActiveStatus(s.t.restores[r].status);
      assert ActiveAt(s.t.restores, r, rq.cluster, rq.body.vmid);
    }
  }

  // ----- what is stored, and what it holds up ------------------------------------------

  /** The queued operation of a request, its workload's owner with it unless it restores. */
  ghost predicate IsQueuedFor(op: Operation, rq: Request) {
    && op.user == rq.user && op.key == rq.key && op.body == rq.body && op.workload == rq.workload
    && op.status == Queued
    && match rq.body
       case Restore(_, _, _, _) => op.organization == None
       case _ => op.organization == rq.organization
  }

  /** An insert that is admitted adds the queued operation, with it the run row of a backup or
      the queued restore row of a restore, and changes no other row. */
  lemma InsertStores(s: System, i: nat)
    requires At(s, i) == Inserting && At(Next(s, Inserts(i)), i).Committed?
    ensures var rq := s.procs[i].rq;
      var n := |s.t.ops|;
      var t' := Next(s, Inserts(i)).t;
      && |t'.ops| == n + 1 && t'.ops[..n] == s.t.ops && IsQueuedFor(t'.ops[n], rq)
      && ActiveOn(t'.ops, n, rq.workload)
      && t'.backupRuns == (match rq.body case Backup(_, _, _, _) => s.t.backupRuns + {n} case _ => s.t.backupRuns)
      && match rq.body
         case Restore(_, _, vmid, _) =>
           var r := |s.t.restores|;
           && t'.restores == s.t.restores + [RestoreRun(n, rq.cluster, vmid, Queued)]
           && ActiveAt(t'.restores, r, rq.cluster, vmid)
         case _ => t'.restores == s.t.restores
  {
  }

  /** No worker ends operation `k`. */
  ghost predicate NotEnded(actions: seq<Action>, k: nat) {
    forall j :: 0 <= j < |actions| ==>
      match actions[j]
      case WorkerSets(op, status) => op == k ==> Unfinished(status)
      case _ => true
  }

  ghost predicate RestoreNotEnded(actions: seq<Action>, r: nat) {
    forall j :: 0 <= j < |actions| ==>
      match actions[j]
      case WorkerSetsRestore(run, status) => run == r ==> Unfinished(status)
      case _ => true
  }

  lemma {:induction false} StaysActive(s: System, k: nat, w: nat, actions: seq<Action>)
    requires TablesOk(s.t) && ActiveOn(s.t.ops, k, w) && NotEnded(actions, k)
    ensures TablesOk(Exec(s, actions).t) && ActiveOn(Exec(s, actions).t.ops, k, w)
  {
    if actions != [] {
      var n := |actions| - 1;
      StaysActive(s, k, w, actions[..n]);
      TablesStep(Exec(s, actions[..n]), actions[n]);
      assert NotEnded([actions[n]], k) by { assert [actions[n]][0] == actions[n]; }
      ActiveStep(Exec(s, actions[..n]), k, w, actions[n]);
    }
  }

  lemma ActiveStep(s: System, k: nat, w: nat, a: Action)
    requires ActiveOn(s.t.ops, k, w) && (a.WorkerSets? && a.op == k ==> Unfinished(a.status))
    ensures ActiveOn(Next(s, a).t.ops, k, w)
  {
  }

  lemma {:induction false} RestoreStaysActive(s: System, r: nat, c: nat, v: nat, actions: seq<Action>)
    requires ActiveAt(s.t.restores, r, c, v) && RestoreNotEnded(actions, r)
    ensures ActiveAt(Exec(s, actions).t.restores, r, c, v)
  {
    if actions != [] {
      var n := |actions| - 1;
      RestoreStaysActive(s, r, c, v, actions[..n]);
      RestoreActiveStep(Exec(s, actions[..n]), r, c, v, actions[n]);
    }
  }

  lemma RestoreActiveStep(s: System, r: nat, c: nat, v: nat, a: Action)
    requires ActiveAt(s.t.restores, r, c, v) && (a.WorkerSetsRestore? && a.run == r ==> Unfinished(a.status))
    ensures ActiveAt(Next(s, a).t.restores, r, c, v)
  {
  }

  /** From its admission until a worker ends it, an operation keeps every other request for
      its workload out, whatever that request read before, and leaves the tables alone. */
  lemma AdmittedHoldsTheWorkload(s: System, i: nat, actions: seq<Action>, j: nat)
    requires TablesOk(s.t) && At(s, i) == Inserting && At(Next(s, Inserts(i)), i).Committed?
    requires NotEnded(actions, |s.t.ops|)
    requires var s' := Exec(Next(s, Inserts(i)), actions);
      At(s', j) == Inserting && s'.procs[j].rq.workload == s.procs[i].rq.workload
    ensures var s' := Exec(Next(s, Inserts(i)), actions);
      Next(s', Inserts(j)).t == s'.t && At(Next(s', Inserts(j)), j) == Answered(Conflict)
  {
    var s1, w := Next(s, Inserts(i)), s.procs[i].rq.workload;
    InsertStores(s, i);
    TablesStep(s, Inserts(i));
    StaysActive(s1, |s.t.ops|, w, actions);
    var s' := Exec(s1, actions);
    assert Busy(s'.t.ops, w);
  }

  /** So does a restore with its target. */
  lemma AdmittedHoldsTheTarget(s: System, i: nat, actions: seq<Action>, j: nat)
    requires TablesOk(s.t) && At(s, i) == Inserting && At(Next(s, Inserts(i)), i).Committed?
    requires s.procs[i].rq.body.Restore? && RestoreNotEnded(actions, |s.t.restores|)
    requires var s' := Exec(Next(s, Inserts(i)), actions);
      At(s', j) == Inserting && s'.procs[j].rq.body.Restore?
      && s'.procs[j].rq.cluster == s.procs[i].rq.cluster && s'.procs[j].rq.body.vmid == s.procs[i].rq.body.vmid
    ensures var s' := Exec(Next(s, Inserts(i)), actions);
      Next(s', Inserts(j)).t == s'.t && At(Next(s', Inserts(j)), j) == Answered(Conflict)
  {
    var s1, c, v := Next(s, Inserts(i)), s.procs[i].rq.cluster, s.procs[i].rq.body.vmid;
    InsertStores(s, i);
    RestoreStaysActive(s1, |s.t.restores|, c, v, actions);
    var s' := Exec(s1, actions);
    assert TargetTaken(s'.t.restores, c, v);
  }

  /** A request whose key is unused goes on to look for a conflict, or, to restore, to its
      insert; one that finds its workload held gives up, and any other goes on to insert. */
  lemma LookupsExact(s: System, i: nat)
    requires i < |s.procs|
    ensures var rq := s.procs[i].rq;
      At(s, i) == ReadingKey && (forall k :: 0 <= k < |s.t.ops| ==> !HasKey(s.t.ops[k], rq.user, rq.key)) ==>
        Next(s, LooksUpKey(i))
        == s.(procs := s.procs[i := Process(rq, match rq.body
                                                case Restore(_, _, _, _) => Inserting
                                                case _ => ReadingConflict)])
    ensures var rq := s.procs[i].rq;
      At(s, i) == ReadingConflict ==>
        Next(s, LooksForConflict(i))
        == s.(procs := s.procs[i := Process(rq, if exists k :: ActiveOn(s.t.ops, k, rq.workload) then Answered(Conflict)
                                                else Inserting)])
    ensures At(s, i).Committed? ==> At(Next(s, Replies(i)), i) == Answered(Accepted(At(s, i).op, true))
  {
    var rq := s.procs[i].rq;
    if Busy(s.t.ops, rq.workload) {
      var k :| 0 <= k < |s.t.ops| && s.t.ops[k].workload == rq.workload && ActiveStatus(s.t.ops[k].status);
      assert ActiveOn(s.t.ops, k, rq.workload);
    }
  }

  /** What the other steps can change: requests only themselves, workers only a status, and
      an ending always takes effect. A request that dies leaves its rows behind. */
  lemma StepsKeepTheirPlace(s: System, a: Action)
    ensures var s' := Next(s, a);
      && (!a.Inserts? && !a.WorkerSets? && !a.WorkerSetsRestore? ==> s'.t == s.t)
      && (a.WorkerSets? && a.op < |s.t.ops| && !Unfinished(a.status) ==>
            s'.t == s.t.(ops := s.t.ops[a.op := s.t.ops[a.op].(status := a.status)]))
      && (a.WorkerSetsRestore? && a.run < |s.t.restores| && !Unfinished(a.status) ==>
            s'.t == s.t.(restores := s.t.restores[a.run := s.t.restores[a.run].(status := a.status)]))
      && (a.WorkerSets? || a.WorkerSetsRestore? ==> s'.procs == s.procs)
      && (a.Dies? && a.i < |s.procs| ==> At(s', a.i).Answered? || At(s', a.i).Died?)
  {
  }
}
