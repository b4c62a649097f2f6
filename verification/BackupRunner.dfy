/** The backup runner as a step system: one operation, its backup run and task rows, and
    any number of runners that start, stall between two awaits, crash and start again.

    A step is what one runner does between two awaits: it hears the answer to the last one,
    moves on in its own memory, and waits again. A commit is an await like any other, so
    deciding on a write and making it are two steps, and anything may happen between them.
    Only the first transaction of a run is one step: it holds the lock on the operation.
    The environment chooses which runner moves, what Proxmox answers and what time it is. */
module BackupRunner {
  import opened Wrappers

  datatype Status = Queued | Running | Succeeded | Failed | Timeout

  predicate Terminal(s: Status) {
    s == Succeeded || s == Failed || s == Timeout
  }

  datatype Code =
    | TargetOrWorkloadUnavailable | PermissionRevoked | SubmissionStateUnknown
    | PveTaskFailed | PveTaskTimeout | Upstream

  datatype Task = Task(status: Status, pollAttempts: nat)

  /** The committed rows. `runStatus` is `None` when the operation has no backup run row. */
  datatype Db = Db(
    status: Status,
    startedAt: Option<int>,
    heartbeatAt: Option<int>,
    error: Option<Code>,
    retryable: Option<bool>,
    runStatus: Option<Status>,
    tasks: seq<Task>)

  type Positive = n: int | 1 <= n witness 1

  /** `operation_lease_seconds`, `pve_task_timeout_seconds`, `pve_task_max_poll_attempts`. */
  datatype Settings = Settings(lease: nat, taskTimeout: Positive, maxPolls: Positive)

  /** A task row as a runner loaded it: its index and the polls counted so far. */
  datatype Loaded = Loaded(row: nat, polls: nat)

  /** What an ending writes to the task row: nothing, or its status and perhaps its polls. */
  datatype TaskNote = NoTask | StatusOnly(row: nat) | StatusAndPolls(row: nat, polls: nat)

  /** What `_finish` has been told to write. */
  datatype Ending = Ending(at: int, status: Status, error: Option<Code>, retryable: bool, note: TaskNote)

  /** Where a runner waits: for its client, for Proxmox to take the backup or to answer a
      poll, between two polls, or for a commit (`Recording` the task, `Counting` a poll,
      `Finishing`). Task, polls and times are its own copies: the session keeps what it
      loaded across commits. */
  datatype Runner =
    | Opening(known: Option<Loaded>)
    | Submitting
    | Submitted
    | Recording(at: int)
    | Starting(task: nat)
    | Polling(task: nat, attempts: nat, deadline: int)
    | Asking(task: nat, attempts: nat, deadline: int, at: int)
    | Counting(task: nat, attempts: nat, deadline: int, at: int)
    | Finishing(end: Ending)
    | Gone

  /** `submissions` counts calls of `submit_guest_backup`; `seenOk` records that Proxmox has
      reported the task stopped with exit status OK. */
  datatype System = System(db: Db, submissions: nat, seenOk: bool, runners: seq<Runner>)

  datatype PollReply = Retryable | Fatal | StillRunning | Ended(ok: bool)

  datatype Action =
    | Launch(workloadFits: bool, actorFits: bool)
    | ClientOpens(i: nat)
    | ClientFails(i: nat)
    | CallsSubmit(i: nat)
    | SubmitAccepted(i: nat)
    | SubmitRefused(i: nat, timedOut: bool)
    | StartsPolling(i: nat)
    | PollsAgain(i: nat)
    | Hears(i: nat, reply: PollReply)
    | Commits(i: nat)
    | Crashes(i: nat)

  datatype Event = Event(now: int, action: Action)

  // ----- writes -----------------------------------------------------------------

  function Noted(tasks: seq<Task>, status: Status, note: TaskNote): seq<Task> {
    match note
    case NoTask => tasks
    case StatusOnly(t) => if t < |tasks| then tasks[t := tasks[t].(status := status)] else tasks
    case StatusAndPolls(t, n) => if t < |tasks| then tasks[t := Task(status, n)] else tasks
  }

  /** `_finish`: operation, run and task get the status in one commit. A session writes the
      columns that differ from what it loaded; a runner past its first lines has loaded an
      operation without an error (`Inv`), so success leaves the column alone. */
  function Finish(db: Db, end: Ending): Db {
    db.(status := end.status, heartbeatAt := Some(end.at), retryable := Some(end.retryable),
        error := if end.error.Some? then end.error else db.error,
        runStatus := if db.runStatus.Some? then Some(end.status) else None,
        tasks := Noted(db.tasks, end.status, end.note))
  }

  /** A round that goes on polling writes the count and nothing else of the task. */
  function WritePolls(db: Db, t: nat, n: nat): Db {
    if t < |db.tasks| then db.(tasks := db.tasks[t := db.tasks[t].(pollAttempts := n)]) else db
  }

  /** What the commit a runner waits for writes, and where the runner goes on. */
  function Commit(db: Db, r: Runner): (Db, Runner) {
    match r
    case Recording(at) =>
      (db.(tasks := db.tasks + [Task(Running, 0)], heartbeatAt := Some(at)), Starting(|db.tasks|))
    case Counting(t, n, deadline, at) => (WritePolls(db, t, n).(heartbeatAt := Some(at)), Polling(t, n, deadline))
    case Finishing(end) => (Finish(db, end), Gone)
    case _ => (db, r)
  }

  predicate LeaseHeld(cfg: Settings, db: Db, now: int) {
    var start := if db.heartbeatAt.Some? then db.heartbeatAt else db.startedAt;
    start.Some? && start.value > now - cfg.lease
  }

  /** The task row a runner finds when it starts, with the polls recorded in it. */
  function FirstTask(db: Db): Option<Loaded> {
    if db.tasks == [] then None else Some(Loaded(0, db.tasks[0].pollAttempts))
  }

  function Refusal(now: int, error: Code): Ending {
    Ending(now, Failed, Some(error), false, NoTask)
  }

  /** What the locked first transaction of `run` commits, and where it leaves the runner. */
  function Begin(cfg: Settings, db: Db, now: int, workloadFits: bool, actorFits: bool): (Db, Runner) {
    if Terminal(db.status) then (db, Gone)
    else if db.runStatus.None? || !workloadFits then (Finish(db, Refusal(now, TargetOrWorkloadUnavailable)), Gone)
    else if !actorFits then (Finish(db, Refusal(now, PermissionRevoked)), Gone)
    else if db.status == Running && db.tasks == [] then
      if LeaseHeld(cfg, db, now) then (db, Gone)
      else (Finish(db, Refusal(now, SubmissionStateUnknown)), Gone)
    else
      (db.(status := Running, runStatus := Some(Running), heartbeatAt := Some(now),
           startedAt := if db.startedAt.Some? then db.startedAt else Some(now)),
       Opening(FirstTask(db)))
  }

  // ----- what a runner does in its own memory ------------------------------------

  /** The guard of the polling loop: ask once more, or give up. */
  function Round(cfg: Settings, now: int, t: nat, n: nat, deadline: int): Runner {
    if now < deadline && n < cfg.maxPolls then Asking(t, n + 1, deadline, now)
    else Finishing(Ending(now, Timeout, Some(PveTaskTimeout), true, StatusOnly(t)))
  }

  /** The body of the loop, once Proxmox has answered. */
  function Heard(now: int, t: nat, n: nat, deadline: int, at: int, reply: PollReply): Runner {
    match reply
    case Retryable | StillRunning => Counting(t, n, deadline, at)
    case Fatal => Finishing(Ending(now, Failed, Some(Upstream), false, StatusAndPolls(t, n)))
    case Ended(ok) =>
      if ok then Finishing(Ending(now, Succeeded, None, false, StatusAndPolls(t, n)))
      else Finishing(Ending(now, Failed, Some(PveTaskFailed), false, StatusAndPolls(t, n)))
  }

  /** The next place of a runner that does not commit. An action that does not fit its place
      leaves it there. */
  function Moved(cfg: Settings, r: Runner, now: int, a: Action): Runner {
    match (r, a)
    case (Opening(None), ClientOpens(_)) => Submitting
    case (Opening(Some(known)), ClientOpens(_)) => Polling(known.row, known.polls, now + cfg.taskTimeout)
    case (Opening(_), ClientFails(_)) => Finishing(Refusal(now, Upstream))
    case (Submitting, CallsSubmit(_)) => Submitted
    case (Submitted, SubmitAccepted(_)) => Recording(now)
    case (Submitted, SubmitRefused(_, timedOut)) =>
      Finishing(Ending(now, if timedOut then Timeout else Failed, Some(Upstream), false, NoTask))
    case (Starting(t), StartsPolling(_)) => Polling(t, 0, now + cfg.taskTimeout)
    case (Polling(t, n, deadline), PollsAgain(_)) => Round(cfg, now, t, n, deadline)
    case (Asking(t, n, deadline, at), Hears(_, reply)) => Heard(now, t, n, deadline, at, reply)
    case (_, Crashes(_)) => Gone
    case _ => r
  }

  // ----- steps ------------------------------------------------------------------

  function At(s: System, i: nat): Runner {
    if i < |s.runners| then s.runners[i] else Gone
  }

  function With(s: System, i: nat, db: Db, r: Runner): System {
    if i < |s.runners| then s.(db := db, runners := s.runners[i := r]) else s
  }

  function Next(cfg: Settings, s: System, e: Event): System {
    match e.action
    case Launch(w, a) =>
      var (db, r) := Begin(cfg, s.db, e.now, w, a);
      s.(db := db, runners := s.runners + [r])
    case Commits(i) =>
      var (db, r) := Commit(s.db, At(s, i));
      With(s, i, db, r)
    case _ =>
      var i := e.action.i;
      var r := At(s, i);
      With(s, i, s.db, Moved(cfg, r, e.now, e.action)).(
        submissions := s.submissions + if r == Submitting && e.action.CallsSubmit? then 1 else 0,
        seenOk := s.seenOk || (r.Asking? && e.action == Hears(i, Ended(true))))
  }

  /** The system after a list of events. */
  function Exec(cfg: Settings, s: System, es: seq<Event>): System {
    if es == [] then s else Next(cfg, Exec(cfg, s, es[..|es| - 1]), es[|es| - 1])
  }

  function Start(withRun: bool): System {
    System(Db(Queued, None, None, None, None, if withRun then Some(Queued) else None, []), 0, false, [])
  }

  // ----- the invariant ------------------------------------------------------------

  /** A runner on its way to creating the task row. */
  predicate Carrier(r: Runner) {
    r == Opening(None) || r == Submitting || r == Submitted || r.Recording?
  }

  ghost predicate OneCarrier(s: System) {
    forall i, j :: 0 <= i < |s.runners| && 0 <= j < |s.runners| && Carrier(s.runners[i]) && Carrier(s.runners[j]) ==>
      i == j
  }

  ghost predicate EndingOk(s: System, end: Ending) {
    && Terminal(end.status)
    && (end.status == Succeeded ==> s.seenOk)
    && (end.status == Succeeded <==> end.error.None?)
    && (end.retryable ==> end.status == Timeout)
  }

  /** What a runner's place says about submissions and task rows. */
  ghost predicate PlaceOk(s: System, r: Runner) {
    match r
    case Opening(None) => s.submissions == 0 && s.db.tasks == []
    case Opening(Some(known)) => known.row < |s.db.tasks|
    case Submitting => s.submissions == 0 && s.db.tasks == []
    case Submitted => s.submissions == 1 && s.db.tasks == []
    case Recording(_) => s.submissions == 1 && s.db.tasks == []
    case Starting(t) => t < |s.db.tasks|
    case Polling(t, _, _) => t < |s.db.tasks|
    case Asking(t, _, _, _) => t < |s.db.tasks|
    case Counting(t, _, _, _) => t < |s.db.tasks|
    case Finishing(end) => EndingOk(s, end)
    case Gone => true
  }

  ghost predicate DbOk(s: System) {
    && s.submissions <= 1
    && |s.db.tasks| <= s.submissions
    && (s.db.status == Queued ==> s.submissions == 0 && forall i :: 0 <= i < |s.runners| ==> s.runners[i] == Gone)
    && (s.db.runStatus.Some? ==> s.db.runStatus.value == s.db.status)
    && (s.db.status == Succeeded ==> s.seenOk)
    && (s.seenOk ==> |s.db.tasks| == 1)
    && (!Terminal(s.db.status) ==> s.db.error == None && s.db.retryable == None)
    && (s.db.status in {Failed, Timeout} ==> s.db.error.Some?)
  }

  ghost predicate Inv(s: System) {
    DbOk(s) && OneCarrier(s) && forall i :: 0 <= i < |s.runners| ==> PlaceOk(s, s.runners[i])
  }

  lemma LaunchKeepsInv(cfg: Settings, s: System, e: Event)
    requires Inv(s) && e.action.Launch?
    ensures Inv(Next(cfg, s, e))
  {
    var s' := Next(cfg, s, e);
    forall i | 0 <= i < |s'.runners|
      ensures PlaceOk(s', s'.runners[i]) && (i < |s.runners| ==> s'.runners[i] == s.runners[i])
    {
      assert i < |s.runners| ==> PlaceOk(s, s.runners[i]);
    }
  }

  /** One runner moves; the others keep their places, and what these say stays true because
      only the one carrier submits and records. */
  lemma OneMoveKeepsInv(s: System, i: nat, s': System)
    requires Inv(s) && i < |s.runners| && s.runners[i] != Gone
    requires |s'.runners| == |s.runners| && s'.runners == s.runners[i := s'.runners[i]]
    requires DbOk(s') && (s.seenOk ==> s'.seenOk) && PlaceOk(s', s'.runners[i])
    requires Carrier(s'.runners[i]) ==> Carrier(s.runners[i])
    requires |s.db.tasks| <= |s'.db.tasks|
    requires s'.submissions != s.submissions || |s'.db.tasks| != |s.db.tasks| ==> Carrier(s.runners[i])
    ensures Inv(s')
  {
    forall j | 0 <= j < |s'.runners|
      ensures PlaceOk(s', s'.runners[j]) && (j != i ==> s'.runners[j] == s.runners[j])
    {
      assert PlaceOk(s, s.runners[j]);
    }
  }

  lemma NextKeepsInv(cfg: Settings, s: System, e: Event)
    requires Inv(s)
    ensures Inv(Next(cfg, s, e))
  {
    if e.action.Launch? {
      LaunchKeepsInv(cfg, s, e);
    } else if e.action.i < |s.runners| && s.runners[e.action.i] != Gone {
      if e.action.Commits? {
        CommitKeepsInv(cfg, s, e);
      } else {
        MoveKeepsInv(cfg, s, e);
      }
    }
  }

  lemma CommitKeepsInv(cfg: Settings, s: System, e: Event)
    requires Inv(s) && e.action.Commits? && e.action.i < |s.runners| && s.runners[e.action.i] != Gone
    ensures Inv(Next(cfg, s, e))
  {
    var i, s' := e.action.i, Next(cfg, s, e);
    assert PlaceOk(s, s.runners[i]);
    OneMoveKeepsInv(s, i, s');
  }

  lemma MoveKeepsInv(cfg: Settings, s: System, e: Event)
    requires Inv(s) && !e.action.Launch? && !e.action.Commits?
    requires e.action.i < |s.runners| && s.runners[e.action.i] != Gone
    ensures Inv(Next(cfg, s, e))
  {
    var i, s' := e.action.i, Next(cfg, s, e);
    assert PlaceOk(s, s.runners[i]);
    OneMoveKeepsInv(s, i, s');
  }

  lemma {:induction false} ExecKeepsInv(cfg: Settings, s: System, es: seq<Event>)
    requires Inv(s)
    ensures Inv(Exec(cfg, s, es))
  {
    if es != [] {
      ExecKeepsInv(cfg, s, es[..|es| - 1]);
      NextKeepsInv(cfg, Exec(cfg, s, es[..|es| - 1]), es[|es| - 1]);
    }
  }

  /** At most one submission, whatever the runners do: duplicate deliveries, crashes at any
      await, expired leases. One submission leaves at most one task row, operation and run
      never disagree, and success means that the one task was seen to end well. */
  lemma AtMostOneSubmission(cfg: Settings, withRun: bool, es: seq<Event>)
    ensures var s := Exec(cfg, Start(withRun), es);
      && s.submissions <= 1 && |s.db.tasks| <= s.submissions
      && (s.db.runStatus.Some? ==> s.db.runStatus.value == s.db.status)
      && (s.db.status == Succeeded ==> s.submissions == 1 && s.seenOk)
  {
    ExecKeepsInv(cfg, Start(withRun), es);
  }

  /** What each kind of step can change. The rows change in the first transaction of a run and
      in commits, the submissions when Proxmox is called, what was seen when Proxmox says so;
      a crash takes its runner and nothing else; and no step moves another runner. */
  lemma StepsKeepTheirPlace(cfg: Settings, s: System, e: Event)
    ensures var s' := Next(cfg, s, e);
      && (!e.action.Launch? && !e.action.Commits? ==> s'.db == s.db)
      && s'.submissions == s.submissions
                           + (if e.action.CallsSubmit? && At(s, e.action.i) == Submitting then 1 else 0)
      && (s'.seenOk <==> s.seenOk
                         || (e.action.Hears? && At(s, e.action.i).Asking? && e.action.reply == Ended(true)))
      && (e.action.Crashes? && e.action.i < |s.runners| ==> s' == s.(runners := s.runners[e.action.i := Gone]))
      && |s'.runners| == |s.runners| + (if e.action.Launch? then 1 else 0)
      && forall j :: 0 <= j < |s.runners| && (e.action.Launch? || j != e.action.i) ==> s'.runners[j] == s.runners[j]
  {
  }

  // ----- when terminal stays terminal -------------------------------------------

  /** Events at or after `now`, in the order of their times. */
  ghost predicate From(now: int, es: seq<Event>) {
    && (forall i :: 0 <= i < |es| ==> now <= es[i].now)
    && (forall i, j :: 0 <= i < j < |es| ==> es[i].now <= es[j].now)
  }

  /** A runner that may still commit a status other than the one in the row: any that has
      not decided how to end, except one that between two polls can only time out where the
      row says so already; and one that is about to commit another status. */
  predicate CanOverwrite(cfg: Settings, now: int, db: Db, r: Runner) {
    match r
    case Gone => false
    case Finishing(end) => end.status != db.status
    case Polling(_, n, deadline) => db.status != Timeout || (now < deadline && n < cfg.maxPolls)
    case Counting(_, n, deadline, _) => db.status != Timeout || (now < deadline && n < cfg.maxPolls)
    case _ => true
  }

  ghost predicate Quiet(cfg: Settings, now: int, s: System) {
    Terminal(s.db.status) && forall i :: 0 <= i < |s.runners| ==> !CanOverwrite(cfg, now, s.db, s.runners[i])
  }

  lemma QuietStep(cfg: Settings, now: int, s: System, e: Event)
    requires Quiet(cfg, now, s) && now <= e.now
    ensures Quiet(cfg, e.now, Next(cfg, s, e)) && Next(cfg, s, e).db.status == s.db.status
  {
    var s' := Next(cfg, s, e);
    assert !e.action.Launch? && e.action.i < |s.runners| ==> !CanOverwrite(cfg, now, s.db, s.runners[e.action.i]);
    forall i | 0 <= i < |s'.runners|
      ensures !CanOverwrite(cfg, e.now, s'.db, s'.runners[i])
    {
      assert i < |s.runners| ==> !CanOverwrite(cfg, now, s.db, s.runners[i]);
    }
  }

  lemma {:induction false} QuietStays(cfg: Settings, now: int, s: System, es: seq<Event>)
    requires Quiet(cfg, now, s) && From(now, es)
    ensures Quiet(cfg, if es == [] then now else es[|es| - 1].now, Exec(cfg, s, es))
    ensures Exec(cfg, s, es).db.status == s.db.status
  {
    if es != [] {
      var n := |es| - 1;
      QuietStays(cfg, now, s, es[..n]);
      QuietStep(cfg, if n == 0 then now else es[n - 1].now, Exec(cfg, s, es[..n]), es[n]);
    }
  }

  lemma ExecSnoc(cfg: Settings, s: System, es: seq<Event>, e: Event)
    ensures Exec(cfg, s, es + [e]) == Next(cfg, Exec(cfg, s, es), e)
  {
    assert (es + [e])[..|es|] == es;
  }

  lemma {:induction false} ExecCons(cfg: Settings, s: System, e: Event, es: seq<Event>)
    ensures Exec(cfg, s, [e] + es) == Exec(cfg, Next(cfg, s, e), es)
  {
    if es == [] {
      assert [e] + es == [] + [e];
      ExecSnoc(cfg, s, [], e);
    } else {
      var n := |es| - 1;
      ExecCons(cfg, s, e, es[..n]);
      assert [e] + es == ([e] + es[..n]) + [es[n]];
      ExecSnoc(cfg, s, [e] + es[..n], es[n]);
    }
  }

  /** How many steps a runner is from a commit that changes the status, at the shortest. */
  function Distance(r: Runner): nat {
    match r
    case Finishing(_) => 0
    case Asking(_, _, _, _) => 1
    case Submitted => 1
    case Submitting => 2
    case Polling(_, _, _) => 2
    case Counting(_, _, _, _) => 3
    case Starting(_) => 3
    case Recording(_) => 4
    case Opening(_) => 3
    case Gone => 0
  }

  /** What the environment has to do next for the runner to change the status. */
  function Provoke(now: int, status: Status, r: Runner, i: nat): Event {
    match r
    case Opening(known) => Event(now, if known.None? || status == Failed then ClientOpens(i) else ClientFails(i))
    case Submitting => Event(now, CallsSubmit(i))
    case Submitted => Event(now, SubmitRefused(i, status == Failed))
    case Starting(_) => Event(now, StartsPolling(i))
    case Polling(_, _, deadline) =>
      Event(if status == Timeout || deadline <= now then now else deadline, PollsAgain(i))
    case Asking(_, _, _, _) => Event(now, Hears(i, if status == Failed then Ended(true) else Fatal))
    case _ => Event(now, Commits(i))
  }

  /** Then the status changes, or the runner comes nearer to changing it. */
  lemma ProvokedNearer(cfg: Settings, now: int, s: System, i: nat)
    requires Terminal(s.db.status) && i < |s.runners| && CanOverwrite(cfg, now, s.db, s.runners[i])
    ensures var e := Provoke(now, s.db.status, s.runners[i], i);
      var s' := Next(cfg, s, e);
      && now <= e.now
      && (s'.db.status == s.db.status ==>
            && i < |s'.runners| && CanOverwrite(cfg, e.now, s'.db, s'.runners[i])
            && Distance(s'.runners[i]) < Distance(s.runners[i]))
  {
  }

  /** Some events make a live runner change a terminal status. */
  lemma {:induction false} OverwritingTrace(cfg: Settings, now: int, s: System, i: nat) returns (es: seq<Event>)
    requires Terminal(s.db.status) && i < |s.runners| && CanOverwrite(cfg, now, s.db, s.runners[i])
    ensures From(now, es) && Exec(cfg, s, es).db.status != s.db.status
    decreases Distance(s.runners[i])
  {
    var e := Provoke(now, s.db.status, s.runners[i], i);
    var s' := Next(cfg, s, e);
    ProvokedNearer(cfg, now, s, i);
    var rest: seq<Event> := [];
    if s'.db.status == s.db.status {
      rest := OverwritingTrace(cfg, e.now, s', i);
    }
    es := [e] + rest;
    ExecCons(cfg, s, e, rest);
  }

  /** A terminal status is final exactly when no runner that is still alive can write
      another: new deliveries do no harm, runners that overlap do. */
  lemma TerminalIsFinalIff(cfg: Settings, now: int, s: System)
    requires Terminal(s.db.status)
    ensures (forall es :: From(now, es) ==> Exec(cfg, s, es).db.status == s.db.status)
            <==> (forall i :: 0 <= i < |s.runners| ==> !CanOverwrite(cfg, now, s.db, s.runners[i]))
  {
    if forall i :: 0 <= i < |s.runners| ==> !CanOverwrite(cfg, now, s.db, s.runners[i]) {
      forall es | From(now, es)
        ensures Exec(cfg, s, es).db.status == s.db.status
      {
        QuietStays(cfg, now, s, es);
      }
    } else {
      var i :| 0 <= i < |s.runners| && CanOverwrite(cfg, now, s.db, s.runners[i]);
      var es := OverwritingTrace(cfg, now, s, i);
    }
  }

  // ----- two runs in which it does not stay ------------------------------------------

  /** The row of a backup that was started at time 0. */
  function RunningRow(tasks: seq<Task>): Db {
    Db(Running, Some(0), Some(0), None, None, Some(Running), tasks)
  }

  lemma Step(cfg: Settings, s: System, es: seq<Event>, e: Event, was: System, becomes: System)
    returns (longer: seq<Event>)
    requires Exec(cfg, s, es) == was && Next(cfg, was, e) == becomes
    ensures longer == es + [e] && Exec(cfg, s, longer) == becomes
  {
    ExecSnoc(cfg, s, es, e);
    longer := es + [e];
  }

  /** A runner that has called Proxmox at time 0 and waits for the answer. */
  lemma StalledSubmission(cfg: Settings) returns (es: seq<Event>)
    ensures |es| == 3 && (forall i :: 0 <= i < 3 ==> es[i].now == 0)
    ensures Exec(cfg, Start(true), es) == System(RunningRow([]), 1, false, [Submitted])
  {
    var s0, row := Start(true), RunningRow([]);
    var s1, s2 := System(row, 0, false, [Opening(None)]), System(row, 0, false, [Submitting]);
    assert Exec(cfg, s0, []) == s0;
    hide Exec;
    es := Step(cfg, s0, [], Event(0, Launch(true, true)), s0, s1);
    es := Step(cfg, s0, es, Event(0, ClientOpens(0)), s1, s2);
    es := Step(cfg, s0, es, Event(0, CallsSubmit(0)), s2, System(row, 1, false, [Submitted]));
  }

  /** From there on, at time `now`: Proxmox accepts and the first runner asks for the task. */
  lemma AcceptedAndAsked(cfg: Settings, s: System, before: seq<Event>, was: System, now: int) returns (es: seq<Event>)
    requires Exec(cfg, s, before) == was && At(was, 0) == Submitted && was.db.tasks == []
    ensures |es| == |before| + 4 && es[..|before|] == before
    ensures forall i :: |before| <= i < |es| ==> es[i].now == now
    ensures Exec(cfg, s, es) == With(was, 0, was.db.(tasks := [Task(Running, 0)], heartbeatAt := Some(now)),
                                     Asking(0, 1, now + cfg.taskTimeout, now))
  {
    hide Exec;
    var db, deadline := was.db.(tasks := [Task(Running, 0)], heartbeatAt := Some(now)), now + cfg.taskTimeout;
    var s1, s2 := With(was, 0, was.db, Recording(now)), With(was, 0, db, Starting(0));
    var s3 := With(was, 0, db, Polling(0, 0, deadline));
    es := Step(cfg, s, before, Event(now, SubmitAccepted(0)), was, s1);
    es := Step(cfg, s, es, Event(now, Commits(0)), s1, s2);
    es := Step(cfg, s, es, Event(now, StartsPolling(0)), s2, s3);
    es := Step(cfg, s, es, Event(now, PollsAgain(0)), s3, With(was, 0, db, Asking(0, 1, deadline, now)));
  }

  /** The answer is success, and the runner reports it whatever the row says by then. */
  lemma HeardAndReported(cfg: Settings, s: System, before: seq<Event>, was: System, now: int) returns (es: seq<Event>)
    requires Exec(cfg, s, before) == was && At(was, 0).Asking?
    ensures |es| == |before| + 2 && es[..|before|] == before
    ensures forall i :: |before| <= i < |es| ==> es[i].now == now
    ensures Exec(cfg, s, es).db.status == Succeeded && Exec(cfg, s, es).db.error == was.db.error
  {
    hide Exec;
    var e := Event(now, Hears(0, Ended(true)));
    var s1 := Next(cfg, was, e);
    es := Step(cfg, s, before, e, was, s1);
    assert At(s1, 0).Finishing? && At(s1, 0).end.status == Succeeded && s1.db == was.db;
    es := Step(cfg, s, es, Event(now, Commits(0)), s1, Next(cfg, s1, Event(now, Commits(0))));
  }

  /** A runner whose submission outlasts the lease is declared failed by a second delivery,
      and then reports success. The row keeps the error of the failure. */
  lemma FailedMayBecomeSucceeded(cfg: Settings)
    ensures exists es :: From(0, es) && |es| >= 4
              && Exec(cfg, Start(true), es[..4]).db.status == Failed
              && Exec(cfg, Start(true), es).db.status == Succeeded
              && Exec(cfg, Start(true), es).db.error == Some(SubmissionStateUnknown)
  {
    var s0, late := Start(true), cfg.lease;
    var es := StalledSubmission(cfg);
    hide Exec;
    var s3 := System(RunningRow([]), 1, false, [Submitted]);
    var failed := Finish(RunningRow([]), Refusal(late, SubmissionStateUnknown));
    var s4 := System(failed, 1, false, [Submitted, Gone]);
    var four := Step(cfg, s0, es, Event(late, Launch(true, true)), s3, s4);
    es := AcceptedAndAsked(cfg, s0, four, s4, late);
    es := HeardAndReported(cfg, s0, es, Exec(cfg, s0, es), late);
    assert es[..4] == four;
    assert From(0, es);
  }

  /** No lease need expire: a task row does not hold a second delivery back, so two runners
      poll it, one times out while the other waits for an answer, and the answer is success.
      The row keeps the error of the timeout. */
  lemma TimeoutMayBecomeSucceeded(cfg: Settings)
    ensures exists es :: From(0, es) && |es| >= 11
              && Exec(cfg, Start(true), es[..11]).db.status == Timeout
              && Exec(cfg, Start(true), es).db.status == Succeeded
              && Exec(cfg, Start(true), es).db.error == Some(PveTaskTimeout)
  {
    var s0, t := Start(true), cfg.taskTimeout;
    var es := StalledSubmission(cfg);
    hide Exec;
    es := AcceptedAndAsked(cfg, s0, es, System(RunningRow([]), 1, false, [Submitted]), 0);
    var db, asking := RunningRow([Task(Running, 0)]), Asking(0, 1, t, 0);
    var late := Ending(t, Timeout, Some(PveTaskTimeout), true, StatusOnly(0));
    var s7, s8 := System(db, 1, false, [asking]), System(db, 1, false, [asking, Opening(Some(Loaded(0, 0)))]);
    var s9, s10 := System(db, 1, false, [asking, Polling(0, 0, t)]), System(db, 1, false, [asking, Finishing(late)]);
    var s11 := System(Finish(db, late), 1, false, [asking, Gone]);
    es := Step(cfg, s0, es, Event(0, Launch(true, true)), s7, s8);
    es := Step(cfg, s0, es, Event(0, ClientOpens(1)), s8, s9);
    es := Step(cfg, s0, es, Event(t, PollsAgain(1)), s9, s10);
    var eleven := Step(cfg, s0, es, Event(t, Commits(1)), s10, s11);
    es := HeardAndReported(cfg, s0, eleven, s11, t);
    assert es[..11] == eleven;
    assert From(0, es);
  }

  // ----- runs without overlap -----------------------------------------------------

  predicate AllGone(s: System) {
    forall i :: 0 <= i < |s.runners| ==> s.runners[i] == Gone
  }

  /** Every delivery finds the runners before it finished or crashed. */
  ghost predicate WithoutOverlap(cfg: Settings, s: System, es: seq<Event>) {
    es == [] || (var n := |es| - 1;
      WithoutOverlap(cfg, s, es[..n]) && (es[n].action.Launch? ==> AllGone(Exec(cfg, s, es[..n]))))
  }

  /** Nothing runs beside a terminal status, and success carries no error. */
  ghost predicate Alone(s: System) {
    && (forall i, j :: 0 <= i < |s.runners| && 0 <= j < |s.runners| && s.runners[i] != Gone && s.runners[j] != Gone ==>
          i == j)
    && (Terminal(s.db.status) ==> AllGone(s))
    && (s.db.error.Some? <==> s.db.status in {Failed, Timeout})
    && (s.db.retryable == Some(true) ==> s.db.status == Timeout)
  }

  lemma AloneLaunch(cfg: Settings, s: System, e: Event)
    requires Inv(s) && Alone(s) && AllGone(s) && e.action.Launch?
    ensures Alone(Next(cfg, s, e))
    ensures Terminal(s.db.status) ==> Next(cfg, s, e).db == s.db
  {
  }

  /** A step of the one runner that is alive leaves the others gone. */
  lemma OthersStay(cfg: Settings, s: System, e: Event)
    requires Alone(s) && !e.action.Launch? && e.action.i < |s.runners| && s.runners[e.action.i] != Gone
    ensures |Next(cfg, s, e).runners| == |s.runners|
    ensures forall j :: 0 <= j < |s.runners| && j != e.action.i ==> Next(cfg, s, e).runners[j] == Gone
  {
  }

  lemma AloneMove(cfg: Settings, s: System, e: Event)
    requires Inv(s) && Alone(s) && !e.action.Launch?
    ensures Alone(Next(cfg, s, e))
    ensures Terminal(s.db.status) ==> Next(cfg, s, e).db == s.db
  {
    var i, s' := e.action.i, Next(cfg, s, e);
    if i < |s.runners| && s.runners[i] != Gone {
      assert PlaceOk(s, s.runners[i]);
      OthersStay(cfg, s, e);
    } else {
      assert s'.runners == s.runners;
    }
  }

  lemma AloneStep(cfg: Settings, s: System, e: Event)
    requires Inv(s) && Alone(s) && (e.action.Launch? ==> AllGone(s))
    ensures Alone(Next(cfg, s, e))
    ensures Terminal(s.db.status) ==> Next(cfg, s, e).db == s.db
  {
    if e.action.Launch? {
      AloneLaunch(cfg, s, e);
    } else {
      AloneMove(cfg, s, e);
    }
    hide Next, Alone, Inv;
  }

  /** In crash-and-restart runs that do not overlap, a terminal operation never changes
      again, and it carries an error exactly when it did not succeed. */
  lemma {:induction false} TerminalStaysWithoutOverlap(cfg: Settings, withRun: bool, es: seq<Event>, k: nat)
    requires k <= |es| && WithoutOverlap(cfg, Start(withRun), es)
    ensures Alone(Exec(cfg, Start(withRun), es))
    ensures Terminal(Exec(cfg, Start(withRun), es[..k]).db.status) ==>
      Exec(cfg, Start(withRun), es).db == Exec(cfg, Start(withRun), es[..k]).db
    decreases |es|
  {
    if es != [] {
      var n := |es| - 1;
      TerminalStaysWithoutOverlap(cfg, withRun, es[..n], if k <= n then k else n);
      ExecKeepsInv(cfg, Start(withRun), es[..n]);
      AloneStep(cfg, Exec(cfg, Start(withRun), es[..n]), es[n]);
      if k <= n {
        assert es[..n][..k] == es[..k];
      } else {
        assert es[..k] == es;
      }
    }
  }

  // ----- leases and polls -----------------------------------------------------------

  /** When the last sign of life of a running operation was less than a lease ago. */
  ghost predicate WithinLease(cfg: Settings, db: Db, now: int) {
    match db.heartbeatAt
    case Some(t) => now - t < cfg.lease
    case None => db.startedAt.Some? && now - db.startedAt.value < cfg.lease
  }

  /** While a submission has no answer yet, a delivery leaves it alone exactly as long as its
      lease lasts; after that the delivery fails the operation, and it never submits again. */
  lemma LeaseProtectsSubmission(cfg: Settings, s: System, now: int)
    requires Inv(s) && s.db.status == Running && s.db.tasks == [] && s.db.runStatus.Some?
    ensures var s' := Next(cfg, s, Event(now, Launch(true, true)));
      && (s'.db == s.db <==> WithinLease(cfg, s.db, now))
      && (s'.db != s.db ==> s'.db.status == Failed && s'.db.error == Some(SubmissionStateUnknown))
      && s'.runners == s.runners + [Gone]
  {
  }

  /** Nothing has declared the submission begun at `start` lost. */
  ghost predicate LeaseKept(s: System, start: int) {
    && s.db.status != Queued && s.db.error != Some(SubmissionStateUnknown)
    && (!Terminal(s.db.status) && s.db.tasks == [] ==> s.db.heartbeatAt == Some(start))
    && forall i :: 0 <= i < |s.runners| && s.runners[i].Finishing? ==>
         Terminal(s.runners[i].end.status) && s.runners[i].end.error != Some(SubmissionStateUnknown)
  }

  lemma LeaseKeptStep(cfg: Settings, s: System, e: Event, start: int)
    requires Inv(s) && LeaseKept(s, start) && e.now < start + cfg.lease
    ensures LeaseKept(Next(cfg, s, e), start)
  {
    var s' := Next(cfg, s, e);
    assert !e.action.Launch? && e.action.i < |s.runners| ==> PlaceOk(s, s.runners[e.action.i]);
    forall i | 0 <= i < |s'.runners| && s'.runners[i].Finishing?
      ensures Terminal(s'.runners[i].end.status) && s'.runners[i].end.error != Some(SubmissionStateUnknown)
    {
      if i < |s.runners| && s.runners[i].Finishing? {
        assert s.runners[i].end.error != Some(SubmissionStateUnknown);
      }
    }
  }

  /** The delivery that marks an operation as running is given its full lease: however many
      others come before it is over, none declares the submission lost. */
  lemma {:induction false} SubmissionKeepsItsLease(cfg: Settings, s: System, start: int, es: seq<Event>)
    requires Inv(s) && s.db.status == Queued && s.db.runStatus.Some?
    requires forall i :: 0 <= i < |es| ==> es[i].now < start + cfg.lease
    ensures LeaseKept(Exec(cfg, Next(cfg, s, Event(start, Launch(true, true))), es), start)
  {
    var s1 := Next(cfg, s, Event(start, Launch(true, true)));
    if es != [] {
      var n := |es| - 1;
      SubmissionKeepsItsLease(cfg, s, start, es[..n]);
      LaunchKeepsInv(cfg, s, Event(start, Launch(true, true)));
      ExecKeepsInv(cfg, s1, es[..n]);
      LeaseKeptStep(cfg, Exec(cfg, s1, es[..n]), es[n], start);
    }
  }

  /** The count of polls a runner holds or is about to write. */
  function PollsOf(r: Runner): nat {
    match r
    case Opening(Some(known)) => known.polls
    case Polling(_, n, _) => n
    case Asking(_, n, _, _) => n
    case Counting(_, n, _, _) => n
    case Finishing(end) => if end.note.StatusAndPolls? then end.note.polls else 0
    case _ => 0
  }

  ghost predicate PollsOk(cfg: Settings, s: System) {
    && (forall t :: 0 <= t < |s.db.tasks| ==> s.db.tasks[t].pollAttempts <= cfg.maxPolls)
    && (forall i :: 0 <= i < |s.runners| ==> PollsOf(s.runners[i]) <= cfg.maxPolls)
  }

  lemma PollsStep(cfg: Settings, s: System, e: Event)
    requires PollsOk(cfg, s)
    ensures PollsOk(cfg, Next(cfg, s, e))
  {
    var s' := Next(cfg, s, e);
    if !e.action.Launch? && e.action.i < |s.runners| {
      assert PollsOf(s.runners[e.action.i]) <= cfg.maxPolls;
    }
    forall i | 0 <= i < |s'.runners|
      ensures PollsOf(s'.runners[i]) <= cfg.maxPolls
    {
      assert i < |s.runners| ==> PollsOf(s.runners[i]) <= cfg.maxPolls;
    }
  }

  /** However many runners poll, no task is ever recorded with more polls than allowed. */
  lemma {:induction false} PollsAreBounded(cfg: Settings, withRun: bool, es: seq<Event>)
    ensures PollsOk(cfg, Exec(cfg, Start(withRun), es))
  {
    if es != [] {
      PollsAreBounded(cfg, withRun, es[..|es| - 1]);
      PollsStep(cfg, Exec(cfg, Start(withRun), es[..|es| - 1]), es[|es| - 1]);
    }
  }
}
