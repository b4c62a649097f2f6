/** `BackupOperationRunner.run` from start to end, for one runner that does not crash. */
module BackupRunnerService {
  import opened Wrappers
  import opened BackupRunner

  datatype SubmitAnswer = Upid | TimedOut | Rejected

  /** The steps happened at the times the clock showed. */
  ghost predicate OnTime(es: seq<Event>, clock: nat -> int) {
    forall k :: 0 <= k < |es| ==> es[k].now == clock(k)
  }

  /** The steps that polling may take: asking, hearing and counting for each poll that is
      left, and giving up. */
  function PollSteps(cfg: Settings, attempts: nat): nat {
    if attempts < cfg.maxPolls then 3 * (cfg.maxPolls - attempts) + 2 else 2
  }

  // ----- what a run comes to --------------------------------------------------------

  /** The operation, its run and its tasks end like this; when it was started stays. */
  ghost predicate EndsAs(before: Db, after: Db, status: Status, error: Option<Code>, retryable: bool,
                         tasks: seq<Task>)
  {
    && after.status == status && after.tasks == tasks && after.startedAt == before.startedAt
    && after.retryable == Some(retryable)
    && after.error == (if error.Some? then error else before.error)
    && after.runStatus == (if before.runStatus.Some? then Some(status) else None)
  }

  /** What the environment shows a polling loop: the polls counted before, the deadline, the
      index of the loop's first step, the clock at each step and the answer to each poll. */
  datatype Polls = Polls(counted: nat, deadline: int, start: nat, clock: nat -> int, replies: nat -> PollReply)

  /** Proxmox could not be asked, or says that the task still runs. */
  ghost predicate Undecided(reply: PollReply) {
    reply == Retryable || reply == StillRunning
  }

  /** A poll may be made in round `m`: it is before the deadline, and polls are left. */
  ghost predicate MayAsk(cfg: Settings, w: Polls, m: nat) {
    w.clock(w.start + 3 * m) < w.deadline && w.counted + m < cfg.maxPolls
  }

  /** The poll of round `m` is made and decides nothing. */
  ghost predicate GoesOn(cfg: Settings, w: Polls, m: nat) {
    MayAsk(cfg, w, m) && Undecided(w.replies(w.counted + m + 1))
  }

  ghost predicate AllUndecided(cfg: Settings, w: Polls, m: nat) {
    forall i: nat :: i < m ==> GoesOn(cfg, w, i)
  }

  /** The first answer that decides comes in round `m`, in time. */
  ghost predicate Decides(cfg: Settings, w: Polls, m: nat) {
    AllUndecided(cfg, w, m) && MayAsk(cfg, w, m) && !Undecided(w.replies(w.counted + m + 1))
  }

  /** The loop gives up after `m` rounds without a decision. */
  ghost predicate GivesUp(cfg: Settings, w: Polls, m: nat) {
    AllUndecided(cfg, w, m) && !MayAsk(cfg, w, m)
  }

  ghost predicate DecidedBy(cfg: Settings, w: Polls, m: nat, reply: PollReply) {
    Decides(cfg, w, m) && w.replies(w.counted + m + 1) == reply
  }

  /** Success if the deciding answer is OK, failure if it is any other, timeout without one. */
  ghost predicate StatusOfPolls(cfg: Settings, w: Polls, status: Status) {
    && (status == Succeeded <==> exists m: nat :: DecidedBy(cfg, w, m, Ended(true)))
    && (status == Failed <==> exists m: nat :: DecidedBy(cfg, w, m, Fatal) || DecidedBy(cfg, w, m, Ended(false)))
    && (status == Timeout <==> exists m: nat :: GivesUp(cfg, w, m))
  }

  lemma OneEnd(cfg: Settings, w: Polls, a: nat, b: nat)
    requires Decides(cfg, w, a) || GivesUp(cfg, w, a)
    requires Decides(cfg, w, b) || GivesUp(cfg, w, b)
    ensures a == b
  {
    assert AllUndecided(cfg, w, b) && a < b ==> GoesOn(cfg, w, a);
    assert AllUndecided(cfg, w, a) && b < a ==> GoesOn(cfg, w, b);
  }

  /** A deciding answer to poll `n` of the task ends everything with it. */
  ghost predicate EndsByAnswer(before: Db, after: Db, t: nat, n: nat, reply: PollReply)
    requires t < |before.tasks|
  {
    match reply
    case Ended(true) => EndsAs(before, after, Succeeded, None, false, before.tasks[t := Task(Succeeded, n)])
    case Ended(false) => EndsAs(before, after, Failed, Some(PveTaskFailed), false, before.tasks[t := Task(Failed, n)])
    case _ => EndsAs(before, after, Failed, Some(Upstream), false, before.tasks[t := Task(Failed, n)])
  }

  ghost predicate EndsByTimeout(before: Db, after: Db, t: nat, counted: nat)
    requires t < |before.tasks|
  {
    EndsAs(before, after, Timeout, Some(PveTaskTimeout), true, before.tasks[t := Task(Timeout, counted)])
  }

  /** What round `m` ends the loop with, the task's row and its count of polls included. */
  ghost predicate EndsInRound(cfg: Settings, w: Polls, m: nat, t: nat, before: Db, after: Db)
    requires t < |before.tasks|
  {
    if Decides(cfg, w, m) then EndsByAnswer(before, after, t, w.counted + m + 1, w.replies(w.counted + m + 1))
    else GivesUp(cfg, w, m) && EndsByTimeout(before, after, t, Counted(w, m, t, before))
  }

  /** The polls the row records after `m` rounds. */
  ghost function Counted(w: Polls, m: nat, t: nat, before: Db): nat
    requires t < |before.tasks|
  {
    if m == 0 then before.tasks[t].pollAttempts else w.counted + m
  }

  /** Nothing but the task's count of polls and the sign of life has moved. */
  ghost predicate OnlyCounted(before: Db, now: Db, t: nat, counted: nat)
    requires t < |before.tasks|
  {
    && now.status == before.status && now.error == before.error && now.retryable == before.retryable
    && now.runStatus == before.runStatus && now.startedAt == before.startedAt
    && now.tasks == before.tasks[t := before.tasks[t].(pollAttempts := counted)]
  }

  ghost predicate PollingEnds(cfg: Settings, w: Polls, t: nat, before: Db, after: Db)
    requires t < |before.tasks|
  {
    StatusOfPolls(cfg, w, after.status) && exists m: nat :: EndsInRound(cfg, w, m, t, before, after)
  }

  lemma RoundGivesStatus(cfg: Settings, w: Polls, m: nat, t: nat, before: Db, after: Db)
    requires t < |before.tasks| && EndsInRound(cfg, w, m, t, before, after)
    ensures PollingEnds(cfg, w, t, before, after)
  {
    forall k: nat | Decides(cfg, w, k) || GivesUp(cfg, w, k)
      ensures k == m
    {
      OneEnd(cfg, w, k, m);
    }
    if Decides(cfg, w, m) {
      assert DecidedBy(cfg, w, m, w.replies(w.counted + m + 1));
    }
    hide Decides, GivesUp;
  }

  /** Counting the polls on the way changes nothing of how an answer ends. */
  lemma AnswerEnds(first: Db, round: Db, after: Db, t: nat, counted: nat, n: nat, reply: PollReply)
    requires t < |first.tasks| && OnlyCounted(first, round, t, counted) && EndsByAnswer(round, after, t, n, reply)
    ensures EndsByAnswer(first, after, t, n, reply)
  {
  }

  /** Before round `m` nothing has been decided, and only the count has moved. */
  ghost predicate AtRound(cfg: Settings, w: Polls, m: nat, t: nat, first: Db, now: Db)
    requires t < |first.tasks|
  {
    AllUndecided(cfg, w, m) && OnlyCounted(first, now, t, Counted(w, m, t, first))
  }

  lemma FirstRound(cfg: Settings, w: Polls, t: nat, first: Db)
    requires t < |first.tasks|
    ensures AtRound(cfg, w, 0, t, first, first)
  {
  }

  lemma RoundGoesOn(cfg: Settings, w: Polls, m: nat, t: nat, first: Db, round: Db, next: Db)
    requires t < |first.tasks| && AtRound(cfg, w, m, t, first, round) && MayAsk(cfg, w, m)
    requires Undecided(w.replies(w.counted + m + 1))
    requires t < |round.tasks| && OnlyCounted(round, next, t, w.counted + m + 1)
    ensures AtRound(cfg, w, m + 1, t, first, next)
  {
    var task := first.tasks[t].(pollAttempts := w.counted + m + 1);
    assert round.tasks[t].(pollAttempts := w.counted + m + 1) == task;
    assert round.tasks[t := task] == first.tasks[t := task];
    assert GoesOn(cfg, w, m);
  }

  lemma RoundDecides(cfg: Settings, w: Polls, m: nat, t: nat, first: Db, round: Db, after: Db)
    requires t < |first.tasks| && AtRound(cfg, w, m, t, first, round) && MayAsk(cfg, w, m)
    requires !Undecided(w.replies(w.counted + m + 1)) && t < |round.tasks|
    requires EndsByAnswer(round, after, t, w.counted + m + 1, w.replies(w.counted + m + 1))
    ensures PollingEnds(cfg, w, t, first, after)
    ensures after.status == Succeeded <==> w.replies(w.counted + m + 1) == Ended(true)
  {
    AnswerEnds(first, round, after, t, Counted(w, m, t, first), w.counted + m + 1, w.replies(w.counted + m + 1));
    RoundGivesStatus(cfg, w, m, t, first, after);
    hide PollingEnds, AllUndecided;
  }

  lemma RoundGivesUp(cfg: Settings, w: Polls, m: nat, t: nat, first: Db, round: Db, after: Db)
    requires t < |first.tasks| && AtRound(cfg, w, m, t, first, round) && !MayAsk(cfg, w, m)
    requires t < |round.tasks| && EndsByTimeout(round, after, t, round.tasks[t].pollAttempts)
    ensures PollingEnds(cfg, w, t, first, after) && after.status == Timeout
  {
    assert EndsByTimeout(first, after, t, Counted(w, m, t, first));
    RoundGivesStatus(cfg, w, m, t, first, after);
    hide PollingEnds, AllUndecided;
  }

  lemma PollingIsTerminal(cfg: Settings, w: Polls, t: nat, before: Db, after: Db)
    requires t < |before.tasks| && PollingEnds(cfg, w, t, before, after)
    ensures Terminal(after.status)
  {
    var m: nat :| EndsInRound(cfg, w, m, t, before, after);
    hide Decides, GivesUp;
  }

  /** What a run comes to after its first transaction, from the rows this has left. */
  ghost predicate WatchEnds(cfg: Settings, begun: Db, clock: nat -> int, opens: bool, answer: SubmitAnswer,
                            replies: nat -> PollReply, after: Db, calls: int)
  {
    if !opens then EndsAs(begun, after, Failed, Some(Upstream), false, begun.tasks) && calls == 0
    else if begun.tasks != [] then
      var w := Polls(begun.tasks[0].pollAttempts, clock(1) + cfg.taskTimeout, 2, clock, replies);
      PollingEnds(cfg, w, 0, begun, after) && calls == 0
    else
      calls == 1
      && match answer
         case TimedOut => EndsAs(begun, after, Timeout, Some(Upstream), false, [])
         case Rejected => EndsAs(begun, after, Failed, Some(Upstream), false, [])
         case Upid =>
           var submitted := begun.(tasks := [Task(Running, 0)], heartbeatAt := Some(clock(3)));
           PollingEnds(cfg, Polls(0, clock(5) + cfg.taskTimeout, 6, clock, replies), 0, submitted, after)
  }

  /** The rows as the first transaction leaves them for a run that goes on. */
  ghost predicate IsBegun(before: Db, begun: Db, now: int) {
    && begun.status == Running && begun.runStatus == Some(Running) && begun.heartbeatAt == Some(now)
    && begun.startedAt == (if before.startedAt.Some? then before.startedAt else Some(now))
    && begun.tasks == before.tasks && begun.error == before.error && begun.retryable == before.retryable
  }

  /** What one run that nobody disturbs comes to, and how often it calls for a backup. The
      step with index `k` of the run happens at `clock(k)`. */
  ghost predicate RunEnds(cfg: Settings, before: Db, workloadFits: bool, actorFits: bool, clock: nat -> int,
                          opens: bool, answer: SubmitAnswer, replies: nat -> PollReply, after: Db, calls: int)
  {
    if before.status !in {Queued, Running} then after == before && calls == 0
    else if before.runStatus.None? || !workloadFits then
      EndsAs(before, after, Failed, Some(TargetOrWorkloadUnavailable), false, before.tasks) && calls == 0
    else if !actorFits then EndsAs(before, after, Failed, Some(PermissionRevoked), false, before.tasks) && calls == 0
    else if before.status == Running && before.tasks == [] then
      calls == 0
      && if WithinLease(cfg, before, clock(0)) then after == before
         else EndsAs(before, after, Failed, Some(SubmissionStateUnknown), false, [])
    else
      exists begun :: IsBegun(before, begun, clock(0))
                      && WatchEnds(cfg, begun, clock, opens, answer, replies, after, calls)
  }

  class BackupOperationRunner {
    const settings: Settings
    var db: Db
    var submissions: nat
    var seenOk: bool

    function Committed(): System
      reads this
    {
      System(db, submissions, seenOk, [])
    }

    constructor (settings: Settings, db: Db)
      ensures this.settings == settings && Committed() == System(db, 0, false, [])
    {
      this.settings, this.db, submissions, seenOk := settings, db, 0, false;
    }

    /** The events `es` lead from `before` to the rows as they are, with the runner at `r`. */
    ghost predicate Reached(before: System, es: seq<Event>, clock: nat -> int, r: Runner)
      reads this
    {
      Exec(settings, before, es) == Committed().(runners := [r]) && OnTime(es, clock)
    }

    /** `_finish`, with what its caller has set on the task. */
    method Finish(end: Ending)
      modifies this`db
      ensures db == BackupRunner.Finish(old(db), end)
    {
      db := db.(status := end.status);
      db := db.(heartbeatAt := Some(end.at));
      if end.error.Some? {
        db := db.(error := end.error);
      }
      db := db.(retryable := Some(end.retryable));
      if db.runStatus.Some? {
        db := db.(runStatus := Some(end.status));
      }
      db := db.(tasks := Noted(db.tasks, end.status, end.note));
    }

    /** A step the runner takes in its own memory. */
    ghost method Notes(now: int, a: Action, before: System, es: seq<Event>, clock: nat -> int, r: Runner)
      returns (longer: seq<Event>)
      requires Reached(before, es, clock, r) && now == clock(|es|)
      requires !a.Launch? && !a.Commits? && a.i == 0
      ensures longer == es + [Event(now, a)] && OnTime(longer, clock)
      ensures Exec(settings, before, longer)
              == System(db, submissions + if r == Submitting && a.CallsSubmit? then 1 else 0,
                        seenOk || (r.Asking? && a == Hears(0, Ended(true))), [Moved(settings, r, now, a)])
    {
      ExecSnoc(settings, before, es, Event(now, a));
      longer := es + [Event(now, a)];
    }

    /** A commit the runner has just made. */
    ghost method Wrote(was: Db, now: int, before: System, es: seq<Event>, clock: nat -> int, r: Runner)
      returns (longer: seq<Event>)
      requires Exec(settings, before, es) == System(was, submissions, seenOk, [r]) && OnTime(es, clock)
      requires now == clock(|es|) && db == Commit(was, r).0
      ensures longer == es + [Event(now, Commits(0))] && Reached(before, longer, clock, Commit(was, r).1)
    {
      ExecSnoc(settings, before, es, Event(now, Commits(0)));
      longer := es + [Event(now, Commits(0))];
    }

    /** The locked first transaction: refuse, leave to the lease holder, or mark as running.
        `proceed` tells whether there is anything to do after it. */
    method Acquire(now: int, workloadFits: bool, actorFits: bool) returns (proceed: bool)
      modifies this`db
      ensures var (db', r) := Begin(settings, old(db), now, workloadFits, actorFits);
        db == db' && (proceed <==> r != Gone)
    {
      if db.status in {Succeeded, Failed, Timeout} {
        return false;
      }
      if db.runStatus.None? || !workloadFits {
        Finish(Ending(now, Failed, Some(TargetOrWorkloadUnavailable), false, NoTask));
        return false;
      }
      if !actorFits {
        Finish(Ending(now, Failed, Some(PermissionRevoked), false, NoTask));
        return false;
      }
      if db.status == Running && |db.tasks| == 0 {
        var leaseStart := if db.heartbeatAt.Some? then db.heartbeatAt else db.startedAt;
        if leaseStart.Some? && leaseStart.value > now - settings.lease {
          return false;
        }
        Finish(Ending(now, Failed, Some(SubmissionStateUnknown), false, NoTask));
        return false;
      }
      db := db.(status := Running);
      if db.startedAt.None? {
        db := db.(startedAt := Some(now));
      }
      db := db.(heartbeatAt := Some(now));
      db := db.(runStatus := Some(Running));
      return true;
    }

    /** What the loop does with an answer: go on, or end. */
    method TakeAnswer(t: nat, n: nat, deadline: int, askedAt: int, k: nat, clock: nat -> int, reply: PollReply,
                      ghost before: System, ghost log: seq<Event>)
      returns (finished: bool, ghost es: seq<Event>)
      requires |log| == k && t < |db.tasks| && Reached(before, log, clock, Asking(t, n, deadline, askedAt))
      modifies this`db, this`seenOk
      ensures |es| == k + 2 && |db.tasks| == old(|db.tasks|)
      ensures Reached(before, es, clock, if finished then Gone else Polling(t, n, deadline))
      ensures finished <==> !Undecided(reply)
      ensures seenOk == (old(seenOk) || reply == Ended(true))
      ensures if finished then EndsByAnswer(old(db), db, t, n, reply) else OnlyCounted(old(db), db, t, n)
    {
      hide Exec;
      var now := clock(k);
      es := Notes(now, Hears(0, reply), before, log, clock, Asking(t, n, deadline, askedAt));
      ghost var was := db;
      match reply
      case Retryable | StillRunning =>
        db := db.(tasks := db.tasks[t := db.tasks[t].(pollAttempts := n)]);
        db := db.(heartbeatAt := Some(askedAt));
        es := Wrote(was, clock(k + 1), before, es, clock, Counting(t, n, deadline, askedAt));
        return false, es;
      case Fatal =>
        var end := Ending(now, Failed, Some(Upstream), false, StatusAndPolls(t, n));
        Finish(end);
        es := Wrote(was, clock(k + 1), before, es, clock, Finishing(end));
        return true, es;
      case Ended(ok) =>
        seenOk := seenOk || ok;
        var end := if ok then Ending(now, Succeeded, None, false, StatusAndPolls(t, n))
                   else Ending(now, Failed, Some(PveTaskFailed), false, StatusAndPolls(t, n));
        Finish(end);
        es := Wrote(was, clock(k + 1), before, es, clock, Finishing(end));
        return true, es;
    }

    /** One round of the loop in which a poll may be made. */
    method AskOnce(t: nat, attempts: nat, deadline: int, k: nat, clock: nat -> int, reply: PollReply,
                   ghost before: System, ghost log: seq<Event>)
      returns (finished: bool, ghost es: seq<Event>)
      requires |log| == k && t < |db.tasks| && Reached(before, log, clock, Polling(t, attempts, deadline))
      requires clock(k) < deadline && attempts < settings.maxPolls
      modifies this`db, this`seenOk
      ensures |es| == k + 3 && |db.tasks| == old(|db.tasks|)
      ensures Reached(before, es, clock, if finished then Gone else Polling(t, attempts + 1, deadline))
      ensures finished <==> !Undecided(reply)
      ensures seenOk == (old(seenOk) || reply == Ended(true)) && (reply == Ended(true) ==> finished)
      ensures if finished then EndsByAnswer(old(db), db, t, attempts + 1, reply)
              else OnlyCounted(old(db), db, t, attempts + 1)
    {
      hide Exec;
      es := Notes(clock(k), PollsAgain(0), before, log, clock, Polling(t, attempts, deadline));
      finished, es := TakeAnswer(t, attempts + 1, deadline, clock(k), k + 1, clock, reply, before, es);
    }

    /** What follows the loop: no poll may be made any more. */
    method GiveUp(t: nat, attempts: nat, deadline: int, k: nat, clock: nat -> int,
                  ghost before: System, ghost log: seq<Event>)
      returns (ghost es: seq<Event>)
      requires |log| == k && t < |db.tasks| && Reached(before, log, clock, Polling(t, attempts, deadline))
      requires !(clock(k) < deadline && attempts < settings.maxPolls)
      modifies this`db
      ensures |es| == k + 2 && Reached(before, es, clock, Gone)
      ensures EndsByTimeout(old(db), db, t, old(db).tasks[t].pollAttempts)
    {
      hide Exec;
      var now := clock(k);
      es := Notes(now, PollsAgain(0), before, log, clock, Polling(t, attempts, deadline));
      ghost var was := db;
      var end := Ending(now, Timeout, Some(PveTaskTimeout), true, StatusOnly(t));
      Finish(end);
      es := Wrote(was, clock(k + 1), before, es, clock, Finishing(end));
    }

    /** The loop is at its guard for the `m`-th time and nothing has been decided. */
    ghost predicate InLoop(w: Polls, m: nat, t: nat, first: Db, seen: bool, before: System, es: seq<Event>)
      reads this
    {
      && t < |first.tasks| && t < |db.tasks| && |es| == w.start + 3 * m
      && Reached(before, es, w.clock, Polling(t, w.counted + m, w.deadline))
      && AtRound(settings, w, m, t, first, db) && seenOk == seen
    }

    /** The polling has come to what its answers say. */
    ghost predicate LoopEnds(w: Polls, m: nat, t: nat, first: Db, seen: bool, before: System, es: seq<Event>)
      reads this
    {
      && t < |first.tasks| && |es| <= w.start + 3 * m + 3
      && PollingEnds(settings, w, t, first, db) && seenOk == (seen || db.status == Succeeded)
      && Reached(before, es, w.clock, Gone)
    }

    method OneRound(w: Polls, m: nat, t: nat, ghost first: Db, ghost before: System, ghost log: seq<Event>)
      returns (finished: bool, ghost es: seq<Event>)
      requires InLoop(w, m, t, first, seenOk, before, log) && MayAsk(settings, w, m)
      modifies this`db, this`seenOk
      ensures if finished then LoopEnds(w, m, t, first, old(seenOk), before, es)
              else InLoop(w, m + 1, t, first, old(seenOk), before, es)
    {
      ghost var round := db;
      var n := w.counted + m + 1;
      hide Exec, PollingEnds, EndsByAnswer, OnlyCounted, Reached, AtRound, Undecided;
      finished, es := AskOnce(t, n - 1, w.deadline, w.start + 3 * m, w.clock, w.replies(n), before, log);
      if finished {
        RoundDecides(settings, w, m, t, first, round, db);
      } else {
        RoundGoesOn(settings, w, m, t, first, round, db);
      }
    }

    method LastRound(w: Polls, m: nat, t: nat, ghost first: Db, ghost before: System, ghost log: seq<Event>)
      returns (ghost es: seq<Event>)
      requires InLoop(w, m, t, first, seenOk, before, log) && !MayAsk(settings, w, m)
      modifies this`db
      ensures LoopEnds(w, m, t, first, seenOk, before, es) && |es| == w.start + 3 * m + 2
    {
      ghost var round := db;
      hide Exec, PollingEnds, EndsByTimeout, OnlyCounted, Reached, AtRound;
      es := GiveUp(t, w.counted + m, w.deadline, w.start + 3 * m, w.clock, before, log);
      RoundGivesUp(settings, w, m, t, first, round, db);
    }

    /** `_poll`: ask Proxmox until the task ends, the deadline passes or the polls are used up.
        `replies(n)` is its answer to the task's `n`-th poll; the step with index `k` of the run
        happens at `clock(k)`. Polling takes no more steps than the polls that are left allow. */
    method Poll(t: nat, polls: nat, deadline: int, start: nat, clock: nat -> int, replies: nat -> PollReply,
                ghost before: System, ghost log: seq<Event>)
      returns (ghost es: seq<Event>)
      requires |log| == start && t < |db.tasks| && Reached(before, log, clock, Polling(t, polls, deadline))
      modifies this`db, this`seenOk
      ensures PollingEnds(settings, Polls(polls, deadline, start, clock, replies), t, old(db), db)
      ensures seenOk == (old(seenOk) || db.status == Succeeded)
      ensures Reached(before, es, clock, Gone)
      ensures |es| <= start + PollSteps(settings, polls)
    {
      es := log;
      var attempts, m := polls, 0;
      var w := Polls(polls, deadline, start, clock, replies);
      ghost var first := db;
      FirstRound(settings, w, t, first);
      assert InLoop(w, 0, t, first, seenOk, before, es);
      hide Exec, PollingEnds, Reached, AtRound, InLoop;
      while clock(start + 3 * m) < deadline && attempts < settings.maxPolls
        invariant InLoop(w, m, t, first, old(seenOk), before, es)
        invariant attempts == polls + m && (m > 0 ==> attempts <= settings.maxPolls)
        decreases settings.maxPolls - attempts
      {
        attempts := attempts + 1;
        var finished;
        assert seenOk == old(seenOk) by { LoopKeepsSeen(w, m, t, first, old(seenOk), before, es); }
        finished, es := OneRound(w, m, t, first, before, es);
        if finished {
          return;
        }
        m := m + 1;
      }
      LoopKeepsSeen(w, m, t, first, old(seenOk), before, es);
      es := LastRound(w, m, t, first, before, es);
    }

    lemma LoopKeepsSeen(w: Polls, m: nat, t: nat, first: Db, seen: bool, before: System, es: seq<Event>)
      requires InLoop(w, m, t, first, seen, before, es)
      ensures seenOk == seen
    {
    }

    /** Proxmox has taken the backup: record its task. */
    method RecordTask(k: nat, clock: nat -> int, ghost before: System, ghost log: seq<Event>)
      returns (ghost es: seq<Event>)
      requires db.tasks == [] && |log| == k && Reached(before, log, clock, Submitted)
      modifies this`db
      ensures db == old(db).(tasks := [Task(Running, 0)], heartbeatAt := Some(clock(k)))
      ensures |es| == k + 2 && Reached(before, es, clock, Starting(0))
    {
      hide Exec;
      var now := clock(k);
      ghost var was := db;
      es := Notes(now, SubmitAccepted(0), before, log, clock, Submitted);
      db := db.(tasks := db.tasks + [Task(Running, 0)], heartbeatAt := Some(now));
      es := Wrote(was, clock(k + 1), before, es, clock, Recording(now));
    }

    /** Proxmox has not taken the backup, or has not said so in time. */
    method RecordRefusal(timedOut: bool, k: nat, clock: nat -> int, ghost before: System, ghost log: seq<Event>)
      returns (ghost es: seq<Event>)
      requires |log| == k && Reached(before, log, clock, Submitted)
      modifies this`db
      ensures EndsAs(old(db), db, if timedOut then Timeout else Failed, Some(Upstream), false, old(db).tasks)
      ensures |es| == k + 2 && Reached(before, es, clock, Gone)
    {
      hide Exec;
      var now := clock(k);
      ghost var was := db;
      es := Notes(now, SubmitRefused(0, timedOut), before, log, clock, Submitted);
      var end := Ending(now, if timedOut then Timeout else Failed, Some(Upstream), false, NoTask);
      Finish(end);
      es := Wrote(was, clock(k + 1), before, es, clock, Finishing(end));
    }

    /** Ask Proxmox for the backup, once, and see the task through if it was taken. */
    method SubmitBackup(clock: nat -> int, answer: SubmitAnswer, replies: nat -> PollReply,
                        ghost before: System, ghost log: seq<Event>)
      returns (ghost es: seq<Event>)
      requires db.tasks == [] && |log| == 2 && Reached(before, log, clock, Submitting)
      modifies this
      ensures WatchEnds(settings, old(db), clock, true, answer, replies, db, submissions - old(submissions))
      ensures Terminal(db.status) && seenOk == (old(seenOk) || db.status == Succeeded)
      ensures |es| <= 6 + PollSteps(settings, 0) && Reached(before, es, clock, Gone)
    {
      hide Exec, PollingEnds;
      es := Notes(clock(2), CallsSubmit(0), before, log, clock, Submitting);
      submissions := submissions + 1;
      assert Reached(before, es, clock, Submitted);
      if answer != Upid {
        hide Reached;
        es := RecordRefusal(answer == TimedOut, 3, clock, before, es);
        return;
      }
      es := RecordTask(3, clock, before, es);
      es := Notes(clock(5), StartsPolling(0), before, es, clock, Starting(0));
      ghost var submitted := db;
      var deadline := clock(5) + settings.taskTimeout;
      assert Reached(before, es, clock, Polling(0, 0, deadline));
      hide Reached;
      es := Poll(0, 0, deadline, 6, clock, replies, before, es);
      PollingIsTerminal(settings, Polls(0, deadline, 6, clock, replies), 0, submitted, db);
    }

    /** The client could not be opened. */
    method RecordClientFailure(clock: nat -> int, ghost before: System, ghost log: seq<Event>)
      returns (ghost es: seq<Event>)
      requires |log| == 1 && Reached(before, log, clock, Opening(FirstTask(db)))
      modifies this`db
      ensures EndsAs(old(db), db, Failed, Some(Upstream), false, old(db).tasks)
      ensures |es| == 3 && Reached(before, es, clock, Gone)
    {
      hide Exec;
      var now := clock(1);
      ghost var was := db;
      es := Notes(now, ClientFails(0), before, log, clock, Opening(FirstTask(db)));
      var end := Ending(now, Failed, Some(Upstream), false, NoTask);
      Finish(end);
      es := Wrote(was, clock(2), before, es, clock, Finishing(end));
    }

    /** All that follows the first transaction: the client, the submission, the polling. */
    method Watch(clock: nat -> int, opens: bool, answer: SubmitAnswer, replies: nat -> PollReply,
                 ghost before: System, ghost log: seq<Event>)
      returns (ghost es: seq<Event>)
      requires |log| == 1 && Reached(before, log, clock, Opening(FirstTask(db)))
      modifies this
      ensures WatchEnds(settings, old(db), clock, opens, answer, replies, db, submissions - old(submissions))
      ensures Terminal(db.status) && seenOk == (old(seenOk) || db.status == Succeeded)
      ensures |es| <= 6 + PollSteps(settings, 0) && Reached(before, es, clock, Gone)
    {
      hide Exec, PollingEnds;
      if !opens {
        hide Reached;
        es := RecordClientFailure(clock, before, log);
        return;
      }
      var known := FirstTask(db);
      var deadline := clock(1) + settings.taskTimeout;
      es := Notes(clock(1), ClientOpens(0), before, log, clock, Opening(known));
      if known.Some? {
        assert Reached(before, es, clock, Polling(0, known.value.polls, deadline));
        hide Reached;
        es := Poll(0, known.value.polls, deadline, 2, clock, replies, before, es);
        PollingIsTerminal(settings, Polls(known.value.polls, deadline, 2, clock, replies), 0, old(db), db);
      } else {
        assert Reached(before, es, clock, Submitting);
        hide Reached;
        es := SubmitBackup(clock, answer, replies, before, es);
      }
    }

    /** `run`. A run that does not crash leaves the operation terminal, unless it found an
        unexpired submission lease and left everything alone. All it does is a run of the
        step system with this one runner, each step at its own time. */
    method Run(workloadFits: bool, actorFits: bool, clock: nat -> int, opens: bool, answer: SubmitAnswer,
               replies: nat -> PollReply)
      returns (ghost es: seq<Event>)
      modifies this
      ensures Terminal(db.status)
              || (db == old(db) && db.status == Running && db.tasks == [] && WithinLease(settings, db, clock(0)))
      ensures old(db.status) == Running && old(db.tasks) == [] && old(db.runStatus).Some?
              && workloadFits && actorFits ==>
        (Terminal(db.status) <==> !WithinLease(settings, old(db), clock(0)))
      ensures RunEnds(settings, old(db), workloadFits, actorFits, clock, opens, answer, replies, db,
                      submissions - old(submissions))
      ensures seenOk == (old(seenOk) || (db.status == Succeeded && !Terminal(old(db.status))))
      ensures Reached(old(Committed()), es, clock, Gone)
      ensures |es| <= 6 + PollSteps(settings, 0)
    {
      ghost var before := Committed();
      var now := clock(0);
      ghost var launch := Event(now, Launch(workloadFits, actorFits));
      assert Exec(settings, before, []) == before;
      hide Exec;
      ExecSnoc(settings, before, [], launch);
      es := [] + [launch];
      var proceed := Acquire(now, workloadFits, actorFits);
      hide PollingEnds;
      if proceed {
        assert IsBegun(old(db), db, now);
        es := Watch(clock, opens, answer, replies, before, es);
      }
    }
  }
}
