/** The repeating-task run loop, `CronueueAction::run_queue`.

    Each cycle of the loop takes one control message from the entry's
    channel: `0` ends the loop, any other value is a sleep in milliseconds.
    It then reads the clock and, when the reading equals `exec_time`, takes
    the three locks (driver, behavior, database), calls the action and
    drops the locks again. `ExecType` decides when the loop ends by count.

    The environment of one run is given as inputs: `inbox[k]` is the message
    received in cycle `k`, `clock[k]` the clock reading of cycle `k`, and
    `results[k]` what the action returns if it is called in cycle `k`.
    Sleeping does nothing here. Reaching the end of `inbox` stands for the
    loop blocking in `recv` because no further message was sent; `recv`
    cannot fail, since the loop only ever runs on the receiver of a
    `CronChannel` that holds its own sender for the whole run. */
module Cronueue {
  import opened Base

  /** A UTC timestamp; the loop only ever compares two of them. */
  type Time = int

  datatype ExecType = Once | Multiple(num: u32) | Forever

  /** `CronueueAction::new` is this constructor; the action itself is only
      seen through the results of its calls. */
  datatype CronueueAction = CronueueAction(execTime: Time, execType: ExecType)

  /** What one call of the action returns. */
  type CallResult = Result<(), string>

  /** How a run ends, or that it is left waiting for a message. `Terminated`
      and `Completed` are both `Ok(())`. */
  datatype Outcome =
    | Terminated           // a `0` message
    | Completed            // the run count of `Once` or `Multiple` was reached
    | Failed(error: string)  // an action error, returned by `?`
    | Waiting                // blocked in `recv`: no further message was sent
    | OverflowPanicked       // `times_ran += 1` past `u32::MAX`

  /** What one cycle did: stop on `0`, pass without a call, or call the action. */
  datatype Step = Stop | Pass | Call

  datatype Report = Report(outcome: Outcome, trace: seq<Step>)

  /** The time test. `Exact` is the test of the source, `time_now == exec_time`;
      `Due` (a reading at or after `exec_time`) is the test the design calls
      for, which the source does not implement. */
  datatype TimeMatch = Exact | Due

  predicate TimeMatches(m: TimeMatch, now: Time, execTime: Time) {
    match m
    case Exact => now == execTime
    case Due => now >= execTime
  }

  /** The number of cycles in which the action was called. */
  function Calls(t: seq<Step>): nat {
    if t == [] then 0 else Calls(t[..|t| - 1]) + (if t[|t| - 1] == Call then 1 else 0)
  }

  lemma CallsAppend(t: seq<Step>, s: Step)
    ensures Calls(t + [s]) == Calls(t) + (if s == Call then 1 else 0)
  {
    assert (t + [s])[..|t|] == t;
  }

  /** No call, no count. */
  lemma {:induction false} CallsNone(t: seq<Step>)
    requires forall k :: 0 <= k < |t| ==> t[k] != Call
    ensures Calls(t) == 0
  {
    if t != [] {
      CallsNone(t[..|t| - 1]);
    }
  }

  /** A call anywhere counts. */
  lemma {:induction false} CallsPositive(t: seq<Step>, k: nat)
    requires k < |t| && t[k] == Call
    ensures Calls(t) >= 1
  {
    if k < |t| - 1 {
      CallsPositive(t[..|t| - 1], k);
    }
  }

  predicate WellFormed(inbox: seq<u32>, clock: seq<Time>, results: seq<CallResult>) {
    |clock| == |inbox| && |results| == |inbox|
  }

  /** Where one cycle leaves the loop: ended with a report, or on to the
      next cycle with the cycles so far and the counter. */
  datatype CycleEnd = Exit(report: Report) | Next(trace: seq<Step>, timesRan: nat)

  /** One pass through the loop body, cycle `|trace|`, with `timesRan` the
      value of the counter. */
  function Cycle(m: TimeMatch, act: CronueueAction, inbox: seq<u32>, clock: seq<Time>,
                 results: seq<CallResult>, trace: seq<Step>, timesRan: nat): (c: CycleEnd)
    requires WellFormed(inbox, clock, results) && |trace| <= |inbox|
    ensures c.Next? ==> |c.trace| == |trace| + 1 <= |inbox|
  {
    var i := |trace|;
    if i == |inbox| then Exit(Report(Waiting, trace))
    else if inbox[i] == 0 then Exit(Report(Terminated, trace + [Stop]))
    else if !TimeMatches(m, clock[i], act.execTime) then Next(trace + [Pass], timesRan)
    else if results[i].Err? then Exit(Report(Failed(results[i].error), trace + [Call]))
    else match act.execType
      case Once => Exit(Report(Completed, trace + [Call]))
      case Multiple(num) =>
        if timesRan >= U32_MAX then Exit(Report(OverflowPanicked, trace + [Call]))
        else if timesRan + 1 == num then Exit(Report(Completed, trace + [Call]))
        else Next(trace + [Call], timesRan + 1)
      case Forever => Next(trace + [Call], timesRan)
  }

  /** The loop from cycle `|trace|` on. */
  function RunFrom(m: TimeMatch, act: CronueueAction, inbox: seq<u32>, clock: seq<Time>,
                   results: seq<CallResult>, trace: seq<Step>, timesRan: nat): Report
    requires WellFormed(inbox, clock, results) && |trace| <= |inbox|
    decreases |inbox| - |trace|
  {
    match Cycle(m, act, inbox, clock, results, trace, timesRan)
    case Exit(r) => r
    case Next(t, n) => RunFrom(m, act, inbox, clock, results, t, n)
  }

  /** A whole run, from the first message with `times_ran = 0`. */
  function Run(m: TimeMatch, act: CronueueAction, inbox: seq<u32>, clock: seq<Time>,
               results: seq<CallResult>): Report
    requires WellFormed(inbox, clock, results)
  {
    RunFrom(m, act, inbox, clock, results, [], 0)
  }

  // ---------------------------------------------------------------------
  // Locks

  datatype Lock = DriverLock | BehaviorLock | DbLock
  datatype LockEvent = Acquire(lock: Lock) | Release(lock: Lock)

  const NoLocks: set<Lock> := {}
  const AllLocks: set<Lock> := {DriverLock, BehaviorLock, DbLock}

  /** The locks that come before `l` in the order driver, behavior, db. */
  function Before(l: Lock): set<Lock> {
    match l
    case DriverLock => NoLocks
    case BehaviorLock => {DriverLock}
    case DbLock => {DriverLock, BehaviorLock}
  }

  /** The locks held after one more event; `None` when a lock is taken
      other than right after the locks before it (twice, out of order, or
      with a later one still held), or released while free. */
  function LockStep(held: Option<set<Lock>>, e: LockEvent): Option<set<Lock>> {
    match held
    case None => None
    case Some(h) =>
      match e
      case Acquire(l) => if h == Before(l) then Some(h + {l}) else None
      case Release(l) => if l in h then Some(h - {l}) else None
  }

  /** The locks held after replaying `log` from none held. */
  function Replay(log: seq<LockEvent>): Option<set<Lock>> {
    if log == [] then Some(NoLocks) else LockStep(Replay(log[..|log| - 1]), log[|log| - 1])
  }

  /** The three `lock().await` calls of one invocation. */
  const TakeAll: seq<LockEvent> := [Acquire(DriverLock), Acquire(BehaviorLock), Acquire(DbLock)]
  /** The explicit `drop`s after a successful call. */
  const DropInOrder: seq<LockEvent> := [Release(DriverLock), Release(BehaviorLock), Release(DbLock)]
  /** The guards going out of scope when `?` returns or a panic unwinds:
      reverse declaration order. */
  const DropOnReturn: seq<LockEvent> := [Release(DbLock), Release(BehaviorLock), Release(DriverLock)]

  lemma ReplayAppend(log: seq<LockEvent>, e: LockEvent)
    ensures Replay(log + [e]) == LockStep(Replay(log), e)
  {
    assert (log + [e])[..|log|] == log;
  }

  /** Taking the locks in order from none held succeeds and holds all three;
      either way of dropping them afterwards leaves none held. */
  lemma {:induction false} LockCycle(log: seq<LockEvent>)
    requires Replay(log) == Some(NoLocks)
    ensures Replay(log + TakeAll) == Some(AllLocks)
    ensures Replay(log + TakeAll + DropInOrder) == Some(NoLocks)
    ensures Replay(log + TakeAll + DropOnReturn) == Some(NoLocks)
  {
    var d: set<Lock> := {DriverLock};
    var db: set<Lock> := {DriverLock, BehaviorLock};
    var a1 := log + [Acquire(DriverLock)];
    var a2 := a1 + [Acquire(BehaviorLock)];
    var a3 := a2 + [Acquire(DbLock)];
    ReplayAppend(log, Acquire(DriverLock));
    assert NoLocks + {DriverLock} == d;
    ReplayAppend(a1, Acquire(BehaviorLock));
    assert d + {BehaviorLock} == db;
    ReplayAppend(a2, Acquire(DbLock));
    assert db + {DbLock} == AllLocks;
    assert a3 == log + TakeAll;
    var r1 := a3 + [Release(DriverLock)];
    var r2 := r1 + [Release(BehaviorLock)];
    ReplayAppend(a3, Release(DriverLock));
    ReplayAppend(r1, Release(BehaviorLock));
    ReplayAppend(r2, Release(DbLock));
    assert AllLocks - {DriverLock} - {BehaviorLock} - {DbLock} == NoLocks;
    assert r2 + [Release(DbLock)] == log + TakeAll + DropInOrder;
    var e1 := a3 + [Release(DbLock)];
    var e2 := e1 + [Release(BehaviorLock)];
    ReplayAppend(a3, Release(DbLock));
    ReplayAppend(e1, Release(BehaviorLock));
    ReplayAppend(e2, Release(DriverLock));
    assert AllLocks - {DbLock} - {BehaviorLock} - {DriverLock} == NoLocks;
    assert e2 + [Release(DriverLock)] == log + TakeAll + DropOnReturn;
  }

  /** The lock events of the calls in `t`: each call takes the three locks
      in order and drops them explicitly. */
  function CallLocks(t: seq<Step>): seq<LockEvent> {
    if t == [] then []
    else if t[|t| - 1] == Call then CallLocks(t[..|t| - 1]) + TakeAll + DropInOrder
    else CallLocks(t[..|t| - 1])
  }

  /** Whether the last cycle of `trace` is a call whose guards go out of
      scope, by `?` or by the overflow panic. */
  predicate EndsUnwinding(trace: seq<Step>, outcome: Outcome) {
    (outcome.Failed? || outcome == OverflowPanicked) && |trace| > 0 && trace[|trace| - 1] == Call
  }

  /** The lock events of a run that did `trace` and ended with `outcome`:
      when the last call returns an error through `?` or overflows the
      counter, its guards go out of scope instead of being dropped. */
  function LockLog(trace: seq<Step>, outcome: Outcome): seq<LockEvent> {
    if EndsUnwinding(trace, outcome) then CallLocks(trace[..|trace| - 1]) + TakeAll + DropOnReturn
    else CallLocks(trace)
  }

  lemma CallLocksAppend(t: seq<Step>, s: Step)
    ensures CallLocks(t + [s]) == if s == Call then CallLocks(t) + TakeAll + DropInOrder else CallLocks(t)
  {
    assert (t + [s])[..|t|] == t;
  }

  /** Six lock events per call. */
  lemma {:induction false} CallLocksLength(t: seq<Step>)
    ensures |CallLocks(t)| == 6 * Calls(t)
  {
    if t != [] {
      CallLocksLength(t[..|t| - 1]);
    }
  }

  /** The calls' events of a shorter run come first in a longer one. */
  lemma {:induction false} CallLocksPrefix(t: seq<Step>, k: nat)
    requires k <= |t|
    ensures CallLocks(t[..k]) <= CallLocks(t)
    decreases |t| - k
  {
    if k < |t| {
      var u := t[..|t| - 1];
      assert u[..k] == t[..k];
      CallLocksPrefix(u, k);
    } else {
      assert t[..k] == t;
    }
  }

  /** After any number of calls, no lock is held. */
  lemma {:induction false} CallLocksReplay(t: seq<Step>)
    ensures Replay(CallLocks(t)) == Some(NoLocks)
  {
    if t != [] {
      var p := CallLocks(t[..|t| - 1]);
      CallLocksReplay(t[..|t| - 1]);
      if t[|t| - 1] == Call {
        LockCycle(p);
        assert CallLocks(t) == p + TakeAll + DropInOrder;
      } else {
        assert CallLocks(t) == p;
      }
    }
  }

  /** A run, however it ends, leaves no lock held, after six lock events
      per call. */
  lemma LockLogBalanced(trace: seq<Step>, outcome: Outcome)
    ensures Replay(LockLog(trace, outcome)) == Some(NoLocks)
    ensures |LockLog(trace, outcome)| == 6 * Calls(trace)
  {
    var n := |trace|;
    if EndsUnwinding(trace, outcome) {
      UnwoundCallBalanced(trace[..n - 1]);
      assert trace[..n - 1] + [Call] == trace;
    } else {
      CallLocksReplay(trace);
      CallLocksLength(trace);
    }
  }

  /** Calls that all completed, then one whose guards go out of scope. */
  lemma UnwoundCallBalanced(t: seq<Step>)
    ensures Replay(CallLocks(t) + TakeAll + DropOnReturn) == Some(NoLocks)
    ensures |CallLocks(t) + TakeAll + DropOnReturn| == 6 * Calls(t + [Call])
  {
    CallLocksReplay(t);
    LockCycle(CallLocks(t));
    CallLocksLength(t);
    CallsAppend(t, Call);
  }

  /** The lock facts `RunQueue` promises about its log, from the log being
      `LockLog` of the run. */
  lemma RunLocks(trace: seq<Step>, outcome: Outcome, locks: seq<LockEvent>)
    requires locks == LockLog(trace, outcome)
    ensures Replay(locks) == Some(NoLocks) && |locks| == 6 * Calls(trace)
    ensures EndsUnwinding(trace, outcome) ==> 6 <= |locks| && locks[|locks| - 3..] == DropOnReturn
    ensures !EndsUnwinding(trace, outcome) && trace != [] && trace[|trace| - 1] == Call ==>
      6 <= |locks| && locks[|locks| - 3..] == DropInOrder
  {
    LockLogBalanced(trace, outcome);
    var n := |trace|;
    if n > 0 && trace[n - 1] == Call {
      CallsPositive(trace, n - 1);
      var before := CallLocks(trace[..n - 1]);
      if EndsUnwinding(trace, outcome) {
        LastThree(before + TakeAll, DropOnReturn);
      } else {
        LastThree(before + TakeAll, DropInOrder);
      }
    }
  }

  lemma LastThree(a: seq<LockEvent>, d: seq<LockEvent>)
    requires |d| == 3
    ensures (a + d)[|a + d| - 3..] == d
  {
  }

  /** Cycle `k` of a run: it starts with no lock held, after events that
      the run's log begins with, and a call holds all three locks. */
  lemma CycleLocks(trace: seq<Step>, outcome: Outcome, k: nat)
    requires k < |trace|
    ensures CallLocks(trace[..k]) <= LockLog(trace, outcome)
    ensures Replay(CallLocks(trace[..k])) == Some(NoLocks)
    ensures trace[k] == Call ==>
      && CallLocks(trace[..k]) + TakeAll <= LockLog(trace, outcome)
      && Replay(CallLocks(trace[..k]) + TakeAll) == Some(AllLocks)
  {
    var n := |trace|;
    var log := LockLog(trace, outcome);
    var p := CallLocks(trace[..k]);
    CallLocksReplay(trace[..k]);
    LockCycle(p);
    var upto := trace[..k + 1];
    assert upto[..k] == trace[..k];
    if EndsUnwinding(trace, outcome) {
      if k == n - 1 {
        assert log == p + TakeAll + DropOnReturn;
      } else {
        assert trace[..n - 1][..k + 1] == upto;
        CallLocksPrefix(trace[..n - 1], k + 1);
        assert CallLocks(upto) <= CallLocks(trace[..n - 1]) <= log;
      }
    } else {
      CallLocksPrefix(trace, k + 1);
    }
  }

  /** The lock discipline of a run: at the start of every cycle no lock is
      held; a cycle that calls the action holds all three locks during the
      call, taken in the order driver, behavior, db; and the run ends with
      none held. */
  lemma LockLogSound(trace: seq<Step>, outcome: Outcome)
    ensures Replay(LockLog(trace, outcome)) == Some(NoLocks)
    ensures forall k :: 0 <= k < |trace| ==>
      && CallLocks(trace[..k]) <= LockLog(trace, outcome)
      && Replay(CallLocks(trace[..k])) == Some(NoLocks)
      && (trace[k] == Call ==>
            && CallLocks(trace[..k]) + TakeAll <= LockLog(trace, outcome)
            && Replay(CallLocks(trace[..k]) + TakeAll) == Some(AllLocks))
  {
    var n := |trace|;
    LockLogBalanced(trace, outcome);
    forall k | 0 <= k < n
      ensures CallLocks(trace[..k]) <= LockLog(trace, outcome)
      ensures Replay(CallLocks(trace[..k])) == Some(NoLocks)
      ensures trace[k] == Call ==>
        && CallLocks(trace[..k]) + TakeAll <= LockLog(trace, outcome)
        && Replay(CallLocks(trace[..k]) + TakeAll) == Some(AllLocks)
    {
      CycleLocks(trace, outcome, k);
    }
  }

  // ---------------------------------------------------------------------
  // The loop

  /** `run_queue`, with the literal time test. `trace` records what each
      cycle did and `locks` every lock taken and dropped. */
  method RunQueue(act: CronueueAction, inbox: seq<u32>, clock: seq<Time>, results: seq<CallResult>)
    returns (outcome: Outcome, ghost trace: seq<Step>, ghost locks: seq<LockEvent>)
    requires WellFormed(inbox, clock, results)
    ensures Report(outcome, trace) == Run(Exact, act, inbox, clock, results)
    ensures Replay(locks) == Some(NoLocks) && |locks| == 6 * Calls(trace)
    ensures outcome.Failed? || outcome == OverflowPanicked ==>
      6 <= |locks| && locks[|locks| - 3..] == DropOnReturn
    ensures outcome == Completed ==> 6 <= |locks| && locks[|locks| - 3..] == DropInOrder
    ensures locks == LockLog(trace, outcome)
  {
    var timesRan: u32 := 0;
    var i := 0;
    trace, locks := [], [];
    while true
      invariant i == |trace| <= |inbox|
      invariant RunFrom(Exact, act, inbox, clock, results, trace, timesRan)
             == Run(Exact, act, inbox, clock, results)
      invariant act.execType.Multiple? ==> timesRan == Calls(trace)
      invariant locks == CallLocks(trace)
      decreases |inbox| - i
    {
      if i == |inbox| {
        outcome := Waiting;
        RunLocks(trace, outcome, locks);
        return;
      }
      var message := inbox[i];
      if message == 0 {
        CallLocksAppend(trace, Stop);
        trace := trace + [Stop];
        outcome := Terminated;
        RunLocks(trace, outcome, locks);
        return;
      }
      var timeNow := clock[i];
      if timeNow != act.execTime {
        CallsAppend(trace, Pass);
        CallLocksAppend(trace, Pass);
        trace := trace + [Pass];
        i := i + 1;
        continue;
      }
      locks := locks + TakeAll;
      var result := results[i];
      CallsAppend(trace, Call);
      CallLocksAppend(trace, Call);
      assert (trace + [Call])[..|trace|] == trace;
      trace := trace + [Call];
      if result.Err? {
        locks := locks + DropOnReturn;
        outcome := Failed(result.error);
        RunLocks(trace, outcome, locks);
        return;
      }
      match act.execType {
        case Once =>
          locks := locks + DropInOrder;
          outcome := Completed;
          RunLocks(trace, outcome, locks);
          return;
        case Multiple(num) =>
          // the counter is bumped before the explicit drops
          if timesRan == U32_MAX {
            locks := locks + DropOnReturn;
            outcome := OverflowPanicked;
            RunLocks(trace, outcome, locks);
            return;
          }
          timesRan := timesRan + 1;
          locks := locks + DropInOrder;
          if timesRan == num {
            outcome := Completed;
            RunLocks(trace, outcome, locks);
            return;
          }
        case Forever =>
          locks := locks + DropInOrder;
      }
      i := i + 1;
    }
  }

  // ---------------------------------------------------------------------
  // Properties of a run

  /** Whether a call count ends the loop by count. */
  predicate CompletesAt(e: ExecType, calls: nat) {
    match e
    case Once => calls == 1
    case Multiple(num) => num >= 1 && calls == num
    case Forever => false
  }

  /** The most calls a run can make. */
  predicate WithinBound(e: ExecType, calls: nat) {
    match e
    case Once => calls <= 1
    case Multiple(num) => calls <= (if num == 0 then U32_LIMIT else num)
    case Forever => true
  }

  /** Cycle `k` of `t` stopped exactly when it received `0`, and called the
      action exactly when it received something else and the time matched. */
  ghost predicate Classified(m: TimeMatch, act: CronueueAction, inbox: seq<u32>, clock: seq<Time>,
                             t: seq<Step>)
    requires |clock| == |inbox|
  {
    && |t| <= |inbox|
    && forall k :: 0 <= k < |t| ==>
         && (t[k] == Stop <==> inbox[k] == 0)
         && (t[k] == Call <==> inbox[k] != 0 && TimeMatches(m, clock[k], act.execTime))
  }

  /** No cycle of `t` received `0` or had its call fail. */
  ghost predicate Continued(inbox: seq<u32>, results: seq<CallResult>, t: seq<Step>)
    requires |t| <= |inbox| && |results| == |inbox|
  {
    forall k :: 0 <= k < |t| ==> inbox[k] != 0 && (t[k] == Call ==> results[k].Ok?)
  }

  /** A call count after which the loop does not end by count. */
  predicate GoesOn(e: ExecType, calls: nat) {
    match e
    case Once => calls == 0
    case Multiple(num) => num == 0 || calls < num
    case Forever => true
  }

  /** The loop state at the top of cycle `|trace|`: every cycle so far went
      on to the next, and for `Multiple` the counter is the number of calls. */
  ghost predicate Consistent(m: TimeMatch, act: CronueueAction, inbox: seq<u32>, clock: seq<Time>,
                             results: seq<CallResult>, trace: seq<Step>, timesRan: nat)
    requires WellFormed(inbox, clock, results)
  {
    && Classified(m, act, inbox, clock, trace)
    && Continued(inbox, results, trace)
    && GoesOn(act.execType, Calls(trace))
    && (act.execType.Multiple? ==> timesRan == Calls(trace) <= U32_MAX)
  }

  /** What a finished run looks like: every cycle but the last went on, and
      the outcome is the one the last cycle calls for. */
  ghost predicate Sound(m: TimeMatch, act: CronueueAction, inbox: seq<u32>, clock: seq<Time>,
                        results: seq<CallResult>, r: Report)
    requires WellFormed(inbox, clock, results)
  {
    var t, n := r.trace, |r.trace|;
    && Classified(m, act, inbox, clock, t)
    && (n > 0 ==> Continued(inbox, results, t[..n - 1]) && GoesOn(act.execType, Calls(t[..n - 1])))
    && (r.outcome == Terminated <==> n > 0 && t[n - 1] == Stop)
    && (r.outcome.Failed? <==> n > 0 && t[n - 1] == Call && results[n - 1].Err?)
    && (r.outcome.Failed? ==> r.outcome.error == results[n - 1].error)
    && (r.outcome == Waiting ==>
          n == |inbox| && Continued(inbox, results, t) && GoesOn(act.execType, Calls(t)))
    && (r.outcome == Completed <==>
          n > 0 && t[n - 1] == Call && results[n - 1].Ok? && CompletesAt(act.execType, Calls(t)))
    && (r.outcome == OverflowPanicked ==>
          act.execType == Multiple(0) && Calls(t) == U32_LIMIT)
    && WithinBound(act.execType, Calls(t))
  }

  lemma ClassifiedAppend(m: TimeMatch, act: CronueueAction, inbox: seq<u32>, clock: seq<Time>,
                         t: seq<Step>, s: Step)
    requires |clock| == |inbox| && Classified(m, act, inbox, clock, t) && |t| < |inbox|
    requires s == Stop <==> inbox[|t|] == 0
    requires s == Call <==> inbox[|t|] != 0 && TimeMatches(m, clock[|t|], act.execTime)
    ensures Classified(m, act, inbox, clock, t + [s])
  {
    forall k | 0 <= k < |t| + 1
      ensures ((t + [s])[k] == Stop <==> inbox[k] == 0)
      ensures ((t + [s])[k] == Call <==> inbox[k] != 0 && TimeMatches(m, clock[k], act.execTime))
    {
      if k < |t| { assert (t + [s])[k] == t[k]; }
    }
  }

  lemma ContinuedAppend(inbox: seq<u32>, results: seq<CallResult>, t: seq<Step>, s: Step)
    requires |t| < |inbox| && |results| == |inbox| && Continued(inbox, results, t)
    requires inbox[|t|] != 0 && (s == Call ==> results[|t|].Ok?)
    ensures Continued(inbox, results, t + [s])
  {
    forall k | 0 <= k < |t| + 1
      ensures inbox[k] != 0 && ((t + [s])[k] == Call ==> results[k].Ok?)
    {
      if k < |t| { assert (t + [s])[k] == t[k]; }
    }
  }

  /** The loop blocks once the last message has been taken. */
  lemma SoundWaiting(m: TimeMatch, act: CronueueAction, inbox: seq<u32>, clock: seq<Time>,
                        results: seq<CallResult>, trace: seq<Step>, timesRan: nat)
    requires WellFormed(inbox, clock, results)
    requires Consistent(m, act, inbox, clock, results, trace, timesRan) && |trace| == |inbox|
    ensures Sound(m, act, inbox, clock, results, Report(Waiting, trace))
  {
    var n := |trace|;
    if n > 0 {
      assert Continued(inbox, results, trace[..n - 1]) by {
        forall k | 0 <= k < n - 1
          ensures inbox[k] != 0 && (trace[..n - 1][k] == Call ==> results[k].Ok?)
        {
          assert trace[..n - 1][k] == trace[k];
        }
      }
    }
  }

  /** A cycle that ends the loop: its step is appended to cycles that all
      went on. */
  lemma SoundLast(m: TimeMatch, act: CronueueAction, inbox: seq<u32>, clock: seq<Time>,
                  results: seq<CallResult>, trace: seq<Step>, s: Step, outcome: Outcome)
    requires WellFormed(inbox, clock, results) && |trace| < |inbox|
    requires Classified(m, act, inbox, clock, trace) && Continued(inbox, results, trace)
    requires GoesOn(act.execType, Calls(trace))
    requires s == Stop <==> inbox[|trace|] == 0
    requires s == Call <==> inbox[|trace|] != 0 && TimeMatches(m, clock[|trace|], act.execTime)
    requires outcome == Terminated <==> s == Stop
    requires outcome.Failed? <==> s == Call && results[|trace|].Err?
    requires outcome.Failed? ==> outcome.error == results[|trace|].error
    requires outcome != Waiting
    requires outcome == Completed <==>
      s == Call && results[|trace|].Ok? && CompletesAt(act.execType, Calls(trace) + 1)
    requires outcome == OverflowPanicked ==>
      s == Call && act.execType == Multiple(0) && Calls(trace) + 1 == U32_LIMIT
    requires WithinBound(act.execType, Calls(trace) + (if s == Call then 1 else 0))
    ensures Sound(m, act, inbox, clock, results, Report(outcome, trace + [s]))
  {
    ClassifiedAppend(m, act, inbox, clock, trace, s);
    CallsAppend(trace, s);
    assert (trace + [s])[..|trace|] == trace;
  }

  /** A cycle that does not end the loop keeps `Consistent`. */
  lemma CycleNextConsistent(m: TimeMatch, act: CronueueAction, inbox: seq<u32>, clock: seq<Time>,
                            results: seq<CallResult>, trace: seq<Step>, timesRan: nat)
    requires WellFormed(inbox, clock, results)
    requires Consistent(m, act, inbox, clock, results, trace, timesRan)
    requires Cycle(m, act, inbox, clock, results, trace, timesRan).Next?
    ensures var c := Cycle(m, act, inbox, clock, results, trace, timesRan);
      Consistent(m, act, inbox, clock, results, c.trace, c.timesRan) && c.trace[..|trace|] == trace
  {
    var i := |trace|;
    var s := if TimeMatches(m, clock[i], act.execTime) then Call else Pass;
    ClassifiedAppend(m, act, inbox, clock, trace, s);
    ContinuedAppend(inbox, results, trace, s);
    CallsAppend(trace, s);
    assert (trace + [s])[..i] == trace;
  }

  /** A cycle that ends the loop ends it `Sound`. */
  lemma CycleExitSound(m: TimeMatch, act: CronueueAction, inbox: seq<u32>, clock: seq<Time>,
                       results: seq<CallResult>, trace: seq<Step>, timesRan: nat)
    requires WellFormed(inbox, clock, results)
    requires Consistent(m, act, inbox, clock, results, trace, timesRan)
    requires Cycle(m, act, inbox, clock, results, trace, timesRan).Exit?
    ensures var r := Cycle(m, act, inbox, clock, results, trace, timesRan).report;
      Sound(m, act, inbox, clock, results, r) && |trace| <= |r.trace| && r.trace[..|trace|] == trace
  {
    var i := |trace|;
    var r := Cycle(m, act, inbox, clock, results, trace, timesRan).report;
    if i == |inbox| {
      SoundWaiting(m, act, inbox, clock, results, trace, timesRan);
    } else {
      var s := if inbox[i] == 0 then Stop else Call;
      assert r.trace == trace + [s];
      SoundLast(m, act, inbox, clock, results, trace, s, r.outcome);
    }
  }

  /** The loop keeps `Consistent` from cycle to cycle and ends `Sound`,
      extending the cycles so far. */
  lemma {:induction false} RunFromSound(m: TimeMatch, act: CronueueAction, inbox: seq<u32>,
                                        clock: seq<Time>, results: seq<CallResult>,
                                        trace: seq<Step>, timesRan: nat)
    requires WellFormed(inbox, clock, results)
    requires Consistent(m, act, inbox, clock, results, trace, timesRan)
    ensures var r := RunFrom(m, act, inbox, clock, results, trace, timesRan);
      Sound(m, act, inbox, clock, results, r) && |trace| <= |r.trace| && r.trace[..|trace|] == trace
    decreases |inbox| - |trace|
  {
    match Cycle(m, act, inbox, clock, results, trace, timesRan)
    case Exit(r) =>
      CycleExitSound(m, act, inbox, clock, results, trace, timesRan);
    case Next(t, n) =>
      CycleNextConsistent(m, act, inbox, clock, results, trace, timesRan);
      RunFromSound(m, act, inbox, clock, results, t, n);
      var r := RunFrom(m, act, inbox, clock, results, t, n);
      assert r.trace[..|trace|] == r.trace[..|t|][..|trace|];
  }

  lemma RunSound(m: TimeMatch, act: CronueueAction, inbox: seq<u32>, clock: seq<Time>,
                 results: seq<CallResult>)
    requires WellFormed(inbox, clock, results)
    ensures Sound(m, act, inbox, clock, results, Run(m, act, inbox, clock, results))
  {
    RunFromSound(m, act, inbox, clock, results, [], 0);
  }

  /** A `0` ends the loop in the cycle that receives it, with no call in that
      cycle; the loop never reads past the first `0`. */
  lemma ZeroEndsTheLoop(act: CronueueAction, inbox: seq<u32>, clock: seq<Time>,
                        results: seq<CallResult>)
    requires WellFormed(inbox, clock, results)
    ensures var r := Run(Exact, act, inbox, clock, results);
      && |r.trace| <= |inbox|
      && (forall k :: 0 <= k < |r.trace| ==> (r.trace[k] == Stop <==> inbox[k] == 0))
      && (r.outcome == Terminated <==> 0 < |r.trace| && inbox[|r.trace| - 1] == 0)
      && (forall k :: 0 <= k < |inbox| && inbox[k] == 0 ==> |r.trace| <= k + 1)
  {
    RunSound(Exact, act, inbox, clock, results);
  }

  /** Cycle `k` consumes `inbox[k]`: the run never reads past the inbox, and
      it is left blocked in `recv` only once every message has been taken,
      none of them a `0`. */
  lemma OneMessagePerCycle(act: CronueueAction, inbox: seq<u32>, clock: seq<Time>,
                           results: seq<CallResult>)
    requires WellFormed(inbox, clock, results)
    ensures var r := Run(Exact, act, inbox, clock, results);
      && |r.trace| <= |inbox|
      && (r.outcome == Waiting ==>
            |r.trace| == |inbox| && forall k :: 0 <= k < |inbox| ==> inbox[k] != 0)
      && (r.outcome != Waiting ==> 0 < |r.trace|)
  {
    RunSound(Exact, act, inbox, clock, results);
    var r := Run(Exact, act, inbox, clock, results);
    if r.trace == [] {
      assert Calls(r.trace) == 0;
      assert r.outcome != OverflowPanicked;
    }
  }

  /** The action is called in exactly the cycles that received a non-zero
      message and read a clock equal to `exec_time`. */
  lemma CallsOnlyAtExecTime(act: CronueueAction, inbox: seq<u32>, clock: seq<Time>,
                            results: seq<CallResult>)
    requires WellFormed(inbox, clock, results)
    ensures var r := Run(Exact, act, inbox, clock, results);
      && |r.trace| <= |inbox|
      && forall k :: 0 <= k < |r.trace| ==>
        (r.trace[k] == Call <==> inbox[k] != 0 && clock[k] == act.execTime)
  {
    RunSound(Exact, act, inbox, clock, results);
  }

  /** The count of calls made before the last cycle. */
  lemma CallsBeforeLast(t: seq<Step>)
    requires t != []
    ensures Calls(t) == Calls(t[..|t| - 1]) + (if t[|t| - 1] == Call then 1 else 0)
  {
  }

  /** `Once`: at most one call, and the loop ends in the cycle that makes it. */
  lemma OnceCallsAtMostOnce(act: CronueueAction, inbox: seq<u32>, clock: seq<Time>,
                            results: seq<CallResult>)
    requires WellFormed(inbox, clock, results) && act.execType == Once
    ensures var r := Run(Exact, act, inbox, clock, results);
      && Calls(r.trace) <= 1
      && (Calls(r.trace) == 1 ==> 0 < |r.trace| <= |inbox| && r.trace[|r.trace| - 1] == Call)
      && (r.outcome == Completed <==>
            Calls(r.trace) == 1 && 0 < |r.trace| <= |inbox| && results[|r.trace| - 1].Ok?)
  {
    RunSound(Exact, act, inbox, clock, results);
    var r := Run(Exact, act, inbox, clock, results);
    if r.trace == [] {
      assert Calls(r.trace) == 0;
    } else {
      CallsBeforeLast(r.trace);
    }
  }

  /** `Multiple(num)` with `num >= 1`: at most `num` calls, the loop ends in
      the cycle of the `num`-th call, and the counter never overflows. */
  lemma MultipleCallsAtMostNum(act: CronueueAction, inbox: seq<u32>, clock: seq<Time>,
                               results: seq<CallResult>)
    requires WellFormed(inbox, clock, results)
    requires act.execType.Multiple? && act.execType.num >= 1
    ensures var r, num := Run(Exact, act, inbox, clock, results), act.execType.num;
      && Calls(r.trace) <= num
      && (Calls(r.trace) == num ==> 0 < |r.trace| <= |inbox| && r.trace[|r.trace| - 1] == Call)
      && (r.outcome == Completed <==>
            Calls(r.trace) == num && 0 < |r.trace| <= |inbox| && results[|r.trace| - 1].Ok?)
      && r.outcome != OverflowPanicked
  {
    RunSound(Exact, act, inbox, clock, results);
    var r := Run(Exact, act, inbox, clock, results);
    if r.trace == [] {
      assert Calls(r.trace) == 0;
    } else {
      CallsBeforeLast(r.trace);
    }
  }

  /** `Multiple(0)` and `Forever` never end by count: only a `0`, an action
      error or a panic ends them, and `Multiple(0)` overflows its counter on
      the call after `u32::MAX` of them. */
  lemma NoCountForZeroOrForever(act: CronueueAction, inbox: seq<u32>, clock: seq<Time>,
                                results: seq<CallResult>)
    requires WellFormed(inbox, clock, results)
    requires act.execType == Multiple(0) || act.execType == Forever
    ensures var r := Run(Exact, act, inbox, clock, results);
      && r.outcome != Completed
      && (r.outcome == OverflowPanicked ==>
            act.execType == Multiple(0) && Calls(r.trace) == U32_LIMIT)
  {
    RunSound(Exact, act, inbox, clock, results);
  }

  /** An action error is returned by the cycle that gets it: every earlier
      call succeeded, and the run fails exactly when the last call failed. */
  lemma ErrorEndsTheRun(act: CronueueAction, inbox: seq<u32>, clock: seq<Time>,
                        results: seq<CallResult>)
    requires WellFormed(inbox, clock, results)
    ensures var r, n := Run(Exact, act, inbox, clock, results), |Run(Exact, act, inbox, clock, results).trace|;
      && n <= |inbox|
      && (forall k :: 0 <= k < n - 1 && r.trace[k] == Call ==> results[k].Ok?)
      && (r.outcome.Failed? <==> 0 < n && r.trace[n - 1] == Call && results[n - 1].Err?)
      && (r.outcome.Failed? ==> r.outcome.error == results[n - 1].error)
  {
    RunSound(Exact, act, inbox, clock, results);
    var r := Run(Exact, act, inbox, clock, results);
    var n := |r.trace|;
    forall k | 0 <= k < n - 1 && r.trace[k] == Call
      ensures results[k].Ok?
    {
      assert r.trace[..n - 1][k] == r.trace[k];
    }
  }

  /** With the literal test, a run whose clock readings all miss `exec_time`
      never calls the action, however late the readings are. */
  lemma NoCallWithoutExactReading(act: CronueueAction, inbox: seq<u32>, clock: seq<Time>,
                                  results: seq<CallResult>)
    requires WellFormed(inbox, clock, results)
    requires forall k :: 0 <= k < |clock| ==> clock[k] != act.execTime
    ensures var r := Run(Exact, act, inbox, clock, results);
      Calls(r.trace) == 0 && (r.outcome == Terminated || r.outcome == Waiting)
  {
    RunSound(Exact, act, inbox, clock, results);
    var r := Run(Exact, act, inbox, clock, results);
    CallsNone(r.trace);
    if r.trace != [] {
      assert r.trace[|r.trace| - 1] != Call;
    }
    assert r.outcome != Completed && !r.outcome.Failed? && r.outcome != OverflowPanicked;
  }

  /** With the `Due` test, a run that gets no `0` and has a reading at or
      after `exec_time` calls the action at least once. */
  lemma DueCallsOnceLate(act: CronueueAction, inbox: seq<u32>, clock: seq<Time>,
                         results: seq<CallResult>, late: nat)
    requires WellFormed(inbox, clock, results)
    requires forall k :: 0 <= k < |inbox| ==> inbox[k] != 0
    requires late < |clock| && clock[late] >= act.execTime
    ensures Calls(Run(Due, act, inbox, clock, results).trace) >= 1
  {
    RunSound(Due, act, inbox, clock, results);
    var r := Run(Due, act, inbox, clock, results);
    var n := |r.trace|;
    if n > 0 {
      assert inbox[n - 1] != 0;
      assert r.trace[n - 1] != Stop;
    }
    if r.outcome == Waiting {
      CallsPositive(r.trace, late);
    } else if r.outcome != OverflowPanicked {
      CallsBeforeLast(r.trace);
    }
  }

  /** A reading one tick past `exec_time`: the loop as written passes it by
      and ends on the `0`, a due test would have run the action. */
  lemma LateReadingExample()
    ensures var act := CronueueAction(100, Once);
      && Run(Exact, act, [1, 0], [101, 102], [Ok(()), Ok(())]) == Report(Terminated, [Pass, Stop])
      && Run(Due, act, [1, 0], [101, 102], [Ok(()), Ok(())]) == Report(Completed, [Call])
  {
    var act := CronueueAction(100, Once);
    var inbox: seq<u32>, clock: seq<Time>, results: seq<CallResult> := [1, 0], [101, 102], [Ok(()), Ok(())];
    assert Cycle(Exact, act, inbox, clock, results, [], 0) == Next([Pass], 0);
    assert Cycle(Exact, act, inbox, clock, results, [Pass], 0) == Exit(Report(Terminated, [Pass, Stop]));
  }
}
