/** The state src/addon.cpp keeps across calls: the registry `activeTimers`
    from timer handle to owned `TimerState`, updated in place by
    `SetEpochTimer` (insert on a successful arm) and by `TimerCallback` (erase
    after the callback is handed over). The OS timer queue and the
    cross-thread call are inputs: the handle the queue assigns, whether
    creation failed, and whether `BlockingCall` accepted the call. Every
    operation runs to completion before the next starts, so no interleaving
    inside one call is modelled. */
module EpochTimer {
  import opened Clock
  import opened Units
  import opened Scheduling
  import opened Registry

  /** The life of one arming of a handle. */
  datatype Phase = Armed | Fired | CleanedUp

  /** The ghost bookkeeping agrees with the registry `reg`: it is the replay
      of a history the OS allows (so each entry is keyed by its own handle,
      `ReplayKeyedByOwnHandle`), a handle has an entry exactly while its
      latest arming is not cleaned up, and the deliveries counted for an
      arming are at most one and none before its timer fires. */
  ghost predicate Consistent(reg: map<Handle, TimerState>, history: seq<Event>,
                             phase: map<Handle, Phase>, deliveries: map<Handle, nat>)
  {
    && Feasible(map[], history)
    && reg == Replay(map[], history)
    && phase.Keys == deliveries.Keys
    && (forall h :: h in reg <==> h in phase && phase[h] != CleanedUp)
    && (forall h :: h in phase ==> deliveries[h] <= 1)
    && (forall h :: h in phase && phase[h] == Armed ==> deliveries[h] == 0)
  }

  /** A `setEpochTimer` call keeps the bookkeeping consistent: an armed timer
      gets a new entry, starting Armed with no delivery, and the registry
      grows by one entry exactly when a timer is armed. */
  lemma ScheduleKeepsConsistent(reg: map<Handle, TimerState>, history: seq<Event>,
                                phase: map<Handle, Phase>, deliveries: map<Handle, nat>,
                                outcome: Outcome, callback: CallbackId)
    requires Consistent(reg, history, phase, deliveries)
    requires outcome.TimerArmed? ==> outcome.handle !in reg
    ensures Consistent(ApplyEvent(reg, ScheduleCall(outcome, callback)),
                       history + [ScheduleCall(outcome, callback)],
                       if outcome.TimerArmed? then phase[outcome.handle := Armed] else phase,
                       if outcome.TimerArmed? then deliveries[outcome.handle := 0] else deliveries)
    ensures |ApplyEvent(reg, ScheduleCall(outcome, callback))| == |reg| + (if outcome.TimerArmed? then 1 else 0)
  {
    var e := ScheduleCall(outcome, callback);
    FeasibleOne(reg, e);
    FeasibleAppend(map[], history, e);
    ReplayAppend(map[], history, e);
    ApplyEventSize(reg, e);
  }

  /** Handing an armed timer's callback over counts one delivery when the
      call is accepted and none when it fails, and keeps the bookkeeping
      consistent: the count stays at most one because an armed timer has had
      none. The timer still has its entry. */
  lemma DeliverKeepsConsistent(reg: map<Handle, TimerState>, history: seq<Event>,
                               phase: map<Handle, Phase>, deliveries: map<Handle, nat>,
                               h: Handle, delivered: bool)
    requires Consistent(reg, history, phase, deliveries)
    requires h in phase && phase[h] == Armed
    ensures h in reg
    ensures Consistent(reg, history, phase[h := Fired], deliveries[h := deliveries[h] + (if delivered then 1 else 0)])
  {
  }

  /** Erasing a fired timer's entry keeps the bookkeeping consistent, and
      shrinks the registry by exactly that one entry. */
  lemma FireKeepsConsistent(reg: map<Handle, TimerState>, history: seq<Event>,
                            phase: map<Handle, Phase>, deliveries: map<Handle, nat>,
                            h: Handle)
    requires Consistent(reg, history, phase, deliveries)
    requires h in phase && phase[h] == Fired
    ensures h in reg && reg[h].timerHandle == h
    ensures Consistent(reg - {h}, history + [TimerFire(h)], phase[h := CleanedUp], deliveries)
    ensures |reg - {h}| == |reg| - 1
  {
    ReplayKeyedByOwnHandle(map[], history);
    FeasibleOne(reg, TimerFire(h));
    FeasibleAppend(map[], history, TimerFire(h));
    ReplayAppend(map[], history, TimerFire(h));
    ApplyEventSize(reg, TimerFire(h));
  }

  class Addon {
    /** `activeTimers`: the timers that are armed and not yet cleaned up. */
    var activeTimers: map<Handle, TimerState>
    /** Thread-safe functions created and not yet released. */
    var liveTsfns: nat
    /** The callbacks handed to the JavaScript thread so far, in order: run
        at once by `SetEpochTimer`, or queued by a timer's `BlockingCall`. */
    var invoked: seq<CallbackId>
    /** The arguments of every `CreateTimerQueueTimer` call, in order. */
    var timerRequests: seq<TimerRequest>
    /** The handles passed to `DeleteTimerQueueTimer`, in order. */
    var deletedTimers: seq<Handle>

    /** Every call and every erase so far, in order. */
    ghost var history: seq<Event>
    /** The phase of the latest arming of each handle ever armed. */
    ghost var phase: map<Handle, Phase>
    /** How many times the latest arming of each handle delivered its callback. */
    ghost var deliveries: map<Handle, nat>

    /** The bookkeeping is consistent, and one thread-safe function is live
        per registry entry. */
    ghost predicate Valid()
      reads this
    {
      Consistent(activeTimers, history, phase, deliveries) && liveTsfns == |activeTimers|
    }

    /** The module's state when it is loaded: no timers. */
    constructor ()
      ensures Valid()
      ensures activeTimers == map[] && invoked == [] && timerRequests == [] && deletedTimers == []
      ensures history == [] && phase == map[]
    {
      activeTimers := map[];
      liveTsfns := 0;
      invoked := [];
      timerRequests := [];
      deletedTimers := [];
      history := [];
      phase := map[];
      deliveries := map[];
    }

    /** `SetEpochTimer` after its argument checks: normalise the deadline,
        read the clock, then act on both. */
    method SetEpochTimer(unit: string, value: real, callback: CallbackId, clock: FileTime, create: CreateResult)
      returns (outcome: Outcome)
      requires Valid()
      requires create.Created? ==> create.handle !in activeTimers
      modifies this
      ensures Valid()
      ensures outcome == ScheduleOutcome(unit, value, clock, create)
      ensures invoked == if outcome == RanImmediately then old(invoked) + [callback] else old(invoked)
      ensures timerRequests ==
        if ReachesTimerQueue(outcome)
        then old(timerRequests) + [TimerRequestFor(NormalizeToMs(unit, value) - CurrentEpochMs(clock))]
        else old(timerRequests)
      ensures activeTimers == ApplyEvent(old(activeTimers), ScheduleCall(outcome, callback))
      ensures history == old(history) + [ScheduleCall(outcome, callback)]
      ensures phase == if outcome.TimerArmed? then old(phase)[outcome.handle := Armed] else old(phase)
      ensures deliveries == if outcome.TimerArmed? then old(deliveries)[outcome.handle := 0] else old(deliveries)
      ensures deletedTimers == old(deletedTimers)
    {
      var targetMs := NormalizeToMs(unit, value);
      outcome := ScheduleDeadline(targetMs, CurrentEpochMs(clock), callback, create);
    }

    /** `SetEpochTimer` once the deadline `targetMs` and the current time
        `nowMs` are known (the clock is only read for a positive deadline, but
        reading it is a function of the `clock` input). A rejected call
        and a call whose deadline has passed leave the registry alone, the
        second running the callback once; a call that reaches the timer queue
        makes one one-shot request, and adds exactly the entry
        `handle |-> state` when the queue accepts it, releasing the
        thread-safe function when it does not. */
    method ScheduleDeadline(targetMs: int, nowMs: int, callback: CallbackId, create: CreateResult)
      returns (outcome: Outcome)
      requires Valid()
      requires create.Created? ==> create.handle !in activeTimers
      modifies this
      ensures Valid()
      ensures outcome == Decide(targetMs, nowMs, create)
      ensures invoked == if outcome == RanImmediately then old(invoked) + [callback] else old(invoked)
      ensures timerRequests ==
        if ReachesTimerQueue(outcome)
        then old(timerRequests) + [TimerRequestFor(targetMs - nowMs)]
        else old(timerRequests)
      ensures activeTimers == ApplyEvent(old(activeTimers), ScheduleCall(outcome, callback))
      ensures history == old(history) + [ScheduleCall(outcome, callback)]
      ensures phase == if outcome.TimerArmed? then old(phase)[outcome.handle := Armed] else old(phase)
      ensures deliveries == if outcome.TimerArmed? then old(deliveries)[outcome.handle := 0] else old(deliveries)
      ensures deletedTimers == old(deletedTimers)
    {
      if targetMs <= 0 {
        outcome := InvalidArgument;
        assert outcome == Decide(targetMs, nowMs, create);
      } else {
        var delayMs := targetMs - nowMs;
        if delayMs <= 0 {
          invoked := invoked + [callback];
          outcome := RanImmediately;
          assert outcome == Decide(targetMs, nowMs, create);
        } else {
          liveTsfns := liveTsfns + 1;
          timerRequests := timerRequests + [TimerRequestFor(delayMs)];
          match create
          case CreateFailed =>
            liveTsfns := liveTsfns - 1;
            outcome := TimerCreateFailed;
            assert outcome == Decide(targetMs, nowMs, create);
          case Created(h) =>
            outcome := TimerArmed(h);
            assert outcome == Decide(targetMs, nowMs, create);
        }
      }
      Register(outcome, callback);
    }

    /** The registry step of `SetEpochTimer`: an armed timer's entry is
        inserted under its handle, starting Armed with no delivery; any other
        outcome leaves the registry as it was. */
    method Register(outcome: Outcome, callback: CallbackId)
      requires Consistent(activeTimers, history, phase, deliveries)
      requires outcome.TimerArmed? ==> outcome.handle !in activeTimers
      modifies this`activeTimers, this`history, this`phase, this`deliveries
      ensures Consistent(activeTimers, history, phase, deliveries)
      ensures activeTimers == ApplyEvent(old(activeTimers), ScheduleCall(outcome, callback))
      ensures |activeTimers| == |old(activeTimers)| + (if outcome.TimerArmed? then 1 else 0)
      ensures history == old(history) + [ScheduleCall(outcome, callback)]
      ensures phase == if outcome.TimerArmed? then old(phase)[outcome.handle := Armed] else old(phase)
      ensures deliveries == if outcome.TimerArmed? then old(deliveries)[outcome.handle := 0] else old(deliveries)
    {
      ScheduleKeepsConsistent(activeTimers, history, phase, deliveries, outcome, callback);
      history := history + [ScheduleCall(outcome, callback)];
      if outcome.TimerArmed? {
        var h := outcome.handle;
        activeTimers := activeTimers[h := TimerState(callback, h)];
        phase := phase[h := Armed];
        deliveries := deliveries[h := 0];
      }
    }

    /** The first half of `TimerCallback`: `BlockingCall` hands the timer's
        callback to the JavaScript thread. The thread-safe function's queue is
        unbounded, so the call queues the callback and returns without waiting
        for it to run. `delivered` is whether the call was accepted; on
        failure nothing is queued and cleanup still follows. */
    method DeliverCallback(h: Handle, delivered: bool)
      requires Valid()
      requires h in phase && phase[h] == Armed
      modifies this
      ensures Valid()
      ensures invoked == old(invoked) + (if delivered then [old(activeTimers)[h].tsfn] else [])
      ensures phase == old(phase)[h := Fired]
      ensures deliveries == old(deliveries)[h := old(deliveries)[h] + (if delivered then 1 else 0)]
      ensures activeTimers == old(activeTimers) && liveTsfns == old(liveTsfns) && history == old(history)
      ensures timerRequests == old(timerRequests) && deletedTimers == old(deletedTimers)
    {
      DeliverKeepsConsistent(activeTimers, history, phase, deliveries, h, delivered);
      if delivered {
        invoked := invoked + [activeTimers[h].tsfn];
      }
      phase := phase[h := Fired];
      deliveries := deliveries[h := deliveries[h] + (if delivered then 1 else 0)];
    }

    /** The second half of `TimerCallback`: erase the entry for this timer
        under the lock, delete the OS timer and release the thread-safe
        function. Only the fired timer's entry goes; the others stay. */
    method CleanupTimer(h: Handle)
      requires Valid()
      requires h in phase && phase[h] == Fired
      modifies this
      ensures Valid()
      ensures h in old(activeTimers)
      ensures activeTimers == ApplyEvent(old(activeTimers), TimerFire(h))
      ensures history == old(history) + [TimerFire(h)]
      ensures deletedTimers == old(deletedTimers) + [h]
      ensures liveTsfns == old(liveTsfns) - 1
      ensures phase == old(phase)[h := CleanedUp] && deliveries == old(deliveries)
      ensures invoked == old(invoked) && timerRequests == old(timerRequests)
    {
      FireKeepsConsistent(activeTimers, history, phase, deliveries, h);
      var state := activeTimers[h];
      history := history + [TimerFire(state.timerHandle)];
      activeTimers := activeTimers - {state.timerHandle};
      deletedTimers := deletedTimers + [state.timerHandle];
      liveTsfns := liveTsfns - 1;
      phase := phase[h := CleanedUp];
    }

    /** `TimerCallback`, run once by the timer queue for the one-shot timer
        `h`: the callback is handed over once if `BlockingCall` accepts it,
        then the timer's entry, and only that entry, leaves the registry. */
    method TimerCallback(h: Handle, delivered: bool)
      requires Valid()
      requires h in phase && phase[h] == Armed
      modifies this
      ensures Valid()
      ensures invoked == old(invoked) + (if delivered then [old(activeTimers)[h].tsfn] else [])
      ensures activeTimers == ApplyEvent(old(activeTimers), TimerFire(h))
      ensures history == old(history) + [TimerFire(h)]
      ensures deletedTimers == old(deletedTimers) + [h]
      ensures phase == old(phase)[h := CleanedUp]
      ensures deliveries == old(deliveries)[h := old(deliveries)[h] + (if delivered then 1 else 0)]
      ensures timerRequests == old(timerRequests)
    {
      DeliverCallback(h, delivered);
      CleanupTimer(h);
    }
  }

  /** The registry is empty exactly when every timer armed since the module
      was loaded has fired and been cleaned up; then no thread-safe function
      is left unreleased either. */
  lemma SettledRegistryIsEmpty(a: Addon)
    requires a.Valid()
    ensures a.activeTimers == map[] <==> FireCount(a.history) == ArmedCount(a.history)
    ensures a.activeTimers == map[] ==> a.liveTsfns == 0
  {
    SettledIffEmpty(a.history);
  }

  /** A deadline in the future, accepted by the timer queue under a handle not
      already in use, followed by that timer firing with an accepted
      `BlockingCall`: the callback has been handed to the JavaScript thread
      exactly once, and the registry and the count of live thread-safe
      functions are as they were before the call. */
  method ArmedTimerFiresOnce(a: Addon, unit: string, value: real, callback: CallbackId, clock: FileTime, h: Handle)
    requires a.Valid()
    requires h !in a.activeTimers
    requires CurrentEpochMs(clock) < NormalizeToMs(unit, value)
    modifies a
    ensures a.Valid()
    ensures a.invoked == old(a.invoked) + [callback]
    ensures a.activeTimers == old(a.activeTimers) && a.liveTsfns == old(a.liveTsfns)
    ensures h in a.phase && a.phase[h] == CleanedUp && a.deliveries[h] == 1
  {
    ghost var before := a.activeTimers;
    var outcome := a.SetEpochTimer(unit, value, callback, clock, Created(h));
    assert outcome == TimerArmed(h);
    ghost var armed := a.activeTimers;
    assert armed == before[h := TimerState(callback, h)];
    a.TimerCallback(h, true);
    assert a.activeTimers == armed - {h};
    assert a.activeTimers == before;
  }
}
