/** The registry `activeTimers` of src/addon.cpp as a value: a map from timer
    handle to the timer's state, changed only by a `SetEpochTimer` call that
    arms a timer (insert) and by a timer firing (erase). Replaying a sequence
    of such events gives the registry's contents at any point. */
module Registry {
  import opened Options
  import opened Scheduling

  /** Identity of a JavaScript callback passed to `setEpochTimer`. */
  type CallbackId = nat

  /** One armed timer: its thread-safe function (bound to the callback) and
      the handle the timer queue assigned. */
  datatype TimerState = TimerState(tsfn: CallbackId, timerHandle: Handle)

  /** Something that changes the registry: a `setEpochTimer` call, with its
      outcome and callback, or the firing of the timer `handle`. */
  datatype Event =
    | ScheduleCall(outcome: Outcome, callback: CallbackId)
    | TimerFire(handle: Handle)

  /** Every entry is keyed by the handle stored in its state. */
  ghost predicate KeyedByOwnHandle(reg: map<Handle, TimerState>)
  {
    forall h :: h in reg ==> reg[h].timerHandle == h
  }

  /** The handle an event touches, if any. */
  function Touched(e: Event): Option<Handle>
  {
    match e
    case ScheduleCall(o, _) => if o.TimerArmed? then Some(o.handle) else None
    case TimerFire(h) => Some(h)
  }

  /** The registry after one event: an armed timer is inserted under its
      handle (src/addon.cpp:121-124) and a fired timer's entry is erased
      (src/addon.cpp:40-43). */
  function ApplyEvent(reg: map<Handle, TimerState>, e: Event): (r: map<Handle, TimerState>)
    ensures e.ScheduleCall? && e.outcome.TimerArmed?
      ==> e.outcome.handle in r && r[e.outcome.handle] == TimerState(e.callback, e.outcome.handle)
    ensures e.TimerFire? ==> e.handle !in r
  {
    match e
    case ScheduleCall(o, cb) => if o.TimerArmed? then reg[o.handle := TimerState(cb, o.handle)] else reg
    case TimerFire(h) => reg - {h}
  }

  /** An event changes no entry but the one for the handle it touches. */
  lemma ApplyEventFrame(reg: map<Handle, TimerState>, e: Event, k: Handle)
    requires Some(k) != Touched(e)
    ensures k in ApplyEvent(reg, e) <==> k in reg
    ensures k in reg ==> ApplyEvent(reg, e)[k] == reg[k]
  {
  }

  /** Whether the OS guarantees hold along `events` from `reg`: the timer
      queue never hands out the handle of a timer still registered, and only a
      registered timer fires, once (a one-shot timer). */
  ghost predicate Feasible(reg: map<Handle, TimerState>, events: seq<Event>)
    decreases |events|
  {
    events == [] ||
    (&& (match events[0]
         case ScheduleCall(o, _) => o.TimerArmed? ==> o.handle !in reg
         case TimerFire(h) => h in reg)
     && Feasible(ApplyEvent(reg, events[0]), events[1..]))
  }

  /** The registry after a sequence of events. */
  function Replay(reg: map<Handle, TimerState>, events: seq<Event>): map<Handle, TimerState>
    decreases |events|
  {
    if events == [] then reg else Replay(ApplyEvent(reg, events[0]), events[1..])
  }

  /** How many events in `events` armed a timer. */
  function ArmedCount(events: seq<Event>): nat
  {
    if events == [] then 0
    else (if events[0].ScheduleCall? && events[0].outcome.TimerArmed? then 1 else 0) + ArmedCount(events[1..])
  }

  /** How many events in `events` are timer fires. */
  function FireCount(events: seq<Event>): nat
  {
    if events == [] then 0
    else (if events[0].TimerFire? then 1 else 0) + FireCount(events[1..])
  }

  /** One feasible event changes the registry's size by the right amount: an
      arming adds one entry, a fire removes one, any other call none. */
  lemma ApplyEventSize(reg: map<Handle, TimerState>, e: Event)
    requires Feasible(reg, [e])
    ensures |ApplyEvent(reg, e)| + (if e.TimerFire? then 1 else 0)
         == |reg| + (if e.ScheduleCall? && e.outcome.TimerArmed? then 1 else 0)
  {
    match e
    case ScheduleCall(o, cb) =>
    case TimerFire(h) =>
      assert ApplyEvent(reg, e).Keys == reg.Keys - {h};
  }

  /** Along any feasible sequence of events, the registry holds exactly as
      many entries as it started with, plus the timers armed, minus the timers
      fired: nothing leaks and nothing is erased twice. */
  lemma {:induction false} ReplaySize(reg: map<Handle, TimerState>, events: seq<Event>)
    requires Feasible(reg, events)
    ensures |Replay(reg, events)| + FireCount(events) == |reg| + ArmedCount(events)
    decreases |events|
  {
    if events != [] {
      ApplyEventSize(reg, events[0]);
      ReplaySize(ApplyEvent(reg, events[0]), events[1..]);
    }
  }

  /** Starting from the empty registry, the registry is empty again exactly
      when every timer armed so far has fired; at no point have more timers
      fired than were armed. */
  lemma SettledIffEmpty(events: seq<Event>)
    requires Feasible(map[], events)
    ensures FireCount(events) <= ArmedCount(events)
    ensures Replay(map[], events) == map[] <==> FireCount(events) == ArmedCount(events)
  {
    ReplaySize(map[], events);
    if FireCount(events) == ArmedCount(events) {
      assert |Replay(map[], events)| == 0;
    }
  }

  /** Every entry stays keyed by its own handle along any sequence of events. */
  lemma {:induction false} ReplayKeyedByOwnHandle(reg: map<Handle, TimerState>, events: seq<Event>)
    requires KeyedByOwnHandle(reg)
    ensures KeyedByOwnHandle(Replay(reg, events))
    decreases |events|
  {
    if events != [] {
      var next := ApplyEvent(reg, events[0]);
      assert KeyedByOwnHandle(next);
      ReplayKeyedByOwnHandle(next, events[1..]);
    }
  }

  /** A fire is feasible only for a registered timer, so one arming fires at
      most once: a second fire of the same handle with no arming in between is
      never feasible. */
  lemma FiresAtMostOnce(reg: map<Handle, TimerState>, before: seq<Event>, h: Handle, between: seq<Event>)
    requires forall i :: 0 <= i < |between| ==> Touched(between[i]) != Some(h)
    ensures !Feasible(reg, before + [TimerFire(h)] + between + [TimerFire(h)])
  {
    assert before + [TimerFire(h)] + between + [TimerFire(h)] == before + ([TimerFire(h)] + between + [TimerFire(h)]);
    FeasibleSplit(reg, before, [TimerFire(h)] + between + [TimerFire(h)]);
    var r1 := Replay(reg, before);
    var r2 := ApplyEvent(r1, TimerFire(h));
    assert h !in r2;
    UntouchedStaysOut(r2, between, h);
    FeasibleSplit(ApplyEvent(r1, TimerFire(h)), between, [TimerFire(h)]);
    assert ([TimerFire(h)] + between + [TimerFire(h)])[1..] == between + [TimerFire(h)];
  }

  /** Feasibility of a concatenation splits at the seam. */
  lemma {:induction false} FeasibleSplit(reg: map<Handle, TimerState>, xs: seq<Event>, ys: seq<Event>)
    ensures Feasible(reg, xs + ys) <==> Feasible(reg, xs) && Feasible(Replay(reg, xs), ys)
    decreases |xs|
  {
    if xs != [] {
      assert (xs + ys)[0] == xs[0];
      assert (xs + ys)[1..] == xs[1..] + ys;
      FeasibleSplit(ApplyEvent(reg, xs[0]), xs[1..], ys);
    } else {
      assert xs + ys == ys;
    }
  }

  /** A single event is feasible when the OS guarantee for it holds. */
  lemma FeasibleOne(reg: map<Handle, TimerState>, e: Event)
    requires e.ScheduleCall? && e.outcome.TimerArmed? ==> e.outcome.handle !in reg
    requires e.TimerFire? ==> e.handle in reg
    ensures Feasible(reg, [e])
  {
    assert [e][1..] == [];
  }

  /** Replaying one more event applies it to the registry replayed so far. */
  lemma {:induction false} ReplayAppend(reg: map<Handle, TimerState>, events: seq<Event>, e: Event)
    ensures Replay(reg, events + [e]) == ApplyEvent(Replay(reg, events), e)
    decreases |events|
  {
    if events == [] {
      assert events + [e] == [e];
    } else {
      assert (events + [e])[1..] == events[1..] + [e];
      ReplayAppend(ApplyEvent(reg, events[0]), events[1..], e);
    }
  }

  /** A feasible history stays feasible when an event the OS allows next is
      appended. */
  lemma FeasibleAppend(reg: map<Handle, TimerState>, events: seq<Event>, e: Event)
    requires Feasible(reg, events)
    requires Feasible(Replay(reg, events), [e])
    ensures Feasible(reg, events + [e])
  {
    FeasibleSplit(reg, events, [e]);
  }

  /** A handle that no event touches stays out of the registry. */
  lemma {:induction false} UntouchedStaysOut(reg: map<Handle, TimerState>, events: seq<Event>, h: Handle)
    requires h !in reg
    requires forall i :: 0 <= i < |events| ==> Touched(events[i]) != Some(h)
    ensures h !in Replay(reg, events)
    decreases |events|
  {
    if events != [] {
      assert Touched(events[0]) != Some(h);
      UntouchedStaysOut(ApplyEvent(reg, events[0]), events[1..], h);
    }
  }
}
