/** The decision `SetEpochTimer` makes in src/addon.cpp, as pure functions of
    the normalised deadline, the current time and what the timer queue
    answered: reject, run the callback at once, report that no timer could be
    created, or arm a one-shot timer. */
module Scheduling {
  import opened Clock
  import opened Units

  /** A timer-queue `HANDLE`: an opaque identifier chosen by the OS. */
  type Handle = nat

  /** What `CreateTimerQueueTimer` answered. */
  datatype CreateResult = CreateFailed | Created(handle: Handle)

  /** How one `setEpochTimer` call ended. */
  datatype Outcome =
    | InvalidArgument        // TypeError "Invalid unit or value <= 0"
    | RanImmediately         // the callback was called before returning
    | TimerCreateFailed      // Error "CreateTimerQueueTimer failed"
    | TimerArmed(handle: Handle)

  /** The arguments handed to `CreateTimerQueueTimer`. */
  datatype TimerRequest = TimerRequest(
    dueTime: Dword,
    period: Dword,
    executeOnlyOnce: bool,      // WT_EXECUTEONLYONCE
    executeInTimerThread: bool  // WT_EXECUTEINTIMERTHREAD
  )

  /** `static_cast<DWORD>` of a 64-bit integer: the value modulo 2^32. */
  function DwordCast(x: int): (d: Dword)
    ensures (x - d) % TWO_32 == 0
    ensures 0 <= x < TWO_32 ==> d == x
  {
    x % 0x1_0000_0000
  }

  /** The one-shot timer request made for a positive delay. */
  function TimerRequestFor(delayMs: int): (req: TimerRequest)
    requires delayMs > 0
    ensures req.period == 0 && req.executeOnlyOnce
    ensures (delayMs - req.dueTime) % TWO_32 == 0
    ensures delayMs < TWO_32 ==> req.dueTime == delayMs
  {
    TimerRequest(DwordCast(delayMs), 0, true, true)
  }

  /** The outcome of `SetEpochTimer` for a normalised deadline `targetMs`, the
      current time `nowMs` and the timer queue's answer `create`, which is
      consulted only when a timer is to be armed. Each of the four outcomes is
      characterised in both directions by the deadline and the current time. */
  function Decide(targetMs: int, nowMs: int, create: CreateResult): (o: Outcome)
    ensures o == InvalidArgument <==> targetMs <= 0
    ensures o == RanImmediately <==> 0 < targetMs <= nowMs
    ensures ReachesTimerQueue(o) <==> 0 < targetMs && nowMs < targetMs
    ensures o == TimerCreateFailed <==> 0 < targetMs && nowMs < targetMs && create == CreateFailed
    ensures o.TimerArmed? <==> 0 < targetMs && nowMs < targetMs && create.Created?
    ensures o.TimerArmed? ==> o.handle == create.handle
  {
    if targetMs <= 0 then InvalidArgument
    else if targetMs - nowMs <= 0 then RanImmediately
    else match create
      case CreateFailed => TimerCreateFailed
      case Created(h) => TimerArmed(h)
  }

  /** Whether the call reaches `CreateTimerQueueTimer`. */
  predicate ReachesTimerQueue(o: Outcome)
  {
    o.TimerCreateFailed? || o.TimerArmed?
  }

  /** `setEpochTimer` as a whole: normalise, read the clock, decide. The
      callback runs at once exactly when the normalised deadline is positive
      and not after the clock's reading, and the timer queue is asked exactly
      when the deadline is after it. */
  function ScheduleOutcome(tag: string, value: real, clock: FileTime, create: CreateResult): (o: Outcome)
    ensures o == RanImmediately <==> 0 < NormalizeToMs(tag, value) <= CurrentEpochMs(clock)
    ensures ReachesTimerQueue(o) <==> CurrentEpochMs(clock) < NormalizeToMs(tag, value)
  {
    Decide(NormalizeToMs(tag, value), CurrentEpochMs(clock), create)
  }

  /** A call is rejected exactly when the unit is unknown or the value is less
      than half a millisecond; an unknown unit is always rejected, whatever the
      clock and the timer queue say. */
  lemma RejectedIff(tag: string, value: real, clock: FileTime, create: CreateResult)
    ensures ScheduleOutcome(tag, value, clock, create) == InvalidArgument
        <==> !(ParseUnit(tag).Some? && ToMillis(ParseUnit(tag).value, value) >= 0.5)
    ensures ParseUnit(tag).None? ==> ScheduleOutcome(tag, value, clock, create) == InvalidArgument
  {
    NormalizedPositiveIff(tag, value);
  }

  /** A whole number of seconds that is not after the current time runs the
      callback at once, without touching the timer queue. */
  lemma PastSecondsRunImmediately(seconds: int, nowMs: int, create: CreateResult)
    requires 1 <= seconds
    requires 1000 * seconds <= nowMs
    ensures Decide(NormalizeToMs("s", seconds as real), nowMs, create) == RanImmediately
  {
    WholeUnitsExact(seconds);
  }

  /** A whole number of milliseconds after the current time reaches the
      timer queue, and fails exactly when the queue does. */
  lemma FutureMillisArm(ms: int, nowMs: int, create: CreateResult)
    requires 0 <= nowMs < ms
    ensures ReachesTimerQueue(Decide(NormalizeToMs("ms", ms as real), nowMs, create))
    ensures Decide(NormalizeToMs("ms", ms as real), nowMs, create) == TimerCreateFailed <==> create.CreateFailed?
  {
    WholeUnitsExact(ms);
  }

  /** The cast to `DWORD` loses the high bits of a delay of 2^32 ms (about
      49.7 days) or more: the timer is then asked to fire sooner than the
      deadline, a delay of exactly 2^32 ms becoming a due time of 0. */
  lemma LongDelayFiresEarly(delayMs: int)
    requires delayMs >= TWO_32
    ensures TimerRequestFor(delayMs).dueTime < delayMs
    ensures delayMs == TWO_32 ==> TimerRequestFor(delayMs).dueTime == 0
  {
  }
}
