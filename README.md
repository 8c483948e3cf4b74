# node-epoch: epoch-deadline timer, modelled in Dafny

node-epoch is a Node.js native addon for Windows. It exposes one function:
`setEpochTimer(unit, value, callback)`. The function runs `callback` once an
absolute Unix-epoch deadline is reached. All of its logic is in `src/addon.cpp`.
This project models that logic in five modules, plus a small `Options`
module (option.dfy) holding the `Option` type they share:

- `Units` (units.dfy) models `normalize_to_ms`. A unit tag (`"s"`, `"ms"`,
  `"us"`, `"ns"`) and a value become a millisecond deadline: scale the value,
  add one half, truncate toward zero. Any other tag gives the sentinel -1.
- `Clock` (clock.dfy) models the arithmetic of `current_epoch_ms`. The two
  32-bit halves of a FILETIME form a 64-bit tick count. The code subtracts
  the 1601-to-1970 offset in unsigned 64-bit arithmetic, which wraps around,
  then divides by 10000 ticks per millisecond.
- `Scheduling` (scheduling.dfy) models the decision `SetEpochTimer` makes.
  A deadline <= 0 is an invalid argument. A deadline that is not after
  the current time runs the callback at once. Otherwise the code asks the
  timer queue for a one-shot timer, whose due time is the delay cast to a
  32-bit `DWORD`. The queue then either fails or hands back a handle.
- `Registry` (registry.dfy) models the global map `activeTimers` as a value.
  Only two events change it: a `setEpochTimer` call that arms a timer
  inserts an entry, and a timer firing erases one. Replaying a history of
  such events gives the registry at any point. A history is feasible when it
  respects the timer queue's guarantees: a new timer never gets the handle
  of a registered one, and only a registered timer fires. Lemmas over
  feasible histories count entries (armed minus fired) and show that one
  arming fires at most once.
- `EpochTimer` (epoch_timer.dfy) models the addon's state as the class
  `Addon`. `SetEpochTimer` inserts an entry only when the timer queue
  accepts the timer. `TimerCallback` hands the callback to the JavaScript
  thread through `BlockingCall`, then erases that timer's entry, deletes the
  OS timer and releases the thread-safe function. Ghost fields keep the
  history of events, each handle's phase (Armed, Fired, CleanedUp) and how
  many times its callback was handed over. The invariant `Valid()` says four
  things:
  - the registry is the replay of a feasible history, so each entry is keyed
    by its own handle (`Registry.ReplayKeyedByOwnHandle`);
  - a handle has an entry exactly while it is Armed or Fired;
  - the counted deliveries of an arming are at most one, and none before its
    timer fires;
  - the number of unreleased thread-safe functions equals the number of entries.

The model takes these things as parameters:
- the clock reading (a FILETIME);
- the timer queue's answer (failure, or a handle not currently in use);
- whether `BlockingCall` accepted the call into JavaScript.

It records the calls the addon makes to the outside as sequences in `Addon`:
- the callbacks handed to the JavaScript thread (run at once, or queued by a timer);
- the arguments of each `CreateTimerQueueTimer` call;
- the handles passed to `DeleteTimerQueueTimer`.

Where what the code evidently means and what it does differ, the model
follows what it does:

- Adding `0.5` before the cast reads as rounding half up, `floor(x + 0.5)`.
  But `static_cast<int64_t>` truncates toward zero. The two differ only
  below -0.5 ms: for example, `("ms", -5)` gives -4, not -5
  (`Units.NegativeWholeMillisMoveTowardZero`). Both results are <= 0, so the
  call is rejected either way (`Units.NormalizedPositiveIff`).
- The timer is created with `WT_EXECUTEINTIMERTHREAD`, so `TimerCallback`
  runs in the timer-queue thread itself rather than on a worker thread. The
  flag is recorded in `Scheduling.TimerRequest`.
- `setEpochTimer` runs its callback at an absolute deadline, so a callback
  should never run before that deadline. The code casts the delay to a
  32-bit `DWORD`. A delay of 2^32 ms (about 49.7 days) or more therefore
  loses its high bits, and the timer is asked to fire early
  (`Scheduling.LongDelayFiresEarly`). The model keeps the cast as written.
- The name `BlockingCall` suggests that the timer thread waits until the
  callback has run. The thread-safe function is created with a maximum queue
  size of 0 (src/addon.cpp:101), which means an unbounded queue. So
  `BlockingCall` queues the callback and returns at once. The callback runs
  later on the JavaScript thread, possibly after the timer's cleanup.
- A clock reading before 1970 wraps around in the unsigned subtraction. It
  then reads as a time far in the future rather than a negative one
  (`Clock.BeforeUnixEpochWraps`).

## Model

| member | source | states |
|---|---|---|
| Units.ParseUnit | src/addon.cpp:51-55 | A tag is recognised exactly when it is one of "s", "ms", "us", "ns", and it is the tag of the unit it is recognised as |
| Units.MsPerUnit | src/addon.cpp:51-54 | Every unit has a positive number of milliseconds per unit |
| Units.ToMillis | src/addon.cpp:51-54 | Each branch's expression is the value times that unit's scale: x1000, x1, /1000, /1,000,000 |
| Units.TruncateTowardZero | src/addon.cpp:51-54 | The cast to int64_t drops the fraction: for x >= 0 the result is the largest integer <= x; for x < 0 it is the smallest integer >= x |
| Units.NormalizeToMs | src/addon.cpp:50-56 | An unknown unit gives -1; a known unit with a millisecond value >= -0.5 gives a non-negative deadline |
| Units.NormalizedPositiveIff | src/addon.cpp:50-56 | The deadline is > 0 if and only if the unit is known and the value is at least 0.5 ms |
| Units.RoundsHalfUp | src/addon.cpp:51-54 | For millisecond values >= -0.5 the deadline is floor(x + 0.5): the nearest integer, with halves rounded up |
| Units.NegativeWholeMillisMoveTowardZero | src/addon.cpp:52 | A whole negative number v of milliseconds gives v + 1, because the cast truncates toward zero |
| Units.WholeUnitsExact | src/addon.cpp:51-52 | Whole seconds v >= 0 give exactly 1000*v; whole milliseconds v >= 0 give exactly v |
| Units.NormalizeMonotone | src/addon.cpp:51-54 | For a fixed known unit, a larger value never gives an earlier deadline |
| Units.TruncateMonotone | src/addon.cpp:51-54 | Truncation toward zero preserves order |
| Units.Examples | src/addon.cpp:50-55 | ("s", 2) gives 2000, ("us", 1500) gives 2, an unknown tag gives -1, ("ms", -5) gives -4 |
| Clock.QuadPart | src/addon.cpp:61 | The 64-bit tick count has the low DWORD as its low 32 bits and the high DWORD as its high 32 bits |
| Clock.SubU64 | src/addon.cpp:62 | Unsigned subtraction is exact when it cannot go negative and is otherwise correct modulo 2^64 |
| Clock.EpochMsOfTicks | src/addon.cpp:62 | The millisecond count is between 0 and (2^64-1)/10000, so the cast to int64_t keeps it exact |
| Clock.CurrentEpochMs | src/addon.cpp:58-63 | The current time is a non-negative millisecond count that fits a signed 64-bit integer |
| Clock.EpochMsSinceUnixEpoch | src/addon.cpp:62 | From 1970 on, the result is the number of whole milliseconds elapsed since the Unix epoch: ms*10000 <= ticks - offset < (ms+1)*10000 |
| Clock.EpochMsMonotone | src/addon.cpp:58-63 | From 1970 on, a later clock reading never gives a smaller millisecond count |
| Clock.EpochMsRoundTrip | src/addon.cpp:62 | Every tick inside millisecond ms after the Unix epoch converts back to ms |
| Clock.BeforeUnixEpochWraps | src/addon.cpp:62 | A reading before 1970 wraps around to a count of at least (2^64 - offset)/10000 ms |
| Scheduling.DwordCast | src/addon.cpp:110 | static_cast<DWORD> gives a value congruent to the input modulo 2^32, and equal to the input when it already fits |
| Scheduling.TimerRequestFor | src/addon.cpp:105-113 | The request is one-shot (period 0, execute-only-once), and its due time is the delay modulo 2^32, exactly the delay below 2^32 |
| Scheduling.Decide | src/addon.cpp:81-124 | Four outcomes, each stated in both directions: rejected iff target <= 0; run at once iff 0 < target <= now; timer creation failed iff target > now and the queue failed; armed with the queue's handle iff target > now and the queue returned one |
| Scheduling.ScheduleOutcome | src/addon.cpp:81-90 | Normalise, read the clock, decide: the callback runs at once iff the normalised deadline is positive and not after the clock's reading; the timer queue is asked iff the deadline is after that reading |
| Scheduling.RejectedIff | src/addon.cpp:81-85 | A call is rejected iff the unit is unknown or the value is below 0.5 ms; an unknown unit is rejected whatever the clock and the queue say |
| Scheduling.PastSecondsRunImmediately | src/addon.cpp:87-93 | Whole seconds at or before the current time run the callback at once, without the timer queue, whatever the queue would have answered |
| Scheduling.FutureMillisArm | src/addon.cpp:87-113 | Whole milliseconds after the current time reach the timer queue; the outcome is a creation failure iff the queue fails |
| Scheduling.LongDelayFiresEarly | src/addon.cpp:88-110 | For delays of 2^32 ms or more the due time is shorter than the delay; a delay of exactly 2^32 ms becomes due time 0 |
| Registry.ApplyEvent | src/addon.cpp:121-124 | An arming leaves handle -> (callback, handle) in the registry; a fire leaves the fired handle out of it (the erase at lines 40-43) |
| Registry.ApplyEventFrame | src/addon.cpp:40-43 | Insert and erase are keyed by one handle: every other handle keeps its presence and its entry |
| Registry.ApplyEventSize | src/addon.cpp:121-124 | Under the queue's guarantees an arming adds exactly one entry, a fire removes exactly one, and any other call none |
| Registry.ReplaySize | src/addon.cpp:21-124 | Along any feasible history, entries = entries at the start + timers armed - timers fired |
| Registry.SettledIffEmpty | src/addon.cpp:40-43 | From an empty registry, never more fires than armings, and the registry is empty again iff every armed timer has fired |
| Registry.ReplayKeyedByOwnHandle | src/addon.cpp:121-124 | Every entry stays keyed by the handle stored in its state, along any history |
| Registry.FiresAtMostOnce | src/addon.cpp:111-112 | A one-shot timer cannot fire twice: two fires of one handle with no arming of it in between is never a feasible history |
| Registry.UntouchedStaysOut | src/addon.cpp:40-43 | A handle that no event arms or fires never enters the registry |
| EpochTimer.ScheduleKeepsConsistent | src/addon.cpp:115-124 | A call keeps the registry equal to the replay of a feasible history; an armed timer starts Armed with no delivery, and the registry grows by one exactly when a timer is armed |
| EpochTimer.DeliverKeepsConsistent | src/addon.cpp:31-37 | Handing an armed timer's callback over adds one to its delivery count when accepted and nothing otherwise, and keeps the invariant (so the count stays at most one); the timer still has its entry |
| EpochTimer.FireKeepsConsistent | src/addon.cpp:39-43 | Erasing a fired timer keeps the invariant, removes exactly one entry, and the erased entry was keyed by its own handle |
| EpochTimer.Addon.constructor | src/addon.cpp:21-22 | The module starts with an empty registry and no calls made |
| EpochTimer.Addon.SetEpochTimer | src/addon.cpp:65-127 | The outcome is the normalise-read-clock-decide outcome. Only the immediate path runs the callback, once. Only a call reaching the queue makes a request, with the delay as due time. Only a successful arm changes the registry, adding exactly handle -> (callback, handle). A failed arm releases its thread-safe function |
| EpochTimer.Addon.ScheduleDeadline | src/addon.cpp:81-127 | For a known deadline and current time: the outcome is the four-way decision; the callbacks run, the timer requests, the registry, the history and the phases change exactly as that outcome says; the invariant is kept |
| EpochTimer.Addon.Register | src/addon.cpp:121-124 | The registry step: an armed timer's entry is inserted, the history grows by the call, the invariant is kept, and the registry grows by one exactly when a timer is armed |
| EpochTimer.Addon.DeliverCallback | src/addon.cpp:31-37 | An armed timer's `BlockingCall` hands that timer's callback to the JavaScript thread exactly once when accepted and not at all when it fails; the delivery count grows accordingly, the timer becomes Fired and the registry is untouched |
| EpochTimer.Addon.CleanupTimer | src/addon.cpp:39-47 | A fired timer's entry, and only that entry, leaves the registry; its handle is passed to DeleteTimerQueueTimer once, and one thread-safe function is released |
| EpochTimer.Addon.TimerCallback | src/addon.cpp:26-48 | One fire of a one-shot timer hands its callback over at most once (exactly once when `BlockingCall` accepts it), then erases only that timer's entry and deletes that timer |
| EpochTimer.SettledRegistryIsEmpty | src/addon.cpp:39-43 | The registry is empty iff as many timers have fired as were armed since load; then every thread-safe function is released |
| EpochTimer.ArmedTimerFiresOnce | src/addon.cpp:26-124 | Arming a future deadline and firing that timer hands the callback to the JavaScript thread exactly once; afterwards the registry and the live thread-safe functions are as they were |

## Left out

- `Napi::ThreadSafeFunction::New` (src/addon.cpp:97-103) is assumed to succeed. If it fails, node-addon-api raises an exception before `CreateTimerQueueTimer` is called at line 105. That would be a fifth outcome for a future deadline, an error with no timer request, and it is not modelled. So `Scheduling.Decide`'s statement that every future deadline reaches the timer queue holds only under this assumption.
- Argument checks and exception translation at the Node.js boundary (src/addon.cpp:66-79) are not modelled. `SetEpochTimer` receives a string, a real and a callback identity. Thrown errors become `Outcome` values.
- Floating point: the value is an exact real. The double-precision rounding of `value * 1000.0`, `value / 1000.0` and `value / 1'000'000.0` is not modelled.
- Units.NormalizeToMs: the result is the exact, unbounded integer for every real value. In C++ the cast to int64_t is undefined behaviour when the scaled value is at least 2^63 in magnitude, and for NaN and ±Infinity, which pass the `IsNumber()` check at src/addon.cpp:70. The model has no NaN or infinities at all. For the out-of-range inputs the model's outcome is not the program's: for example `("ms", 1e20)` arms a timer in the model, while on x86-64 the cast yields INT64_MIN and the program rejects the call.
- Reading the system clock (`GetSystemTimeAsFileTime`, src/addon.cpp:60) is I/O. The FILETIME is a parameter.
- The timer queue (`CreateTimerQueueTimer`, `DeleteTimerQueueTimer`) is foreign code. Its answer is an input, and the requests it receives are recorded. The result of `DeleteTimerQueueTimer` is ignored by the source and not modelled.
- Timing is not modelled. There is no clock between calls, so nothing says when a timer fires relative to its due time. `TimerCallback` may be called at any point after a successful arm, at most once per arming.
- `Napi::ThreadSafeFunction::BlockingCall` and the mutex are concurrency primitives. The call's status is a boolean input. The source's `status != napi_ok` branch is empty, so a failed call has no effect beyond not queueing the callback. Each operation is atomic in the model.
- EpochTimer.Addon.DeliverCallback: success means the callback was queued for the JavaScript thread, not that it ran. `invoked` records callbacks handed to that thread. When a queued callback actually runs, relative to the erase, `DeleteTimerQueueTimer` and `Release` at src/addon.cpp:42-46, is not modelled.
- The race in which the timer fires before the insert at src/addon.cpp:121-124 is not captured. In the source, that case leaves a registry entry for a timer that has already fired and been freed. The model's atomic `SetEpochTimer` cannot fire in the middle.
- Memory safety of `TimerCallback` is not captured. Erasing the entry at src/addon.cpp:42 destroys the owning `unique_ptr`. The state is then read again at lines 45-46 and deleted again at line 47. The model performs those steps on an intact state and does not claim the source is free of this use-after-free and double delete.
- The null check `if (!state) return;` (src/addon.cpp:28) is not modelled. The timer queue always passes the state pointer given at line 109, and it is never null.
- `std::unordered_map::operator[]` replacing an existing entry is excluded by the precondition that the queue's handle is not in use. The OS does not reuse the handle of an armed timer.
- The `LOG_INFO` macro (src/addon.cpp:9-13) is unused diagnostic output and is not modelled. Module registration (`Init`, `NODE_API_MODULE`, src/addon.cpp:129-134) is not modelled. test/basic.js is a demo with no assertions and is not part of this model.
