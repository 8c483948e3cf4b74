/** The arithmetic of `current_epoch_ms` in src/addon.cpp: a Windows FILETIME
    (100-nanosecond ticks since 1601-01-01, split in two 32-bit halves) turned
    into milliseconds since the Unix epoch. Reading the system clock is not
    modelled: the FILETIME is a parameter. */
module Clock {

  const TWO_32: int := 0x1_0000_0000
  const TWO_64: int := 0x1_0000_0000_0000_0000

  /** Win32 `DWORD`: an unsigned 32-bit integer. */
  type Dword = x: int | 0 <= x < 0x1_0000_0000

  /** An unsigned 64-bit integer (`ULARGE_INTEGER::QuadPart`). */
  type U64 = x: int | 0 <= x < 0x1_0000_0000_0000_0000

  /** FILETIME ticks between 1601-01-01 and 1970-01-01. */
  const UNIX_EPOCH_TICKS: int := 116444736000000000

  /** FILETIME ticks (100 ns each) per millisecond. */
  const TICKS_PER_MS: int := 10000

  /** The largest value `current_epoch_ms` can return. */
  const MAX_EPOCH_MS: int := (0x1_0000_0000_0000_0000 - 1) / 10000

  datatype FileTime = FileTime(lowDateTime: Dword, highDateTime: Dword)

  /** The 64-bit tick count the two halves form. */
  function QuadPart(ft: FileTime): (q: U64)
    ensures q % TWO_32 == ft.lowDateTime
    ensures q / TWO_32 == ft.highDateTime
  {
    ft.highDateTime * 0x1_0000_0000 + ft.lowDateTime
  }

  /** Unsigned 64-bit subtraction, which wraps around below zero. */
  function SubU64(a: U64, b: U64): (d: U64)
    ensures (d + b) % TWO_64 == a
    ensures a >= b ==> d == a - b
  {
    (a - b) % 0x1_0000_0000_0000_0000
  }

  /** Milliseconds since the Unix epoch for a tick count: subtract the epoch
      offset in unsigned arithmetic, then divide by the ticks per millisecond.
      The quotient always fits a signed 64-bit integer, so the final cast to
      `int64_t` keeps it unchanged. */
  function EpochMsOfTicks(ticks: U64): (ms: int)
    ensures 0 <= ms <= MAX_EPOCH_MS < 0x8000_0000_0000_0000
  {
    SubU64(ticks, UNIX_EPOCH_TICKS) / TICKS_PER_MS
  }

  /** `current_epoch_ms` for a given reading of the clock. */
  function CurrentEpochMs(ft: FileTime): (ms: int)
    ensures 0 <= ms <= MAX_EPOCH_MS
  {
    EpochMsOfTicks(QuadPart(ft))
  }

  /** From the Unix epoch on, the result is the number of whole milliseconds
      elapsed: it counts down to the millisecond, never rounding up. */
  lemma EpochMsSinceUnixEpoch(ticks: U64)
    requires ticks >= UNIX_EPOCH_TICKS
    ensures var ms := EpochMsOfTicks(ticks);
      ms * TICKS_PER_MS <= ticks - UNIX_EPOCH_TICKS < (ms + 1) * TICKS_PER_MS
  {
    var d := ticks - UNIX_EPOCH_TICKS;
    assert SubU64(ticks, UNIX_EPOCH_TICKS) == d;
    var ms := d / TICKS_PER_MS;
    assert d == ms * TICKS_PER_MS + d % TICKS_PER_MS;
  }

  /** From the Unix epoch on, a later clock reading never gives an earlier
      millisecond count. */
  lemma EpochMsMonotone(t1: U64, t2: U64)
    requires UNIX_EPOCH_TICKS <= t1 <= t2
    ensures EpochMsOfTicks(t1) <= EpochMsOfTicks(t2)
  {
    EpochMsSinceUnixEpoch(t1);
    EpochMsSinceUnixEpoch(t2);
  }

  /** Every clock reading inside millisecond `ms` after the Unix epoch reads
      back as `ms`. */
  lemma EpochMsRoundTrip(ms: nat, subTicks: nat)
    requires subTicks < TICKS_PER_MS
    requires UNIX_EPOCH_TICKS + ms * TICKS_PER_MS + subTicks < TWO_64
    ensures EpochMsOfTicks(UNIX_EPOCH_TICKS + ms * TICKS_PER_MS + subTicks) == ms
  {
    var t := UNIX_EPOCH_TICKS + ms * TICKS_PER_MS + subTicks;
    EpochMsSinceUnixEpoch(t);
  }

  /** A clock reading before 1970 wraps around in the unsigned subtraction and
      reads as a point more than 1.7 * 10^15 ms (about 58,000 years) in the
      future, not as a negative number. */
  lemma BeforeUnixEpochWraps(ticks: U64)
    requires ticks < UNIX_EPOCH_TICKS
    ensures EpochMsOfTicks(ticks) >= (TWO_64 - UNIX_EPOCH_TICKS) / TICKS_PER_MS
  {
    assert SubU64(ticks, UNIX_EPOCH_TICKS) == ticks - UNIX_EPOCH_TICKS + TWO_64;
  }
}
