/** Conversion of a caller's (unit, value) pair into an absolute Unix-epoch
    millisecond deadline, as `normalize_to_ms` does it in src/addon.cpp.
    The value is an exact real number: the double-precision rounding of the
    products is not modelled. */
module Units {
  import opened Options

  /** The unit tags `setEpochTimer` accepts. */
  datatype TimeUnit = Seconds | Millis | Micros | Nanos

  /** The tag a caller writes for a unit. */
  function Tag(u: TimeUnit): string
  {
    match u
    case Seconds => "s"
    case Millis => "ms"
    case Micros => "us"
    case Nanos => "ns"
  }

  /** Recognises a unit tag; anything but the four exact tags is unknown. */
  function ParseUnit(tag: string): (u: Option<TimeUnit>)
    ensures u.Some? <==> tag in {"s", "ms", "us", "ns"}
    ensures u.Some? ==> Tag(u.value) == tag
  {
    if tag == "s" then Some(Seconds)
    else if tag == "ms" then Some(Millis)
    else if tag == "us" then Some(Micros)
    else if tag == "ns" then Some(Nanos)
    else None
  }

  /** Milliseconds per unit. */
  function MsPerUnit(u: TimeUnit): (scale: real)
    ensures scale > 0.0
  {
    match u
    case Seconds => 1000.0
    case Millis => 1.0
    case Micros => 1.0 / 1000.0
    case Nanos => 1.0 / 1000000.0
  }

  /** The value in milliseconds, computed the way each branch of
      `normalize_to_ms` writes it (a product for seconds, the value itself for
      milliseconds, a quotient for the two smaller units). */
  function ToMillis(u: TimeUnit, value: real): (ms: real)
    ensures ms == value * MsPerUnit(u)
  {
    match u
    case Seconds => value * 1000.0
    case Millis => value
    case Micros => value / 1000.0
    case Nanos => value / 1000000.0
  }

  /** C++ `static_cast` from a floating value to an integer: the fraction is
      dropped, so the result moves toward zero. */
  function TruncateTowardZero(x: real): (r: int)
    ensures x >= 0.0 ==> 0 <= r && r as real <= x < r as real + 1.0
    ensures x < 0.0 ==> r <= 0 && r as real - 1.0 < x <= r as real
  {
    if x >= 0.0 then x.Floor else -((-x).Floor)
  }

  /** `normalize_to_ms`: an unknown unit yields the sentinel -1; a known one
      adds one half to the millisecond value and truncates toward zero. */
  function NormalizeToMs(tag: string, value: real): (ms: int)
    ensures ParseUnit(tag).None? ==> ms == -1
    ensures ParseUnit(tag).Some? && ToMillis(ParseUnit(tag).value, value) >= -0.5 ==> ms >= 0
  {
    match ParseUnit(tag)
    case None => -1
    case Some(u) => TruncateTowardZero(ToMillis(u, value) + 0.5)
  }

  /** The deadline is positive exactly when the unit is known and the value is
      at least half a millisecond; everything else is rejected by the caller. */
  lemma NormalizedPositiveIff(tag: string, value: real)
    ensures NormalizeToMs(tag, value) > 0
        <==> ParseUnit(tag).Some? && ToMillis(ParseUnit(tag).value, value) >= 0.5
  {
    match ParseUnit(tag)
    case None =>
    case Some(u) =>
      var x := ToMillis(u, value) + 0.5;
      if x >= 1.0 {
        assert TruncateTowardZero(x) >= 1;
      } else if x >= 0.0 {
        assert TruncateTowardZero(x) == 0;
      }
  }

  /** For every value whose millisecond amount is at least -0.5 the result is
      round-half-up: the nearest integer, exact halves going up. */
  lemma RoundsHalfUp(tag: string, value: real)
    requires ParseUnit(tag).Some?
    requires ToMillis(ParseUnit(tag).value, value) >= -0.5
    ensures var x := ToMillis(ParseUnit(tag).value, value);
      && NormalizeToMs(tag, value) == (x + 0.5).Floor
      && NormalizeToMs(tag, value) as real - 0.5 <= x < NormalizeToMs(tag, value) as real + 0.5
  {
    var x := ToMillis(ParseUnit(tag).value, value);
    var r := NormalizeToMs(tag, value);
    assert r == TruncateTowardZero(x + 0.5);
    assert r as real <= x + 0.5 < r as real + 1.0;
  }

  /** Below -0.5 ms the cast truncates toward zero rather than flooring: a
      whole negative number of milliseconds v gives v + 1, not v. */
  lemma NegativeWholeMillisMoveTowardZero(v: int)
    requires v < 0
    ensures NormalizeToMs("ms", v as real) == v + 1
  {
    var x := v as real + 0.5;
    assert -x == (-v - 1) as real + 0.5;
    assert (-x).Floor == -v - 1;
  }

  /** Whole, non-negative numbers of seconds and of milliseconds convert
      exactly. */
  lemma WholeUnitsExact(v: int)
    requires v >= 0
    ensures NormalizeToMs("s", v as real) == 1000 * v
    ensures NormalizeToMs("ms", v as real) == v
  {
    assert (v as real) * 1000.0 + 0.5 == (1000 * v) as real + 0.5;
    assert ((1000 * v) as real + 0.5).Floor == 1000 * v;
    assert (v as real + 0.5).Floor == v;
  }

  /** For a fixed unit, a later value never gives an earlier deadline. */
  lemma NormalizeMonotone(tag: string, v1: real, v2: real)
    requires ParseUnit(tag).Some?
    requires v1 <= v2
    ensures NormalizeToMs(tag, v1) <= NormalizeToMs(tag, v2)
  {
    var u := ParseUnit(tag).value;
    var x1, x2 := ToMillis(u, v1) + 0.5, ToMillis(u, v2) + 0.5;
    assert x1 <= x2 by {
      MulMonotone(v1, v2, MsPerUnit(u));
    }
    TruncateMonotone(x1, x2);
  }

  lemma MulMonotone(a: real, b: real, k: real)
    requires a <= b && k > 0.0
    ensures a * k <= b * k
  {
    assert (b - a) * k >= 0.0;
  }

  lemma TruncateMonotone(x: real, y: real)
    requires x <= y
    ensures TruncateTowardZero(x) <= TruncateTowardZero(y)
  {
    if x >= 0.0 {
    } else if y < 0.0 {
      assert (-y).Floor <= (-x).Floor;
    }
  }

  /** Worked cases: two seconds, 1500 microseconds, an unknown tag and a
      negative millisecond value. */
  lemma Examples(anyValue: real)
    ensures NormalizeToMs("s", 2.0) == 2000
    ensures NormalizeToMs("us", 1500.0) == 2
    ensures NormalizeToMs("bogus", anyValue) == -1
    ensures NormalizeToMs("ms", -5.0) == -4
  {
    WholeUnitsExact(2);
    assert ToMillis(Micros, 1500.0) + 0.5 == 2.0;
    assert ParseUnit("bogus") == None;
    NegativeWholeMillisMoveTowardZero(-5);
  }
}
