/**
 * Small generic helpers: the nil-default helper, the singular/plural chooser
 * and the human-readable rendering of an expiry given in seconds.
 *
 * Go's `int` and `time.Duration` are 64-bit: the expiry is multiplied into
 * nanoseconds with two's-complement wrap-around, written out as `Wrap64`.
 */
module Generic {
  import opened GoStrings

  // ---------------------------------------------------------------------------
  // IfNil
  // ---------------------------------------------------------------------------

  /** A heap cell that a Go `*T` value points at. */
  class Cell<T> {
    var value: T

    constructor (v: T)
      ensures value == v
    {
      value := v;
    }
  }

  /** IfNil: the given cell itself when it is not nil, otherwise a new cell holding the default. */
  method IfNil<T>(val: Cell?<T>, defaultVal: T) returns (r: Cell<T>)
    ensures val != null ==> r == val
    ensures val == null ==> fresh(r) && r.value == defaultVal
  {
    if val == null {
      r := new Cell(defaultVal);
    } else {
      r := val;
    }
  }

  // ---------------------------------------------------------------------------
  // pluralize
  // ---------------------------------------------------------------------------

  /** pluralize: the singular form for exactly one, the plural form for every other count. */
  function Pluralize(n: int, singular: string, plural: string): (r: string)
    ensures n == 1 ==> r == singular
    ensures n != 1 ==> r == plural
  {
    if n == 1 then singular else plural
  }

  // ---------------------------------------------------------------------------
  // ExpiryToString
  // ---------------------------------------------------------------------------

  const Second: int := 1_000_000_000
  const Minute: int := 60_000_000_000
  const Hour: int := 3_600_000_000_000

  const TwoTo63: int := 0x8000_0000_0000_0000
  const TwoTo64: int := 0x1_0000_0000_0000_0000

  predicate IsInt64(x: int)
  {
    -TwoTo63 <= x < TwoTo63
  }

  /** Two's-complement wrap-around into 64 bits. */
  function Wrap64(x: int): (r: int)
    ensures IsInt64(r)
    ensures IsInt64(x) ==> r == x
    ensures (r - x) % TwoTo64 == 0
  {
    (x + TwoTo63) % TwoTo64 - TwoTo63
  }

  /** `time.Duration(seconds) * time.Second`, in nanoseconds. */
  function Nanos(seconds: int): int
    requires IsInt64(seconds)
  {
    Wrap64(seconds * Second)
  }

  /** The largest expiry, in seconds, whose nanosecond count fits in 64 bits. */
  const MaxExact: int := 9_223_372_036

  /** Inside the exact range the duration is the expiry in nanoseconds. */
  lemma NanosExact(seconds: int)
    requires -MaxExact <= seconds <= MaxExact
    ensures Nanos(seconds) == seconds * Second
  {
  }

  /** ExpiryToString: under a minute, then whole minutes, whole hours, or whole days, with the unit pluralised. */
  function ExpiryToString(seconds: int): (r: string)
    requires IsInt64(seconds)
  {
    var d := Nanos(seconds);
    if d < Minute then "less than a minute"
    else if d < Hour then
      var minutes := d / Minute;
      IntToString(minutes) + " " + Pluralize(minutes, "minute", "minutes")
    else if d < 24 * Hour then
      var hours := d / Hour;
      IntToString(hours) + " " + Pluralize(hours, "hour", "hours")
    else
      var days := (d / Hour) / 24;
      IntToString(days) + " " + Pluralize(days, "day", "days")
  }

  /** Converting seconds to nanoseconds and dividing by a minute gives the whole minutes. */
  lemma MinutesOfNanos(seconds: int)
    requires seconds >= 0
    ensures (seconds * Second) / Minute == seconds / 60
  {
    var q := seconds / 60;
    assert q * 60 <= seconds < q * 60 + 60;
    assert q * Minute <= seconds * Second < q * Minute + Minute;
  }

  /** Converting seconds to nanoseconds and dividing by an hour gives the whole hours. */
  lemma HoursOfNanos(seconds: int)
    requires seconds >= 0
    ensures (seconds * Second) / Hour == seconds / 3600
  {
    var q := seconds / 3600;
    assert q * 3600 <= seconds < q * 3600 + 3600;
    assert q * Hour <= seconds * Second < q * Hour + Hour;
  }

  /** Dividing by 3600 and then by 24 is dividing by 86400. */
  lemma NestedDiv(seconds: int)
    requires seconds >= 0
    ensures (seconds / 3600) / 24 == seconds / 86400
  {
    var q := seconds / 86400;
    assert q * 86400 <= seconds < q * 86400 + 86400;
    assert q * 24 <= seconds / 3600 < q * 24 + 24;
  }

  /** Less than a minute, including every negative expiry that does not wrap. */
  lemma ExpiryUnderMinute(seconds: int)
    requires -MaxExact <= seconds < 60
    ensures ExpiryToString(seconds) == "less than a minute"
  {
    NanosExact(seconds);
  }

  /** From a minute up to an hour: the whole minutes. */
  lemma ExpiryMinutes(seconds: int)
    requires 60 <= seconds < 3600
    ensures ExpiryToString(seconds) == IntToString(seconds / 60) + " " + Pluralize(seconds / 60, "minute", "minutes")
  {
    NanosExact(seconds);
    MinutesOfNanos(seconds);
  }

  /** From an hour up to a day: the whole hours. */
  lemma ExpiryHours(seconds: int)
    requires 3600 <= seconds < 86400
    ensures ExpiryToString(seconds) == IntToString(seconds / 3600) + " " + Pluralize(seconds / 3600, "hour", "hours")
  {
    NanosExact(seconds);
    HoursOfNanos(seconds);
  }

  /** From a day on, as long as the nanoseconds fit: the whole days. */
  lemma ExpiryDays(seconds: int)
    requires 86400 <= seconds <= MaxExact
    ensures ExpiryToString(seconds) == IntToString(seconds / 86400) + " " + Pluralize(seconds / 86400, "day", "days")
  {
    NanosExact(seconds);
    HoursOfNanos(seconds);
    NestedDiv(seconds);
  }

  /** One second past the exact range the duration wraps negative and the expiry reads as under a minute. */
  lemma ExpiryWraps()
    ensures Nanos(MaxExact + 1) < 0
    ensures ExpiryToString(MaxExact + 1) == "less than a minute"
  {
  }
}
