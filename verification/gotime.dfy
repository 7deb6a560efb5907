/**
 * The parts of Go's `time` package the client relies on: instants as integer
 * nanoseconds since the Unix epoch, and `time.Duration` as int64 nanoseconds.
 */
module GoTime {
  import opened GoStrings

  const NanosPerSecond: int := 1_000_000_000

  /** An instant, as nanoseconds since 1970-01-01T00:00:00Z. */
  datatype Timestamp = Timestamp(unixNano: int)

  /** Seconds from January 1 of year 1 to the Unix epoch: the offset of time.Time's internal seconds. */
  const UnixToInternal: int := 62_135_596_800

  /**
   * time.Unix(sec, 0). The time stores `sec + UnixToInternal` in an int64, so
   * a second within UnixToInternal of MaxInt64 wraps around to an instant
   * about 584 billion years before the epoch.
   */
  function Unix(sec: int): (t: Timestamp)
    requires InInt64(sec)
    ensures sec <= MaxInt64 - UnixToInternal ==> t.unixNano == sec * NanosPerSecond
    ensures sec > MaxInt64 - UnixToInternal ==> t.unixNano < MinInt64 * NanosPerSecond
    ensures t.unixNano % NanosPerSecond == 0
  {
    var internal := sec + UnixToInternal;
    var stored := if internal > MaxInt64 then internal - 0x1_0000_0000_0000_0000 else internal;
    var unixSec := stored - UnixToInternal;
    assert unixSec * NanosPerSecond % NanosPerSecond == 0;
    Timestamp(unixSec * NanosPerSecond)
  }

  /** The zero time.Time, January 1 of year 1, 00:00:00 UTC. */
  const ZeroTime: Timestamp := Timestamp(-UnixToInternal * NanosPerSecond)

  /** t.Before(u) */
  predicate Before(t: Timestamp, u: Timestamp) {
    t.unixNano < u.unixNano
  }

  /** t.Sub(u): the elapsed nanoseconds, saturated to the int64 range of time.Duration. */
  function Sub(t: Timestamp, u: Timestamp): (d: int)
    ensures InInt64(d)
    ensures InInt64(t.unixNano - u.unixNano) ==> d == t.unixNano - u.unixNano
    ensures !InInt64(t.unixNano - u.unixNano) ==> (d == MinInt64 <==> Before(t, u))
  {
    var exact := t.unixNano - u.unixNano;
    if exact < MinInt64 then MinInt64
    else if exact > MaxInt64 then MaxInt64
    else exact
  }
}
