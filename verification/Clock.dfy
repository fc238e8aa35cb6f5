/** Time as arping keeps it: split seconds and nanoseconds, borrowed from but never carried into. */
module Clock {
  import opened Ints

  const NANOS := 1_000_000_000
  const MICROS := 1_000_000

  /** A struct timespec. Nothing keeps nsec below one second, or above zero. */
  datatype Timespec = Timespec(sec: int, nsec: int)

  /** A struct timeval, as handed to select. */
  datatype Timeval = Timeval(sec: int, usec: int)

  /** One call of getclock: the time it stored, and whether gettimeofday failed (then the time is arbitrary). */
  datatype Reading = Reading(t: Timespec, failed: bool)

  function Total(t: Timespec): int {
    t.sec * NANOS + t.nsec
  }

  /** The nanoseconds that a timeval asks select to wait. */
  function Duration(tv: Timeval): int {
    tv.sec * NANOS + tv.usec * 1000
  }

  /** timespec2dbl, over the reals. */
  function Seconds(t: Timespec): real {
    t.sec as real + t.nsec as real / 1000000000.0
  }

  /** What gettimeofday delivers when it works: a whole number of microseconds below one second. */
  predicate Normal(t: Timespec) {
    0 <= t.nsec < NANOS && t.nsec % 1000 == 0
  }

  predicate Genuine(r: Reading) {
    !r.failed && Normal(r.t)
  }

  lemma SecondsIsTotal(t: Timespec)
    ensures Seconds(t) == Total(t) as real / 1000000000.0
  {
  }

  /** Comparing readings as seconds is comparing them as whole nanoseconds. */
  lemma SecondsKeepOrder(a: Timespec, b: Timespec)
    ensures Seconds(a) <= Seconds(b) <==> Total(a) <= Total(b)
  {
  }

  /** The value that fixup_timespec leaves: seconds lend to negative nanoseconds, large nanoseconds stay. */
  function Fixed(t: Timespec): Timespec {
    if t.nsec >= 0 then t else Timespec(t.sec + t.nsec / NANOS, t.nsec % NANOS)
  }

  /** fixup_timespec. It preserves the instant, and repairs negative nanoseconds only. */
  method FixupTimespec(t: Timespec) returns (r: Timespec)
    ensures r == Fixed(t)
    ensures Total(r) == Total(t)
    ensures 0 <= r.nsec && (t.nsec < 0 ==> r.nsec < NANOS)
  {
    r := t;
    while r.nsec < 0
      invariant Total(r) == Total(t)
      invariant t.nsec < 0 ==> r.nsec < NANOS
      invariant t.nsec >= 0 ==> r == t
      decreases -r.nsec
    {
      r := Timespec(r.sec - 1, r.nsec + NANOS);
    }
  }

  // ----- the listening window of ping_recv

  /** The end of a window of w microseconds opened at start. */
  function EndTime(start: Timespec, w: uint32): Timespec {
    Fixed(Timespec(start.sec + w / MICROS, start.nsec + 1000 * (w % MICROS)))
  }

  /** The end is the start plus w microseconds, however it is split. */
  lemma EndIsExact(start: Timespec, w: uint32)
    ensures Total(EndTime(start, w)) == Total(start) + 1000 * w
  {
  }

  /** The time that is left at now, as ping_recv computes it. */
  function Left(end: Timespec, now: Timespec): Timespec {
    Fixed(Timespec(end.sec - now.sec, end.nsec - now.nsec))
  }

  predicate Expired(left: Timespec) {
    left.sec < 0
  }

  /** The guard that is meant to notice a clock set backwards. */
  predicate TooLong(left: Timespec, w: uint32) {
    left.sec > w / MICROS || (left.sec == w / MICROS && left.nsec / 1000 > w % MICROS)
  }

  /** What one turn of the loop decides before select: how long to wait, and whether this is the last turn. */
  datatype Plan = Plan(tv: Timeval, last: bool)

  function PlanTurn(end: Timespec, now: Timespec, w: uint32): Plan {
    var left := Left(end, now);
    if Expired(left) || TooLong(left, w) then Plan(Timeval(0, 0), true)
    else Plan(Timeval(left.sec, left.nsec / 1000), false)
  }

  /** By how much a window's end overflows its nanosecond field; the source has no carry to absorb it. */
  function Carry(start: Timespec, w: uint32): nat {
    var n := start.nsec + 1000 * (w % MICROS);
    if n > NANOS then n - NANOS else 0
  }

  /** The guard fires on exactly the readings that precede the start of the window. */
  lemma GuardIffClockMovedBack(start: Timespec, now: Timespec, w: uint32)
    requires Normal(start) && Normal(now)
    ensures TooLong(Left(EndTime(start, w), now), w) <==> Total(now) < Total(start)
  {
  }

  /** Which turns are the last: those whose reading precedes the start of the window, and those whose reading is
      past its end, compared by seconds first. In these select only looks. */
  lemma LastTurnIff(start: Timespec, now: Timespec, w: uint32)
    requires Normal(start) && Normal(now)
    ensures var p := PlanTurn(EndTime(start, w), now, w);
            var sec, nsec := start.sec + w / 1_000_000, start.nsec + 1000 * (w % 1_000_000);
            && (p.last <==> || Total(now) < Total(start)
                            || now.sec > sec || (now.sec == sec && now.nsec > nsec))
            && (p.last ==> p.tv == Timeval(0, 0))
  {
    hide Total;
    GuardIffClockMovedBack(start, now, w);
  }

  /** After the clock has been set back before the window, select only looks, and the turn is the last. */
  lemma ClockMovedBackEnds(start: Timespec, now: Timespec, w: uint32)
    requires Normal(start) && Normal(now) && Total(now) < Total(start)
    ensures PlanTurn(EndTime(start, w), now, w) == Plan(Timeval(0, 0), true)
  {
    GuardIffClockMovedBack(start, now, w);
  }

  /** Turns are planned to the nanosecond: select is asked to wait for exactly what is left. */
  lemma PlanIsExact(start: Timespec, now: Timespec, w: uint32)
    requires Normal(start) && Normal(now)
    ensures var p := PlanTurn(EndTime(start, w), now, w);
            !p.last ==> Total(now) + Duration(p.tv) == Total(start) + 1000 * w
  {
  }

  /** A turn judged to be past the end is early by at most the carry. */
  lemma ExpiredEarlyByCarry(start: Timespec, now: Timespec, w: uint32)
    requires Normal(start) && Normal(now)
    requires Expired(Left(EndTime(start, w), now))
    ensures Total(now) >= Total(start) + 1000 * w - Carry(start, w)
  {
  }

  /** While a turn is not past the end, the clock is not either. */
  lemma UnexpiredIsInTime(start: Timespec, now: Timespec, w: uint32)
    requires Normal(start) && Normal(now)
    requires !Expired(Left(EndTime(start, w), now))
    ensures Total(now) <= Total(start) + 1000 * w
  {
  }

  predicate Normalised(tv: Timeval) {
    0 <= tv.sec && 0 <= tv.usec < MICROS
  }

  /** select receives a proper timeval at every reading since the start, exactly when the
      nanoseconds of the end stay below a second or the window is shorter than one. */
  lemma TimevalsNormalisedIff(start: Timespec, w: uint32)
    requires Normal(start)
    ensures (forall now: Timespec :: Normal(now) && Total(start) <= Total(now)
              ==> Normalised(PlanTurn(EndTime(start, w), now, w).tv))
       <==> (w < MICROS || start.nsec + 1000 * (w % MICROS) < NANOS)
  {
    if w < MICROS || start.nsec + 1000 * (w % MICROS) < NANOS {
      forall now: Timespec | Normal(now) && Total(start) <= Total(now)
        ensures Normalised(PlanTurn(EndTime(start, w), now, w).tv)
      {
      }
    } else {
      var now := Timespec(EndTime(start, w).sec, 0);
      GuardIffClockMovedBack(start, now, w);
      assert !Normalised(PlanTurn(EndTime(start, w), now, w).tv);
    }
  }
}
