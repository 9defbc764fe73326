// Time as the server handles it: Go instants and durations in nanoseconds, stored
// timestamps in whole Unix seconds, and calendar days cut at local midnight.

module Clock {

  // Nanoseconds in a second.
  const SECOND: int := 1_000_000_000

  const MAX_DURATION: int := 0x7FFF_FFFF_FFFF_FFFF

  const MIN_DURATION: int := -MAX_DURATION - 1

  // A Go time.Duration: signed 64-bit nanoseconds.
  type Duration = d: int | MIN_DURATION <= d <= MAX_DURATION

  // Unix seconds of an instant given in nanoseconds: the column value a timestamp is stored as.
  function Unix(at: int): (s: int)
    ensures s * SECOND <= at < (s + 1) * SECOND
  {
    at / SECOND
  }

  lemma UnixMonotone(a: int, b: int)
    ensures a <= b ==> Unix(a) <= Unix(b)
    ensures forall s: int :: s * SECOND <= a <==> s <= Unix(a)
  {
  }

  lemma UnixOfSecond(s: int)
    ensures Unix(s * SECOND) == s
  {
  }

  // Go's integer division truncates toward zero; Dafny's does not.
  function TruncatedQuotient(a: int, b: int): (q: int)
    requires b > 0
    ensures a >= 0 ==> q * b <= a < (q + 1) * b
    ensures a < 0 ==> (q - 1) * b < a <= q * b
  {
    if a >= 0 then a / b else -((-a) / b)
  }

  // time.Time.Sub between two stored timestamps, in nanoseconds. It saturates.
  function Sub(later: int, earlier: int): Duration {
    var gap := (later - earlier) * SECOND;
    if gap > MAX_DURATION then MAX_DURATION else if gap < MIN_DURATION then MIN_DURATION else gap
  }

  // The gap test of the track builder: a new track starts here.
  predicate Splits(trackBreak: Duration, prev: int, ts: int) {
    Sub(ts, prev) > trackBreak
  }

  // The gap test of the daily_stats query: the segment counts towards the day's kilometres.
  predicate Counts(trackBreak: Duration, prev: int, ts: int) {
    ts - prev <= TruncatedQuotient(trackBreak, SECOND)
  }

  // SQL's test is the break itself, fractions and all: the quotient loses nothing between whole seconds.
  lemma CountsWithinBreak(trackBreak: Duration, prev: int, ts: int)
    requires prev < ts
    ensures Counts(trackBreak, prev, ts) <==> (ts - prev) * SECOND <= trackBreak
  {
  }

  // Go's test is its negation, except that nothing exceeds the largest Duration.
  lemma SplitsBeyondBreak(trackBreak: Duration, prev: int, ts: int)
    requires prev < ts
    ensures Splits(trackBreak, prev, ts) <==> (ts - prev) * SECOND > trackBreak && trackBreak < MAX_DURATION
  {
  }

  // The two tests agree on every pair of stored timestamps exactly when the break is not the
  // largest Duration there is. With that one, a saturated gap is never "greater".
  lemma BreakTestsAgree(trackBreak: Duration)
    ensures trackBreak < MAX_DURATION <==>
            forall prev, ts {:trigger Splits(trackBreak, prev, ts)} | prev < ts ::
              Counts(trackBreak, prev, ts) <==> !Splits(trackBreak, prev, ts)
  {
    if trackBreak < MAX_DURATION {
      forall prev, ts | prev < ts
        ensures Counts(trackBreak, prev, ts) <==> !Splits(trackBreak, prev, ts)
      {
        var q := TruncatedQuotient(trackBreak, SECOND);
        if ts - prev <= q {
          assert (ts - prev) * SECOND <= q * SECOND;
        } else {
          assert (ts - prev) * SECOND >= (q + 1) * SECOND;
        }
      }
    } else {
      var ts := MAX_DURATION / SECOND + 1;
      assert !Splits(trackBreak, 0, ts);
      assert !Counts(trackBreak, 0, ts);
    }
  }

  const WRAP: int := 0x1_0000_0000_0000_0000

  // What 64-bit signed arithmetic makes of a result.
  function Int64(x: int): (r: Duration)
    ensures MIN_DURATION <= x <= MAX_DURATION ==> r == x
    ensures MAX_DURATION < x < WRAP ==> r == x - WRAP
  {
    var wrapped := x % WRAP;
    if wrapped > MAX_DURATION then wrapped - WRAP else wrapped
  }

  // The break as the configuration turns minutes into a Duration.
  function TrackBreak(minutes: int): Duration {
    Int64(minutes * (60 * SECOND))
  }

  // It is that many minutes exactly when they fit.
  lemma BreakIsMinutes(minutes: int)
    ensures TrackBreak(minutes) == minutes * 60 * SECOND <==> MIN_DURATION <= minutes * 60 * SECOND <= MAX_DURATION
  {
  }

  const DAY: int := DAY_SECONDS * SECOND

  // The look-back of a check-in fetch as the configuration turns days into a Duration.
  function Lookback(days: int): Duration {
    Int64(days * DAY)
  }

  // No number of minutes configures the one break on which the two tests disagree.
  lemma ConfiguredBreakTestsAgree(minutes: int)
    ensures TrackBreak(minutes) < MAX_DURATION
    ensures forall prev, ts {:trigger Splits(TrackBreak(minutes), prev, ts)} | prev < ts ::
              Counts(TrackBreak(minutes), prev, ts) <==> !Splits(TrackBreak(minutes), prev, ts)
  {
    var nanos := minutes * (60 * SECOND);
    var half := minutes * (30 * SECOND) - (nanos / WRAP) * (WRAP / 2);
    assert nanos % WRAP == 2 * half;
    BreakTestsAgree(TrackBreak(minutes));
  }

  /** A timezone, as day boundaries see it: `start(d)` is the Unix second of local midnight
      opening calendar day `d`, and `dayOf` the calendar day a Unix second falls on. */
  datatype Zone = Zone(start: int -> int, dayOf: int -> int) {

    ghost predicate Valid() {
      && (forall d, e :: d < e ==> start(d) < start(e))
      && (forall ts :: start(dayOf(ts)) <= ts < start(dayOf(ts) + 1))
    }

    // The calendar day of an instant that may carry a fraction of a second.
    function LocalDay(at: int): (d: int)
      requires Valid()
      ensures start(d) * SECOND <= at < start(d + 1) * SECOND
    {
      var s := Unix(at);
      assert s + 1 <= start(dayOf(s) + 1);
      dayOf(s)
    }

    lemma DayUnique(ts: int, d: int)
      requires Valid()
      ensures start(d) <= ts < start(d + 1) <==> dayOf(ts) == d
    {
      var e := dayOf(ts);
      assert e < d ==> e + 1 == d || start(e + 1) < start(d);
      assert d < e ==> d + 1 == e || start(d + 1) < start(e);
    }

    lemma DayMonotone(a: int, b: int)
      requires Valid() && a <= b
      ensures dayOf(a) <= dayOf(b)
    {
      var d, e := dayOf(a), dayOf(b);
      assert e < d ==> e + 1 == d || start(e + 1) < start(d);
    }
  }

  const DAY_SECONDS := 86_400

  // A zone whose offset from UTC, in seconds, never changes.
  function FixedOffset(offset: int): (z: Zone) {
    Zone((d: int) => d * DAY_SECONDS - offset, (ts: int) => (ts + offset) / DAY_SECONDS)
  }

  lemma FixedOffsetIsZone(offset: int)
    ensures FixedOffset(offset).Valid()
    ensures forall d :: FixedOffset(offset).start(d) + offset == d * DAY_SECONDS
  {
    var z := FixedOffset(offset);
    forall ts ensures z.start(z.dayOf(ts)) <= ts < z.start(z.dayOf(ts) + 1) {
      var day := (ts + offset) / DAY_SECONDS;
      assert z.dayOf(ts) == day;
      assert day * DAY_SECONDS <= ts + offset < (day + 1) * DAY_SECONDS;
    }
    forall d, e | d < e ensures z.start(d) < z.start(e) {
      assert d * DAY_SECONDS < e * DAY_SECONDS;
    }
  }

  ghost predicate StrictlyIncreasing(start: int -> int) {
    forall d, e :: d < e ==> start(d) < start(e)
  }

  ghost predicate OnDay(start: int -> int, ts: int, d: int) {
    start(d) <= ts < start(d + 1)
  }

  lemma DayFoundAbove(start: int -> int, ts: int, d: int) returns (found: int)
    requires StrictlyIncreasing(start) && start(d) <= ts
    ensures OnDay(start, ts, found)
    decreases ts - start(d)
  {
    if ts < start(d + 1) {
      found := d;
    } else {
      found := DayFoundAbove(start, ts, d + 1);
    }
  }

  lemma DayFoundBelow(start: int -> int, ts: int, d: int) returns (found: int)
    requires StrictlyIncreasing(start) && ts < start(d)
    ensures OnDay(start, ts, found)
    decreases start(d) - ts
  {
    if start(d - 1) <= ts {
      found := d - 1;
    } else {
      found := DayFoundBelow(start, ts, d - 1);
    }
  }

  ghost function ChosenDay(start: int -> int, ts: int): int {
    if exists d :: OnDay(start, ts, d) then
      var d :| OnDay(start, ts, d); d
    else
      0
  }

  // Any strictly increasing sequence of midnights cuts time into days: no second is left out.
  lemma MidnightsMakeZone(start: int -> int)
    requires StrictlyIncreasing(start)
    ensures Zone(start, (ts: int) => ChosenDay(start, ts)).Valid()
  {
    var dayOf := (ts: int) => ChosenDay(start, ts);
    forall ts ensures start(dayOf(ts)) <= ts < start(dayOf(ts) + 1) {
      ChosenDayFits(start, ts);
    }
  }

  lemma ChosenDayFits(start: int -> int, ts: int)
    requires StrictlyIncreasing(start)
    ensures OnDay(start, ts, ChosenDay(start, ts))
  {
    var found: int;
    if start(0) <= ts {
      found := DayFoundAbove(start, ts, 0);
    } else {
      found := DayFoundBelow(start, ts, 0);
    }
  }

  // Daylight saving: the offset may move at any midnight, by less than a day.
  lemma ShiftingOffsetIsZone(offset: int -> int)
    requires forall d :: offset(d + 1) - offset(d) < DAY_SECONDS
    ensures var start := (d: int) => d * DAY_SECONDS - offset(d);
            Zone(start, (ts: int) => ChosenDay(start, ts)).Valid()
  {
    var start := (d: int) => d * DAY_SECONDS - offset(d);
    forall d, e | d < e ensures start(d) < start(e) {
      MidnightsIncrease(offset, d, e);
    }
    MidnightsMakeZone(start);
  }

  lemma {:induction false} MidnightsIncrease(offset: int -> int, d: int, e: int)
    requires forall c :: offset(c + 1) - offset(c) < DAY_SECONDS
    requires d < e
    ensures d * DAY_SECONDS - offset(d) < e * DAY_SECONDS - offset(e)
    decreases e - d
  {
    assert offset((e - 1) + 1) - offset(e - 1) < DAY_SECONDS;
    if d < e - 1 {
      MidnightsIncrease(offset, d, e - 1);
    }
  }
}
