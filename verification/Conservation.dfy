// The two derived tables measure the same travel: daily_stats rows and tracks add up to the same
// distance, and the rows' counts to the points.

module Conservation {
  import opened Options
  import opened Ordering
  import opened Clock
  import opened Histories
  import opened DailyStats
  import opened TrackSplitting
  import opened Tables
  import opened Server
  import opened Recalculation

  // A row as dailyStats.All lists it.
  datatype DayStat = DayStat(day: int, stat: DailyStat)

  function DaysStored(daily: map<DayKey, DailyStat>, user: int): set<int> {
    set k | k in daily && k.user == user :: k.day
  }

  // SELECT ... FROM daily_stats WHERE user_id = ? ORDER BY day.
  function AllRows(daily: map<DayKey, DailyStat>, user: int): (rows: seq<DayStat>)
    ensures |rows| == |InOrder(DaysStored(daily, user))|
    ensures forall i :: 0 <= i < |rows| ==>
              && rows[i].day == InOrder(DaysStored(daily, user))[i]
              && StoredRow(daily, user, rows[i].day) == Some(rows[i].stat)
  {
    var days := InOrder(DaysStored(daily, user));
    assert forall i :: 0 <= i < |days| ==> days[i] in days;
    seq(|days|, i requires 0 <= i < |days| => DayStat(days[i], daily[DayKey(user, days[i])]))
  }

  function SumKm(rows: seq<DayStat>): real {
    if rows == [] then 0.0 else SumKm(rows[..|rows| - 1]) + rows[|rows| - 1].stat.km
  }

  function SumPoints(rows: seq<DayStat>): nat {
    if rows == [] then 0 else SumPoints(rows[..|rows| - 1]) + rows[|rows| - 1].stat.points
  }

  function SumGeocoded(rows: seq<DayStat>): nat {
    if rows == [] then 0 else SumGeocoded(rows[..|rows| - 1]) + rows[|rows| - 1].stat.geocoded
  }

  function SumMeters(tracks: seq<Track>): real {
    if tracks == [] then 0.0 else SumMeters(tracks[..|tracks| - 1]) + tracks[|tracks| - 1].meters
  }

  // Every counting segment of the first n points.
  function TravelKm(cfg: Config, h: seq<Point>, n: nat): real
    requires n <= |h|
  {
    if n == 0 then 0.0 else TravelKm(cfg, h, n - 1) + Segment(cfg, h, n - 1)
  }

  // A point that follows within the break adds the distance from the last one, and any other adds none.
  lemma TravelExtends(cfg: Config, h: seq<Point>, p: Point)
    requires h == [] || h[|h| - 1].ts < p.ts
    ensures TravelKm(cfg, h + [p], |h| + 1) == TravelKm(cfg, h, |h|)
            + if h != [] && (p.ts - h[|h| - 1].ts) * SECOND <= cfg.trackBreak
              then cfg.distance(h[|h| - 1].at, p.at) else 0.0
  {
    TravelPrefix(cfg, h, p, |h|);
    if h != [] {
      CountsWithinBreak(cfg.trackBreak, h[|h| - 1].ts, p.ts);
    }
  }

  lemma {:induction false} TravelPrefix(cfg: Config, h: seq<Point>, p: Point, n: nat)
    requires n <= |h|
    ensures TravelKm(cfg, h + [p], n) == TravelKm(cfg, h, n)
  {
    if n > 0 {
      TravelPrefix(cfg, h, p, n - 1);
    }
  }

  // What the given days hold of the first n points.
  function KmOn(cfg: Config, h: seq<Point>, n: nat, days: seq<int>): real
    requires n <= |h|
  {
    if days == [] then 0.0 else
      var d := days[|days| - 1];
      KmOn(cfg, h, n, days[..|days| - 1]) + LaggedKm(cfg, h, cfg.zone.start(d), cfg.zone.start(d + 1), n)
  }

  function CountOn(cfg: Config, h: seq<Point>, n: nat, days: seq<int>): nat
    requires n <= |h|
  {
    if days == [] then 0 else
      var d := days[|days| - 1];
      CountOn(cfg, h, n, days[..|days| - 1]) + LaggedCount(h, cfg.zone.start(d), cfg.zone.start(d + 1), n)
  }

  // One more point adds its segment to exactly one day.
  lemma {:induction false} OneDayGrows(cfg: Config, h: seq<Point>, n: nat, days: seq<int>)
    requires cfg.zone.Valid() && n < |h| && Increasing(days)
    ensures var here := cfg.zone.dayOf(h[n].ts) in days;
            && KmOn(cfg, h, n + 1, days) == KmOn(cfg, h, n, days) + (if here then Segment(cfg, h, n) else 0.0)
            && CountOn(cfg, h, n + 1, days) == CountOn(cfg, h, n, days) + (if here then 1 else 0)
  {
    if days != [] {
      var init, d := days[..|days| - 1], days[|days| - 1];
      var day := cfg.zone.dayOf(h[n].ts);
      OneDayGrows(cfg, h, n, init);
      cfg.zone.DayUnique(h[n].ts, d);
      LastOfIncreasing(days, day);
    }
  }

  lemma LastOfIncreasing(days: seq<int>, day: int)
    requires days != [] && Increasing(days)
    ensures day in days <==> day in days[..|days| - 1] || day == days[|days| - 1]
    ensures days[|days| - 1] !in days[..|days| - 1]
  {
    assert days == days[..|days| - 1] + [days[|days| - 1]];
  }

  lemma {:induction false} EmptyPrefix(cfg: Config, h: seq<Point>, days: seq<int>)
    ensures KmOn(cfg, h, 0, days) == 0.0 && CountOn(cfg, h, 0, days) == 0
  {
    if days != [] {
      EmptyPrefix(cfg, h, days[..|days| - 1]);
    }
  }

  ghost predicate Cover(cfg: Config, h: seq<Point>, n: nat, days: seq<int>)
    requires n <= |h|
  {
    forall i :: 0 <= i < n ==> cfg.zone.dayOf(h[i].ts) in days
  }

  ghost predicate Hold(cfg: Config, h: seq<Point>, n: nat, days: seq<int>)
    requires n <= |h|
  {
    KmOn(cfg, h, n, days) == TravelKm(cfg, h, n) && CountOn(cfg, h, n, days) == n
  }

  lemma OneMoreHeld(cfg: Config, h: seq<Point>, n: nat, days: seq<int>)
    requires cfg.zone.Valid() && n < |h| && Increasing(days) && cfg.zone.dayOf(h[n].ts) in days
    requires Hold(cfg, h, n, days)
    ensures Hold(cfg, h, n + 1, days)
  {
    OneDayGrows(cfg, h, n, days);
  }

  // Days that cover every point hold all the travel and all the points.
  lemma {:induction false} DaysHoldEverything(cfg: Config, h: seq<Point>, n: nat, days: seq<int>)
    requires cfg.zone.Valid() && n <= |h| && Increasing(days) && Cover(cfg, h, n, days)
    ensures Hold(cfg, h, n, days)
  {
    EmptyPrefix(cfg, h, days);
    for i := 0 to n
      invariant Hold(cfg, h, i, days)
    {
      OneMoreHeld(cfg, h, i, days);
    }
  }

  lemma {:induction false} RowsAreDays(cfg: Config, h: seq<Point>, rows: seq<DayStat>, days: seq<int>)
    requires |rows| == |days|
    requires forall i :: 0 <= i < |rows| ==> rows[i].day == days[i] && DayRow(cfg, h, days[i]) == Some(rows[i].stat)
    ensures SumKm(rows) == KmOn(cfg, h, |h|, days) && SumPoints(rows) == CountOn(cfg, h, |h|, days)
  {
    if rows != [] {
      RowsAreDays(cfg, h, rows[..|rows| - 1], days[..|days| - 1]);
    }
  }

  // A correct table's rows for a user are one per day with points, in order, and nothing else.
  lemma StoredDaysAreDaysWithPoints(cfg: Config, s: Tables, user: int, day: int)
    requires cfg.zone.Valid() && WellFormed(s) && UserDailyCorrect(cfg, s, user)
    ensures day in InOrder(DaysStored(s.daily, user)) <==> HasPointOn(cfg, History(s.points, user), day)
  {
    assert RowCorrect(cfg, s, user, day);
    EmptyDayRow(cfg, History(s.points, user), day);
    assert day in DaysStored(s.daily, user) <==> DayKey(user, day) in s.daily;
  }

  lemma DailyTotals(cfg: Config, s: Tables, user: int)
    requires cfg.zone.Valid() && WellFormed(s) && UserDailyCorrect(cfg, s, user)
    ensures var h := History(s.points, user);
            && SumPoints(AllRows(s.daily, user)) == |h|
            && SumKm(AllRows(s.daily, user)) == TravelKm(cfg, h, |h|)
  {
    var h := History(s.points, user);
    var rows, days := AllRows(s.daily, user), InOrder(DaysStored(s.daily, user));
    forall i | 0 <= i < |rows| ensures DayRow(cfg, h, days[i]) == Some(rows[i].stat) {
      assert RowCorrect(cfg, s, user, days[i]);
    }
    RowsAreDays(cfg, h, rows, days);
    forall i | 0 <= i < |h| ensures cfg.zone.dayOf(h[i].ts) in days {
      StoredDaysAreDaysWithPoints(cfg, s, user, cfg.zone.dayOf(h[i].ts));
    }
    DaysHoldEverything(cfg, h, |h|, days);
  }

  // The travel the track builder measures: segments that its own gap test does not split.
  function UnsplitKm(cfg: Config, h: seq<Point>, n: nat): real
    requires n <= |h|
  {
    if n < 2 then 0.0 else
      UnsplitKm(cfg, h, n - 1)
      + if Splits(cfg.trackBreak, h[n - 2].ts, h[n - 1].ts) then 0.0 else cfg.distance(h[n - 2].at, h[n - 1].at)
  }

  lemma {:induction false} UnsplitPrefix(cfg: Config, h: seq<Point>, p: Point, n: nat)
    requires n <= |h|
    ensures UnsplitKm(cfg, h + [p], n) == UnsplitKm(cfg, h, n)
  {
    if n >= 2 {
      UnsplitPrefix(cfg, h, p, n - 1);
    }
  }

  lemma {:induction false} RunPrefix(cfg: Config, run: seq<Point>, p: Point, n: nat)
    requires n <= |run|
    ensures RunKm(cfg, run + [p], n) == RunKm(cfg, run, n)
  {
    if n >= 2 {
      RunPrefix(cfg, run, p, n - 1);
    }
  }

  lemma MetersOfKept(cfg: Config, front: seq<seq<Point>>, last: seq<Point>)
    ensures SumMeters(Kept(cfg, front + [last])) == SumMeters(Kept(cfg, front)) + RunKm(cfg, last, |last|) * 1000.0
  {
    assert (front + [last])[..|front|] == front;
    var before := Kept(cfg, front);
    if |last| < 2 {
      assert before + [] == before;
    } else {
      var t := TrackOf(cfg, last);
      assert (before + [t])[..|before|] == before;
    }
  }

  // A dropped single-point run has no travel to lose.
  lemma {:induction false} TracksMeasureTravel(cfg: Config, h: seq<Point>)
    ensures SumMeters(TracksOf(cfg, h)) == UnsplitKm(cfg, h, |h|) * 1000.0
  {
    if h != [] {
      var init, p := h[..|h| - 1], h[|h| - 1];
      assert h == init + [p];
      if init == [] {
        RunsSingle(cfg.trackBreak, p);
        assert [[p]] == [] + [[p]];
        MetersOfKept(cfg, [], [p]);
      } else {
        TracksMeasureTravel(cfg, init);
        PointAddsTravel(cfg, init, p);
      }
    }
  }

  lemma PointAddsTravel(cfg: Config, h: seq<Point>, p: Point)
    requires h != []
    ensures SumMeters(TracksOf(cfg, h + [p])) - SumMeters(TracksOf(cfg, h))
            == (UnsplitKm(cfg, h + [p], |h| + 1) - UnsplitKm(cfg, h, |h|)) * 1000.0
  {
    var runs := Runs(cfg.trackBreak, h);
    var front, last := runs[..|runs| - 1], runs[|runs| - 1];
    assert runs == front + [last];
    RunsSnoc(cfg.trackBreak, h, front, last, p);
    RunsSplit(cfg.trackBreak, h);
    SplitLast(cfg.trackBreak, h, runs);
    TravelGrows(cfg, front, last, p);
    UnsplitPrefix(cfg, h, p, |h|);
  }

  lemma TravelGrows(cfg: Config, front: seq<seq<Point>>, last: seq<Point>, p: Point)
    requires last != []
    ensures SumMeters(Kept(cfg, front + [last] + [[p]])) == SumMeters(Kept(cfg, front + [last]))
    ensures SumMeters(Kept(cfg, front + [last + [p]])) ==
            SumMeters(Kept(cfg, front + [last])) + cfg.distance(last[|last| - 1].at, p.at) * 1000.0
  {
    MetersOfKept(cfg, front + [last], [p]);
    MetersOfKept(cfg, front, last);
    MetersOfKept(cfg, front, last + [p]);
    RunGrows(cfg, last, p);
  }

  lemma RunGrows(cfg: Config, run: seq<Point>, p: Point)
    requires run != []
    ensures RunKm(cfg, run + [p], |run| + 1) == RunKm(cfg, run, |run|) + cfg.distance(run[|run| - 1].at, p.at)
  {
    RunPrefix(cfg, run, p, |run|);
  }

  lemma {:induction false} TestsMeasureTheSame(cfg: Config, h: seq<Point>, n: nat)
    requires Sorted(h) && n <= |h| && cfg.trackBreak < MAX_DURATION
    ensures UnsplitKm(cfg, h, n) == TravelKm(cfg, h, n)
  {
    if n > 0 {
      TestsMeasureTheSame(cfg, h, n - 1);
      if n >= 2 {
        BreakTestsAgree(cfg.trackBreak);
        assert Splits(cfg.trackBreak, h[n - 2].ts, h[n - 1].ts) <==> !Counts(cfg.trackBreak, h[n - 2].ts, h[n - 1].ts);
      } else {
        assert TravelKm(cfg, h, 0) == 0.0;
      }
    }
  }

  // 1000 times the sum of a user's daily kilometres is the sum of that user's track distances,
  // whenever the table is right and the tracks are fresh.
  lemma DistanceConserved(cfg: Config, s: Tables, user: int)
    requires cfg.zone.Valid() && cfg.trackBreak < MAX_DURATION
    requires WellFormed(s) && UserDailyCorrect(cfg, s, user) && Fresh(cfg, s, user)
    ensures SumMeters(StoredTracks(s, user)) == SumKm(AllRows(s.daily, user)) * 1000.0
  {
    var h := History(s.points, user);
    DailyTotals(cfg, s, user);
    TracksMeasureTravel(cfg, h);
    TestsMeasureTheSame(cfg, h, |h|);
  }

  // So it holds at every moment of every run that starts from a correct database, for every user
  // without a pending rebuild.
  lemma DistanceConservedInRuns(cfg: Config, states: seq<Tables>, events: seq<Event>, i: nat, user: int)
    requires cfg.zone.Valid() && cfg.trackBreak < MAX_DURATION
    requires IsRun(cfg, states, events) && i < |states| && Correct(cfg, states[0])
    requires !Pending(states[i].queue, user)
    ensures SumMeters(StoredTracks(states[i], user)) == SumKm(AllRows(states[i].daily, user)) * 1000.0
  {
    ServerInvariant(cfg, states, events, i);
    assert FreshOrPending(cfg, states[i], user);
    forall d ensures RowCorrect(cfg, states[i], user, d) { }
    DistanceConserved(cfg, states[i], user);
  }

  // With the largest Duration as the break, the two measures part: SQL leaves out a gap of almost
  // three hundred years that the saturating comparison keeps in one track.
  lemma LargestBreakLosesConservation(zone: Zone)
    requires zone.Valid()
    ensures var cfg := Config(zone, MAX_DURATION, (a, b) => 1.0);
            var here := Coord(0.0, 0.0);
            var h := [Point(1, 0, here), Point(2, MAX_DURATION / SECOND + 1, here)];
            && Sorted(h)
            && SumMeters(TracksOf(cfg, h)) == 1000.0
            && TravelKm(cfg, h, 2) == 0.0
  {
    var cfg := Config(zone, MAX_DURATION, (a, b) => 1.0);
    var here := Coord(0.0, 0.0);
    var h := [Point(1, 0, here), Point(2, MAX_DURATION / SECOND + 1, here)];
    TracksMeasureTravel(cfg, h);
    assert UnsplitKm(cfg, h, 1) == 0.0;
    assert UnsplitKm(cfg, h, 2) == 1.0;
    assert TravelKm(cfg, h, 0) == 0.0;
    assert TravelKm(cfg, h, 1) == 0.0;
  }
}
