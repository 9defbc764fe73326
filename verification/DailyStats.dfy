// What a daily_stats row means, and the one-day query that computes it.

module DailyStats {
  import opened Options
  import opened Clock
  import opened Histories

  /** The settings every rebuild is given, and the distance formula, in kilometres. */
  datatype Config = Config(zone: Zone, trackBreak: Duration, distance: (Coord, Coord) -> real)

  datatype Place = Place(name: string)

  // A row: the places visited and the number of points reverse-geocoded come with it.
  datatype DailyStat = DailyStat(points: nat, km: real, geocoded: nat, countries: seq<Place>, cities: seq<Place>)

  // The distance from the point before rows[i], when it counts.
  function Segment(cfg: Config, rows: seq<Point>, i: nat): real
    requires i < |rows|
  {
    if i > 0 && Counts(cfg.trackBreak, rows[i - 1].ts, rows[i].ts)
    then cfg.distance(rows[i - 1].at, rows[i].at)
    else 0.0
  }

  // SELECT COUNT(*), SUM(segment) over the first n of `rows` WHERE from <= timestamp < before,
  // where each row's segment runs from the row LAG pairs it with.
  function LaggedCount(rows: seq<Point>, from: int, before: int, n: nat): nat
    requires n <= |rows|
  {
    if n == 0 then 0 else
      LaggedCount(rows, from, before, n - 1) + if from <= rows[n - 1].ts < before then 1 else 0
  }

  function LaggedKm(cfg: Config, rows: seq<Point>, from: int, before: int, n: nat): real
    requires n <= |rows|
  {
    if n == 0 then 0.0 else
      LaggedKm(cfg, rows, from, before, n - 1)
      + if from <= rows[n - 1].ts < before then Segment(cfg, rows, n - 1) else 0.0
  }

  function RowOver(cfg: Config, rows: seq<Point>, from: int, before: int): Option<DailyStat> {
    var points := LaggedCount(rows, from, before, |rows|);
    if points == 0 then None else Some(DailyStat(points, LaggedKm(cfg, rows, from, before, |rows|), 0, [], []))
  }

  // The row a day ought to have: LAG over the user's whole history, restricted to that day.
  function DayRow(cfg: Config, h: seq<Point>, day: int): Option<DailyStat> {
    RowOver(cfg, h, cfg.zone.start(day), cfg.zone.start(day + 1))
  }

  // The rows the rebuild query reads: the window's points and the single one before it.
  function Candidates(h: seq<Point>, from: int, before: int): seq<Point>
    requires Sorted(h)
  {
    (match Latest(h, from) case None => [] case Some(p) => [p]) + Range(h, from, before)
  }

  lemma {:induction false} CountOfSlice(h: seq<Point>, from: int, before: int, n: nat)
    requires Sorted(h) && from < before && n <= |h|
    ensures var i, j := Lower(h, from), Lower(h, before);
            LaggedCount(h, from, before, n) == if n <= i then 0 else if n <= j then n - i else j - i
  {
    if n > 0 {
      CountOfSlice(h, from, before, n - 1);
    }
  }

  // COUNT(*) is the number of points in the day.
  lemma CountIsRange(h: seq<Point>, from: int, before: int)
    requires Sorted(h) && from < before
    ensures LaggedCount(h, from, before, |h|) == |Range(h, from, before)|
  {
    CountOfSlice(h, from, before, |h|);
  }

  // Rows at both ends of the history that fall outside the window add no distance.
  lemma {:induction false} KmOutside(cfg: Config, h: seq<Point>, from: int, before: int, m: nat, n: nat)
    requires m <= n <= |h|
    requires forall k :: m <= k < n ==> !(from <= h[k].ts < before)
    ensures LaggedKm(cfg, h, from, before, n) == LaggedKm(cfg, h, from, before, m)
  {
    if m < n {
      KmOutside(cfg, h, from, before, m, n - 1);
    }
  }

  // A contiguous stretch of the history whose first row is outside the window, or is the
  // history's own first row, has the history's segments.
  lemma {:induction false} KmOfSlice(cfg: Config, h: seq<Point>, from: int, before: int, o: nat, j: nat, n: nat)
    requires o <= j <= |h| && n <= j - o
    requires o == 0 || o == j || h[o].ts < from
    requires LaggedKm(cfg, h, from, before, o) == 0.0
    ensures LaggedKm(cfg, h, from, before, o + n) == LaggedKm(cfg, h[o..j], from, before, n)
  {
    if n > 0 {
      KmOfSlice(cfg, h, from, before, o, j, n - 1);
      var c := h[o..j];
      assert c[n - 1] == h[o + n - 1];
      if n > 1 {
        assert c[n - 2] == h[o + n - 2];
      }
    }
  }

  // The part of a history from o to j holds the window, and starts outside it or at the very start.
  ghost predicate HoldsWindow(h: seq<Point>, from: int, before: int, o: nat, j: nat) {
    && o <= j <= |h|
    && (o == 0 || o == j || h[o].ts < from)
    && (forall k :: 0 <= k < o ==> h[k].ts < from)
    && (forall k :: j <= k < |h| ==> h[k].ts >= before)
  }

  lemma CandidatesAreSlice(h: seq<Point>, from: int, before: int) returns (o: nat, j: nat)
    requires Sorted(h) && from < before
    ensures HoldsWindow(h, from, before, o, j) && Candidates(h, from, before) == h[o..j]
  {
    var i := Lower(h, from);
    j := Lower(h, before);
    LowerMonotone(h, from, before);
    o := if i == 0 then 0 else i - 1;
    if i > 0 {
      assert h[i - 1..j] == [h[i - 1]] + h[i..j];
    }
  }

  lemma KmOfWindow(cfg: Config, h: seq<Point>, from: int, before: int, o: nat, j: nat, c: seq<Point>)
    requires HoldsWindow(h, from, before, o, j) && c == h[o..j]
    ensures LaggedKm(cfg, c, from, before, |c|) == LaggedKm(cfg, h, from, before, |h|)
  {
    KmOutside(cfg, h, from, before, 0, o);
    KmOfSlice(cfg, h, from, before, o, j, j - o);
    KmOutside(cfg, h, from, before, j, |h|);
  }

  lemma {:induction false} CountOutside(h: seq<Point>, from: int, before: int, m: nat, n: nat)
    requires m <= n <= |h|
    requires forall k :: m <= k < n ==> !(from <= h[k].ts < before)
    ensures LaggedCount(h, from, before, n) == LaggedCount(h, from, before, m)
  {
    if m < n {
      CountOutside(h, from, before, m, n - 1);
    }
  }

  lemma {:induction false} CountOfPart(h: seq<Point>, from: int, before: int, o: nat, c: seq<Point>, n: nat)
    requires o + |c| <= |h| && c == h[o..o + |c|] && n <= |c|
    ensures LaggedCount(h, from, before, o + n) == LaggedCount(h, from, before, o) + LaggedCount(c, from, before, n)
  {
    if n > 0 {
      CountOfPart(h, from, before, o, c, n - 1);
      assert c[n - 1] == h[o + n - 1];
    }
  }

  lemma CountOfWindow(h: seq<Point>, from: int, before: int, o: nat, j: nat, c: seq<Point>)
    requires HoldsWindow(h, from, before, o, j) && c == h[o..j]
    ensures LaggedCount(c, from, before, |c|) == LaggedCount(h, from, before, |h|)
  {
    CountOutside(h, from, before, 0, o);
    CountOfPart(h, from, before, o, c, |c|);
    CountOutside(h, from, before, j, |h|);
  }

  // Reading one day and the single point before it gives the same row as LAG over everything.
  lemma WindowQueryIsExact(cfg: Config, h: seq<Point>, from: int, before: int)
    requires Sorted(h) && from < before
    ensures RowOver(cfg, Candidates(h, from, before), from, before) == RowOver(cfg, h, from, before)
  {
    var o, j := CandidatesAreSlice(h, from, before);
    CountOfWindow(h, from, before, o, j, Candidates(h, from, before));
    KmOfWindow(cfg, h, from, before, o, j, Candidates(h, from, before));
  }

  // What dailyStats.Rebuild computes for a day.
  function QueriedRow(cfg: Config, h: seq<Point>, day: int): Option<DailyStat>
    requires Sorted(h)
  {
    var from, before := cfg.zone.start(day), cfg.zone.start(day + 1);
    RowOver(cfg, Candidates(h, from, before), from, before)
  }

  lemma QueriedRowIsDayRow(cfg: Config, h: seq<Point>, day: int)
    requires Sorted(h) && cfg.zone.Valid()
    ensures QueriedRow(cfg, h, day) == DayRow(cfg, h, day)
  {
    WindowQueryIsExact(cfg, h, cfg.zone.start(day), cfg.zone.start(day + 1));
  }

  // Every row there ought to be counts no geocoded point and names no place.
  lemma RowsAreUngeocoded(cfg: Config, h: seq<Point>, day: int)
    ensures DayRow(cfg, h, day).Some? ==>
              var row := DayRow(cfg, h, day).value;
              row.geocoded == 0 && row.countries == [] && row.cities == []
  {
  }

  // A row depends on nothing but the day's points and, if there are any, the point before them.
  lemma RowDependsOnWindow(cfg: Config, h: seq<Point>, h2: seq<Point>, from: int, before: int)
    requires Sorted(h) && Sorted(h2) && from < before
    requires Range(h, from, before) == Range(h2, from, before)
    requires Range(h, from, before) != [] ==> Latest(h, from) == Latest(h2, from)
    ensures RowOver(cfg, h, from, before) == RowOver(cfg, h2, from, before)
  {
    CountIsRange(h, from, before);
    CountIsRange(h2, from, before);
    if Range(h, from, before) != [] {
      WindowQueryIsExact(cfg, h, from, before);
      WindowQueryIsExact(cfg, h2, from, before);
    }
  }
}
