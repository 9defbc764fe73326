// Splitting one user's history into tracks, and what the split promises.

module TrackSplitting {
  import opened Ordering
  import opened Clock
  import opened Histories
  import opened DailyStats

  datatype Track = Track(startAt: int, endAt: int, meters: real, geometry: seq<Coord>)

  // The maximal runs of a history: a point joins its predecessor's run unless the gap splits them.
  function Runs(trackBreak: Duration, h: seq<Point>): (runs: seq<seq<Point>>)
    ensures h != [] ==> runs != []
  {
    if h == [] then [] else
      var init, p := h[..|h| - 1], h[|h| - 1];
      var before := Runs(trackBreak, init);
      if init != [] && !Splits(trackBreak, init[|init| - 1].ts, p.ts)
      then before[..|before| - 1] + [before[|before| - 1] + [p]]
      else before + [[p]]
  }

  lemma RunsSingle(trackBreak: Duration, p: Point)
    ensures Runs(trackBreak, [p]) == [[p]]
  {
  }

  // A new last point extends the last run or starts the next one.
  lemma RunsSnoc(trackBreak: Duration, h: seq<Point>, front: seq<seq<Point>>, last: seq<Point>, p: Point)
    requires h != [] && Runs(trackBreak, h) == front + [last]
    ensures Runs(trackBreak, h + [p]) ==
            if Splits(trackBreak, h[|h| - 1].ts, p.ts) then front + [last] + [[p]] else front + [last + [p]]
  {
    assert (h + [p])[..|h|] == h;
    assert (front + [last])[..|front|] == front;
  }

  // Kilometres along the first n points of a run.
  function RunKm(cfg: Config, run: seq<Point>, n: nat): real
    requires n <= |run|
  {
    if n < 2 then 0.0 else RunKm(cfg, run, n - 1) + cfg.distance(run[n - 2].at, run[n - 1].at)
  }

  function Coordinates(run: seq<Point>): (g: seq<Coord>)
    ensures |g| == |run| && forall i :: 0 <= i < |g| ==> g[i] == run[i].at
  {
    seq(|run|, i requires 0 <= i < |run| => run[i].at)
  }

  function TrackOf(cfg: Config, run: seq<Point>): Track
    requires run != []
  {
    Track(run[0].ts, run[|run| - 1].ts, RunKm(cfg, run, |run|) * 1000.0, Coordinates(run))
  }

  // The track of a run of two points or more.
  function Finished(cfg: Config, run: seq<Point>): seq<Track> {
    if |run| < 2 then [] else [TrackOf(cfg, run)]
  }

  // The tracks of the runs of two points or more.
  function Kept(cfg: Config, runs: seq<seq<Point>>): seq<Track> {
    if runs == [] then [] else
      var last := runs[|runs| - 1];
      Kept(cfg, runs[..|runs| - 1]) + Finished(cfg, last)
  }

  function TracksOf(cfg: Config, h: seq<Point>): seq<Track> {
    Kept(cfg, Runs(cfg.trackBreak, h))
  }

  // Where build stands: the runs flushed so far with their tracks, and the one it is in.
  ghost predicate Building(cfg: Config, done: seq<Point>, flushed: seq<seq<Point>>, current: seq<Point>,
                           tracks: seq<Track>) {
    && tracks == Kept(cfg, flushed)
    && if done == [] then flushed == [] && current == []
       else current != [] && Runs(cfg.trackBreak, done) == flushed + [current]
  }

  lemma BuildingMore(cfg: Config, done: seq<Point>, flushed: seq<seq<Point>>, current: seq<Point>, tracks: seq<Track>,
                     p: Point)
    requires Building(cfg, done, flushed, current, tracks)
    ensures if done != [] && Splits(cfg.trackBreak, done[|done| - 1].ts, p.ts)
            then Building(cfg, done + [p], flushed + [current], [p], tracks + Finished(cfg, current))
            else Building(cfg, done + [p], flushed, current + [p], tracks)
  {
    assert (flushed + [current])[..|flushed|] == flushed;
    if done == [] {
      RunsSingle(cfg.trackBreak, p);
      assert done + [p] == [p] && flushed + [current + [p]] == [[p]];
    } else {
      RunsSnoc(cfg.trackBreak, done, flushed, current, p);
    }
  }

  // build: the loop over the ordered points.
  method Build(cfg: Config, points: seq<Point>) returns (tracks: seq<Track>)
    ensures tracks == TracksOf(cfg, points)
  {
    tracks := [];
    var current: seq<Point> := [];
    ghost var flushed: seq<seq<Point>> := [];
    for i := 0 to |points|
      invariant Building(cfg, points[..i], flushed, current, tracks)
    {
      CutAt(points, i);
      BuildingMore(cfg, points[..i], flushed, current, tracks, points[i]);
      if i > 0 && Sub(points[i].ts, points[i - 1].ts) > cfg.trackBreak {
        var finished := Finish(cfg, current);
        flushed, tracks, current := flushed + [current], tracks + finished, [];
      }
      assert current == [] ==> current + [points[i]] == [points[i]];
      current := current + [points[i]];
    }
    assert points[..|points|] == points;
    assert (flushed + [current])[..|flushed|] == flushed;
    var finished := Finish(cfg, current);
    tracks := tracks + finished;
  }

  // finish: one run as the track it describes, or nothing when it is too short to be one.
  method Finish(cfg: Config, points: seq<Point>) returns (track: seq<Track>)
    ensures track == Finished(cfg, points)
  {
    if |points| < 2 {
      return [];
    }
    var geometry := new Coord[|points|](_ => points[0].at);
    var distanceKm := 0.0;
    for i := 0 to |points|
      invariant forall k :: 0 <= k < i ==> geometry[k] == points[k].at
      invariant distanceKm == RunKm(cfg, points, i)
    {
      geometry[i] := points[i].at;
      if i > 0 {
        distanceKm := distanceKm + cfg.distance(points[i - 1].at, points[i].at);
      }
    }
    assert geometry[..] == Coordinates(points);
    track := [Track(points[0].ts, points[|points| - 1].ts, distanceKm * 1000.0, geometry[..])];
  }

  function Flatten(runs: seq<seq<Point>>): seq<Point> {
    if runs == [] then [] else Flatten(runs[..|runs| - 1]) + runs[|runs| - 1]
  }

  // No gap inside the run is longer than the break.
  ghost predicate Unbroken(trackBreak: Duration, run: seq<Point>) {
    run != [] && forall i, k :: 0 <= i && k == i + 1 && k < |run| ==> !Splits(trackBreak, run[i].ts, run[k].ts)
  }

  // The gap from one run to the next is longer than the break.
  ghost predicate Apart(trackBreak: Duration, run: seq<Point>, next: seq<Point>) {
    run != [] && next != [] && Splits(trackBreak, run[|run| - 1].ts, next[0].ts)
  }

  // runs cuts h exactly at the gaps longer than the break.
  ghost predicate IsSplit(trackBreak: Duration, h: seq<Point>, runs: seq<seq<Point>>) {
    && Flatten(runs) == h
    && (forall i :: 0 <= i < |runs| ==> Unbroken(trackBreak, runs[i]))
    && (forall i, j :: 0 <= i && j == i + 1 && j < |runs| ==> Apart(trackBreak, runs[i], runs[j]))
  }

  lemma FlattenSnoc(runs: seq<seq<Point>>, last: seq<Point>)
    ensures Flatten(runs + [last]) == Flatten(runs) + last
  {
    assert (runs + [last])[..|runs|] == runs;
  }

  lemma SplitSnoc(trackBreak: Duration, runs: seq<seq<Point>>, last: seq<Point>)
    ensures IsSplit(trackBreak, Flatten(runs) + last, runs + [last]) <==>
            && IsSplit(trackBreak, Flatten(runs), runs)
            && Unbroken(trackBreak, last)
            && (runs != [] ==> Apart(trackBreak, runs[|runs| - 1], last))
  {
    FlattenSnoc(runs, last);
    var all := runs + [last];
    assert forall i :: 0 <= i < |runs| ==> all[i] == runs[i];
    assert all[|runs|] == last;
    if IsSplit(trackBreak, Flatten(runs) + last, all) {
      assert forall i :: 0 <= i < |runs| ==> Unbroken(trackBreak, all[i]);
      assert runs != [] ==> Apart(trackBreak, all[|runs| - 1], all[|runs|]);
    }
  }

  lemma UnbrokenSnoc(trackBreak: Duration, run: seq<Point>, p: Point)
    requires run != []
    ensures Unbroken(trackBreak, run + [p]) <==>
            Unbroken(trackBreak, run) && !Splits(trackBreak, run[|run| - 1].ts, p.ts)
  {
    var longer := run + [p];
    assert forall i :: 0 <= i < |run| ==> longer[i] == run[i];
    assert longer[|run|] == p;
  }

  lemma SplitLast(trackBreak: Duration, h: seq<Point>, runs: seq<seq<Point>>)
    requires IsSplit(trackBreak, h, runs)
    ensures h == [] <==> runs == []
    ensures runs != [] ==> runs[|runs| - 1] != [] && h[|h| - 1] == runs[|runs| - 1][|runs[|runs| - 1]| - 1]
  {
    if runs != [] {
      assert Unbroken(trackBreak, runs[|runs| - 1]);
    }
  }

  // The runs, dropped singles included, partition the history.
  lemma {:induction false} RunsSplit(trackBreak: Duration, h: seq<Point>)
    ensures IsSplit(trackBreak, h, Runs(trackBreak, h))
  {
    if h != [] {
      var init, p := h[..|h| - 1], h[|h| - 1];
      assert h == init + [p];
      if init != [] {
        RunsSplit(trackBreak, init);
        var before := Runs(trackBreak, init);
        var front, last := before[..|before| - 1], before[|before| - 1];
        assert before == front + [last];
        RunsSnoc(trackBreak, init, front, last, p);
        SplitGrows(trackBreak, init, front, last, p);
      } else {
        RunsSingle(trackBreak, p);
      }
    }
  }

  lemma SplitGrows(trackBreak: Duration, h: seq<Point>, front: seq<seq<Point>>, last: seq<Point>, p: Point)
    requires h != [] && IsSplit(trackBreak, h, front + [last])
    ensures Splits(trackBreak, h[|h| - 1].ts, p.ts) ==> IsSplit(trackBreak, h + [p], front + [last] + [[p]])
    ensures !Splits(trackBreak, h[|h| - 1].ts, p.ts) ==> IsSplit(trackBreak, h + [p], front + [last + [p]])
  {
    FlattenSnoc(front, last);
    SplitLast(trackBreak, h, front + [last]);
    if Splits(trackBreak, h[|h| - 1].ts, p.ts) {
      SplitSnoc(trackBreak, front + [last], [p]);
    } else {
      SplitSnoc(trackBreak, front, last);
      UnbrokenSnoc(trackBreak, last, p);
      SplitSnoc(trackBreak, front, last + [p]);
      assert Flatten(front) + (last + [p]) == h + [p];
    }
  }

  lemma SplitShrinks(trackBreak: Duration, h: seq<Point>, front: seq<seq<Point>>, last: seq<Point>, p: Point)
    requires IsSplit(trackBreak, h, front + [last + [p]])
    ensures h == Flatten(front) + last + [p]
    ensures last == [] ==> IsSplit(trackBreak, Flatten(front), front)
    ensures last == [] && front != [] ==> Splits(trackBreak, h[|h| - 2].ts, p.ts)
    ensures last != [] ==> IsSplit(trackBreak, Flatten(front) + last, front + [last])
    ensures last != [] ==> !Splits(trackBreak, h[|h| - 2].ts, p.ts)
  {
    FlattenSnoc(front, last + [p]);
    SplitSnoc(trackBreak, front, last + [p]);
    if last == [] {
      SplitLast(trackBreak, Flatten(front), front);
    } else {
      UnbrokenSnoc(trackBreak, last, p);
      SplitSnoc(trackBreak, front, last);
    }
  }

  // And nothing else does: the split is determined by the gaps.
  lemma {:induction false} SplitIsUnique(trackBreak: Duration, h: seq<Point>, runs: seq<seq<Point>>)
    requires IsSplit(trackBreak, h, runs)
    ensures runs == Runs(trackBreak, h)
    decreases |h|
  {
    SplitLast(trackBreak, h, runs);
    if runs != [] {
      var front, final := runs[..|runs| - 1], runs[|runs| - 1];
      var last, p := final[..|final| - 1], final[|final| - 1];
      assert final == last + [p];
      assert runs == front + [final];
      SplitShrinks(trackBreak, h, front, last, p);
      if last != [] {
        SplitIsUnique(trackBreak, Flatten(front) + last, front + [last]);
        RunsSnoc(trackBreak, Flatten(front) + last, front, last, p);
      } else if front != [] {
        SplitIsUnique(trackBreak, Flatten(front), front);
        SplitLast(trackBreak, Flatten(front), front);
        var before, lastBefore := front[..|front| - 1], front[|front| - 1];
        assert front == before + [lastBefore];
        RunsSnoc(trackBreak, Flatten(front), before, lastBefore, p);
      } else {
        RunsSingle(trackBreak, p);
      }
    }
  }
}
