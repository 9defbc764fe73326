// What readers of the stored tracks rely on: a track's time range stands for its run.

module TrackProperties {
  import opened Ordering
  import opened Clock
  import opened Histories
  import opened DailyStats
  import opened TrackSplitting

  lemma {:induction false} FlattenConcat(a: seq<seq<Point>>, b: seq<seq<Point>>)
    ensures Flatten(a + b) == Flatten(a) + Flatten(b)
  {
    if b == [] {
      assert a + b == a;
    } else {
      var front, last := b[..|b| - 1], b[|b| - 1];
      FlattenConcat(a, front);
      assert a + b == (a + front) + [last];
      FlattenSnoc(a + front, last);
      Regroup(Flatten(a), Flatten(front), last);
    }
  }

  lemma FlattenSplitAt(runs: seq<seq<Point>>, i: nat)
    requires i < |runs|
    ensures Flatten(runs) == Flatten(runs[..i]) + runs[i] + Flatten(runs[i + 1..])
  {
    CutAt(runs, i);
    FlattenConcat(runs[..i + 1], runs[i + 1..]);
    FlattenSnoc(runs[..i], runs[i]);
  }

  // Where run i starts in the history.
  function Offset(runs: seq<seq<Point>>, i: nat): nat
    requires i <= |runs|
  {
    |Flatten(runs[..i])|
  }

  lemma OffsetStep(runs: seq<seq<Point>>, i: nat)
    requires i < |runs|
    ensures Offset(runs, i + 1) == Offset(runs, i) + |runs[i]|
  {
    assert runs[..i + 1] == runs[..i] + [runs[i]];
    FlattenSnoc(runs[..i], runs[i]);
  }

  lemma {:induction false} OffsetMonotone(runs: seq<seq<Point>>, i: nat, j: nat)
    requires i <= j <= |runs|
    ensures Offset(runs, i) <= Offset(runs, j)
    decreases j - i
  {
    if i < j {
      OffsetStep(runs, j - 1);
      OffsetMonotone(runs, i, j - 1);
    }
  }

  // Run i is a contiguous stretch of the history.
  lemma RunPosition(runs: seq<seq<Point>>, i: nat)
    requires i < |runs|
    ensures var h, o := Flatten(runs), Offset(runs, i);
            o + |runs[i]| <= |h| && h[o..o + |runs[i]|] == runs[i]
    ensures i + 1 == |runs| ==> Offset(runs, i) + |runs[i]| == |Flatten(runs)|
    ensures forall k :: 0 <= k < |runs[i]| ==> Flatten(runs)[Offset(runs, i) + k] == runs[i][k]
  {
    FlattenSplitAt(runs, i);
  }

  lemma RangeIsPiece(runs: seq<seq<Point>>, i: nat)
    requires Sorted(Flatten(runs)) && i < |runs| && runs[i] != []
    ensures Range(Flatten(runs), runs[i][0].ts, runs[i][|runs[i]| - 1].ts + 1) == runs[i]
  {
    var h, o, end := Flatten(runs), Offset(runs, i), Offset(runs, i) + |runs[i]|;
    RunPosition(runs, i);
    assert h[o] == runs[i][0];
    assert h[end - 1] == runs[i][|runs[i]| - 1];
    SliceIsRange(h, o, end);
  }

  // GET /api/v1/tracks/{id}/points: the closed range of a run's own timestamps holds that run, and
  // nothing of another run.
  lemma RangeIsRun(trackBreak: Duration, h: seq<Point>, runs: seq<seq<Point>>, i: nat)
    requires Sorted(h) && IsSplit(trackBreak, h, runs) && i < |runs|
    ensures runs[i] != [] && Range(h, runs[i][0].ts, runs[i][|runs[i]| - 1].ts + 1) == runs[i]
  {
    assert Unbroken(trackBreak, runs[i]);
    RangeIsPiece(runs, i);
  }

  // Where the a-th kept track comes from.
  lemma {:induction false} KeptFrom(cfg: Config, runs: seq<seq<Point>>, a: nat) returns (i: nat)
    requires a < |Kept(cfg, runs)|
    ensures i < |runs| && |runs[i]| >= 2 && Kept(cfg, runs)[a] == TrackOf(cfg, runs[i])
    ensures |Kept(cfg, runs[..i])| == a
  {
    var front := runs[..|runs| - 1];
    if a < |Kept(cfg, front)| {
      i := KeptFrom(cfg, front, a);
      assert front[..i] == runs[..i];
    } else {
      i := |runs| - 1;
    }
  }

  lemma {:induction false} KeptGrows(cfg: Config, runs: seq<seq<Point>>, i: nat, j: nat)
    requires i <= j <= |runs|
    ensures |Kept(cfg, runs[..i])| <= |Kept(cfg, runs[..j])|
    ensures i < j && |runs[i]| >= 2 ==> |Kept(cfg, runs[..i])| < |Kept(cfg, runs[..j])|
  {
    if i < j {
      KeptGrows(cfg, runs, i, j - 1);
      assert runs[..j][..j - 1] == runs[..j - 1];
    }
  }

  lemma KeptHas(cfg: Config, runs: seq<seq<Point>>, i: nat) returns (a: nat)
    requires i < |runs| && |runs[i]| >= 2
    ensures a < |Kept(cfg, runs)| && Kept(cfg, runs)[a] == TrackOf(cfg, runs[i])
    decreases |runs|
  {
    var front := runs[..|runs| - 1];
    if i < |front| {
      a := KeptHas(cfg, front, i);
    } else {
      a := |Kept(cfg, front)|;
    }
  }

  lemma TrackHasRun(cfg: Config, h: seq<Point>, t: Track) returns (i: nat)
    requires t in TracksOf(cfg, h)
    ensures i < |Runs(cfg.trackBreak, h)| && |Runs(cfg.trackBreak, h)[i]| >= 2
    ensures t == TrackOf(cfg, Runs(cfg.trackBreak, h)[i])
  {
    var a :| 0 <= a < |TracksOf(cfg, h)| && TracksOf(cfg, h)[a] == t;
    i := KeptFrom(cfg, Runs(cfg.trackBreak, h), a);
  }

  lemma RangeOfTrack(cfg: Config, h: seq<Point>, runs: seq<seq<Point>>, i: nat, t: Track)
    requires Sorted(h) && IsSplit(cfg.trackBreak, h, runs) && i < |runs| && |runs[i]| >= 2
    requires t == TrackOf(cfg, runs[i])
    ensures Range(h, t.startAt, t.endAt + 1) == runs[i]
  {
    RangeIsRun(cfg.trackBreak, h, runs, i);
  }

  // Listing the points between a track's StartAt and EndAt, both included, gives the track's
  // geometry, coordinate by coordinate.
  lemma TrackRangeIsGeometry(cfg: Config, h: seq<Point>, t: Track) returns (i: nat)
    requires Sorted(h) && t in TracksOf(cfg, h)
    ensures var listed := Range(h, t.startAt, t.endAt + 1);
            && |listed| >= 2
            && Coordinates(listed) == t.geometry
            && t == TrackOf(cfg, listed)
            && i < |Runs(cfg.trackBreak, h)| && listed == Runs(cfg.trackBreak, h)[i]
  {
    i := TrackHasRun(cfg, h, t);
    RunsSplit(cfg.trackBreak, h);
    RangeOfTrack(cfg, h, Runs(cfg.trackBreak, h), i, t);
  }

  // From any run to any later one, the gap is longer than the break.
  lemma RunsApart(trackBreak: Duration, h: seq<Point>, runs: seq<seq<Point>>, i: nat, j: nat)
    requires Sorted(h) && IsSplit(trackBreak, h, runs) && i < j < |runs|
    ensures runs[i] != [] && runs[j] != []
    ensures runs[i][|runs[i]| - 1].ts < runs[j][0].ts
    ensures Splits(trackBreak, runs[i][|runs[i]| - 1].ts, runs[j][0].ts)
  {
    assert Apart(trackBreak, runs[i], runs[i + 1]);
    assert Unbroken(trackBreak, runs[j]);
    RunStart(runs, i + 1);
    RunStart(runs, j);
    RunPosition(runs, i);
    OffsetStep(runs, i);
    OffsetMonotone(runs, i + 1, j);
    assert h[Offset(runs, i) + |runs[i]| - 1] == runs[i][|runs[i]| - 1];
  }

  lemma RunStart(runs: seq<seq<Point>>, i: nat)
    requires i < |runs| && runs[i] != []
    ensures Offset(runs, i) < |Flatten(runs)| && Flatten(runs)[Offset(runs, i)] == runs[i][0]
  {
    RunPosition(runs, i);
  }

  // Tracks come in time order, do not overlap, and are always more than the break apart.
  lemma TracksAscend(cfg: Config, h: seq<Point>, a: nat, b: nat)
    requires Sorted(h) && a < b < |TracksOf(cfg, h)|
    ensures TracksOf(cfg, h)[a].endAt < TracksOf(cfg, h)[b].startAt
    ensures Splits(cfg.trackBreak, TracksOf(cfg, h)[a].endAt, TracksOf(cfg, h)[b].startAt)
  {
    var runs := Runs(cfg.trackBreak, h);
    var i := KeptFrom(cfg, runs, a);
    var j := KeptFrom(cfg, runs, b);
    if j <= i {
      KeptGrows(cfg, runs, j, i);
    }
    RunsSplit(cfg.trackBreak, h);
    RunsApart(cfg.trackBreak, h, runs, i, j);
  }

  lemma {:induction false} OwnRun(runs: seq<seq<Point>>, k: nat) returns (i: nat)
    requires k < |Flatten(runs)|
    ensures i < |runs|
    ensures |Flatten(runs[..i])| <= k < |Flatten(runs[..i])| + |runs[i]|
  {
    var front := runs[..|runs| - 1];
    if k < |Flatten(front)| {
      i := OwnRun(front, k);
      assert front[..i] == runs[..i];
    } else {
      i := |runs| - 1;
    }
  }

  // The gap before h[k] and the gap after it, if there are such gaps, both exceed the break.
  ghost predicate Alone(trackBreak: Duration, h: seq<Point>, k: nat)
    requires k < |h|
  {
    && (k > 0 ==> Splits(trackBreak, h[k - 1].ts, h[k].ts))
    && (k + 1 < |h| ==> Splits(trackBreak, h[k].ts, h[k + 1].ts))
  }

  lemma RunBefore(trackBreak: Duration, h: seq<Point>, runs: seq<seq<Point>>, i: nat)
    requires IsSplit(trackBreak, h, runs) && 0 < i < |runs|
    ensures 0 < Offset(runs, i) < |h| && Splits(trackBreak, h[Offset(runs, i) - 1].ts, h[Offset(runs, i)].ts)
  {
    assert Apart(trackBreak, runs[i - 1], runs[i]);
    RunPosition(runs, i - 1);
    OffsetStep(runs, i - 1);
    RunStartsAt(h, runs, i);
  }

  lemma RunStartsAt(h: seq<Point>, runs: seq<seq<Point>>, i: nat)
    requires Flatten(runs) == h && i < |runs| && runs[i] != []
    ensures Offset(runs, i) < |h| && h[Offset(runs, i)] == runs[i][0]
  {
    RunPosition(runs, i);
  }

  lemma NeighbouringRuns(trackBreak: Duration, h: seq<Point>, runs: seq<seq<Point>>, i: nat)
    requires IsSplit(trackBreak, h, runs) && i < |runs| && |runs[i]| == 1
    ensures Offset(runs, i) < |h| && Alone(trackBreak, h, Offset(runs, i))
  {
    RunStartsAt(h, runs, i);
    OffsetStep(runs, i);
    if i > 0 {
      RunBefore(trackBreak, h, runs, i);
    } else {
      assert runs[..0] == [];
    }
    if i + 1 < |runs| {
      RunBefore(trackBreak, h, runs, i + 1);
    } else {
      assert runs[..i + 1] == runs;
    }
  }

  lemma AloneMeansSingle(trackBreak: Duration, h: seq<Point>, k: nat) returns (i: nat)
    requires k < |h|
    ensures i < |Runs(trackBreak, h)| && h[k] in Runs(trackBreak, h)[i]
    ensures Alone(trackBreak, h, k) <==> |Runs(trackBreak, h)[i]| == 1
  {
    RunsSplit(trackBreak, h);
    var runs := Runs(trackBreak, h);
    i := OwnRun(runs, k);
    RunPosition(runs, i);
    var run, o := runs[i], Offset(runs, i);
    var m := k - o;
    assert run[m] == h[k];
    if |run| == 1 {
      NeighbouringRuns(trackBreak, h, runs, i);
    } else {
      assert Unbroken(trackBreak, run);
      if m > 0 {
        assert !Splits(trackBreak, run[m - 1].ts, run[m].ts);
      } else {
        assert !Splits(trackBreak, run[m].ts, run[m + 1].ts);
      }
    }
  }

  lemma OtherRunsMiss(trackBreak: Duration, h: seq<Point>, runs: seq<seq<Point>>, i: nat, j: nat, p: Point)
    requires Sorted(h) && IsSplit(trackBreak, h, runs)
    requires i < |runs| && j < |runs| && runs[i] == [p] && |runs[j]| >= 2
    ensures !(runs[j][0].ts <= p.ts <= runs[j][|runs[j]| - 1].ts)
  {
    if i < j {
      RunsApart(trackBreak, h, runs, i, j);
    } else {
      RunsApart(trackBreak, h, runs, j, i);
    }
  }

  // A point is missing from every track exactly when every neighbouring gap exceeds the break.
  lemma InNoTrackIffAlone(cfg: Config, h: seq<Point>, k: nat)
    requires Sorted(h) && k < |h|
    ensures Alone(cfg.trackBreak, h, k) <==>
            forall t :: t in TracksOf(cfg, h) ==> !(t.startAt <= h[k].ts <= t.endAt)
  {
    var i := AloneMeansSingle(cfg.trackBreak, h, k);
    if |Runs(cfg.trackBreak, h)[i]| == 1 {
      forall t | t in TracksOf(cfg, h) ensures !(t.startAt <= h[k].ts <= t.endAt) {
        SingleMissed(cfg, h, i, h[k], t);
      }
    } else {
      MemberInTrack(cfg, h, i, h[k]);
    }
  }

  lemma SingleMissed(cfg: Config, h: seq<Point>, i: nat, p: Point, t: Track)
    requires Sorted(h) && i < |Runs(cfg.trackBreak, h)| && |Runs(cfg.trackBreak, h)[i]| == 1
    requires p in Runs(cfg.trackBreak, h)[i] && t in TracksOf(cfg, h)
    ensures !(t.startAt <= p.ts <= t.endAt)
  {
    var j := TrackHasRun(cfg, h, t);
    RunsSplit(cfg.trackBreak, h);
    OtherRunsMiss(cfg.trackBreak, h, Runs(cfg.trackBreak, h), i, j, p);
  }

  lemma MemberInTrack(cfg: Config, h: seq<Point>, i: nat, p: Point)
    requires Sorted(h) && i < |Runs(cfg.trackBreak, h)|
    requires p in Runs(cfg.trackBreak, h)[i] && |Runs(cfg.trackBreak, h)[i]| != 1
    ensures exists t :: t in TracksOf(cfg, h) && t.startAt <= p.ts <= t.endAt
  {
    var runs := Runs(cfg.trackBreak, h);
    var a := KeptHas(cfg, runs, i);
    var t := TrackOf(cfg, runs[i]);
    assert t in TracksOf(cfg, h);
    assert t.startAt <= p.ts <= t.endAt by {
      RunsSplit(cfg.trackBreak, h);
      RangeOfTrack(cfg, h, runs, i, t);
      RangeMembers(h, t.startAt, t.endAt + 1);
    }
  }

  // trackToFeature: whole seconds between the ends, through a saturating Duration.
  function DurationSeconds(t: Track): int {
    TruncatedQuotient(Sub(t.endAt, t.startAt), SECOND)
  }

  lemma {:induction false} RunSpan(trackBreak: Duration, run: seq<Point>)
    requires Unbroken(trackBreak, run) && Sorted(run) && trackBreak < MAX_DURATION
    ensures |run| - 1 <= run[|run| - 1].ts - run[0].ts <= (|run| - 1) * TruncatedQuotient(trackBreak, SECOND)
  {
    var n := |run|;
    if n > 1 {
      var init := run[..n - 1];
      assert run == init + [run[n - 1]];
      UnbrokenSnoc(trackBreak, init, run[n - 1]);
      RunSpan(trackBreak, init);
      BreakTestsAgree(trackBreak);
      assert !Splits(trackBreak, run[n - 2].ts, run[n - 1].ts);
      var q := TruncatedQuotient(trackBreak, SECOND);
      assert (n - 2) * q + q == (n - 1) * q;
    }
  }

  lemma TrackSpan(cfg: Config, h: seq<Point>, t: Track)
    requires Sorted(h) && t in TracksOf(cfg, h) && cfg.trackBreak < MAX_DURATION
    ensures var gaps := |t.geometry| - 1;
            1 <= gaps <= t.endAt - t.startAt <= gaps * TruncatedQuotient(cfg.trackBreak, SECOND)
  {
    var i := TrackRangeIsGeometry(cfg, h, t);
    var run := Range(h, t.startAt, t.endAt + 1);
    RangeMembers(h, t.startAt, t.endAt + 1);
    assert Unbroken(cfg.trackBreak, run) by {
      RunsSplit(cfg.trackBreak, h);
      assert Unbroken(cfg.trackBreak, Runs(cfg.trackBreak, h)[i]);
    }
    RunSpan(cfg.trackBreak, run);
  }

  // The divisor of the average speed is never zero, and a track of n points lasts at most n - 1 breaks.
  // It lasts at least n - 1 seconds exactly when a Duration can hold that many.
  lemma TrackDuration(cfg: Config, h: seq<Point>, t: Track)
    requires Sorted(h) && t in TracksOf(cfg, h) && cfg.trackBreak < MAX_DURATION
    ensures DurationSeconds(t) >= 1
    ensures DurationSeconds(t) <= (|t.geometry| - 1) * TruncatedQuotient(cfg.trackBreak, SECOND)
    ensures DurationSeconds(t) >= |t.geometry| - 1 <==> |t.geometry| - 1 <= MAX_DURATION / SECOND
  {
    TrackSpan(cfg, h, t);
    WholeSeconds(t);
  }

  lemma WholeSeconds(t: Track)
    requires t.endAt - t.startAt >= 1
    ensures DurationSeconds(t) ==
            if t.endAt - t.startAt <= MAX_DURATION / SECOND then t.endAt - t.startAt else MAX_DURATION / SECOND
  {
    var span := t.endAt - t.startAt;
    assert span * SECOND / SECOND == span;
  }

  // trackToFeature's average speed, in kilometres per hour.
  function AvgSpeed(t: Track): real
    requires DurationSeconds(t) != 0
  {
    (t.meters / 1000.0) / (DurationSeconds(t) as real / 3600.0)
  }

  lemma TrackLasts(cfg: Config, h: seq<Point>, t: Track)
    requires Sorted(h) && t in TracksOf(cfg, h)
    ensures DurationSeconds(t) >= 1
  {
    var i := TrackRangeIsGeometry(cfg, h, t);
    var run := Range(h, t.startAt, t.endAt + 1);
    RangeMembers(h, t.startAt, t.endAt + 1);
    assert run[0].ts < run[|run| - 1].ts;
    WholeSeconds(t);
  }

  // It is defined for every track, and at it the track's metres take the track's seconds.
  lemma SpeedCoversTheTrack(cfg: Config, h: seq<Point>, t: Track)
    requires Sorted(h) && t in TracksOf(cfg, h)
    ensures DurationSeconds(t) != 0 && AvgSpeed(t) * DurationSeconds(t) as real == t.meters * 3.6
  {
    TrackLasts(cfg, h, t);
    SpeedTimesSeconds(t.meters, DurationSeconds(t) as real);
  }

  lemma SpeedTimesSeconds(meters: real, seconds: real)
    requires seconds > 0.0
    ensures ((meters / 1000.0) / (seconds / 3600.0)) * seconds == meters * 3.6
  {
    var hours := seconds / 3600.0;
    assert (meters / 1000.0) / hours * hours == meters / 1000.0;
  }
}
