// What runs beside ingestion: the track worker, and the recalculate command, each a sequence of
// transactions that others' transactions may come between.

module Workers {
  import opened Options
  import opened Ordering
  import opened Clock
  import opened Histories
  import opened DailyStats
  import opened TrackSplitting
  import opened Tables
  import opened Server
  import opened Store
  import opened Recalculation
  import Ingest

  // RebuildUser: read every point, replace every track, in one transaction, joining the one already
  // running if there is one.
  method RebuildUser(db: DB, cfg: Config, user: int) returns (r: Result<()>)
    requires db.Valid()
    modifies db
    ensures old(db.statements) <= db.statements && (r.Err? ==> db.FaultSince(old(db.statements)))
    ensures db.Valid() && db.begun == old(db.begun)
    ensures r.Ok? ==> db.Contents() == WithTracks(cfg, old(db.Contents()), user)
    ensures r.Err? && db.begun.None? ==> db.Contents() == old(db.Contents())
    ensures r.Err? ==> db.Contents() == old(db.Contents()).(tracks := db.tracks)
  {
    var began := db.Begin();
    if began.Err? {
      return Err(began.error);
    }
    var points := db.AllOrdered(user);
    if points.Err? {
      r := Err(points.error);
    } else {
      var tracks := Build(cfg, points.value);
      r := db.ReplaceAll(user, tracks);
    }
    var committed := db.End(began.value, r.Err?);
    if !committed && r.Ok? {
      r := Err(StoreFailure);
    }
  }

  // One round of drain: the claim and the rebuild commit or roll back together. None means that
  // nothing was pending.
  method ClaimAndRebuild(db: DB, cfg: Config) returns (r: Result<Option<int>>)
    requires db.Valid() && db.begun.None?
    modifies db
    ensures old(db.statements) <= db.statements && (r.Err? ==> db.FaultSince(old(db.statements)))
    ensures db.Valid() && db.begun.None?
    ensures r.Err? ==> db.Contents() == old(db.Contents())
    ensures r == Ok(None) ==> db.Contents() == old(db.Contents()) && db.queue.jobs == []
    ensures r.Ok? && r.value.Some? ==> Step(cfg, old(db.Contents()), Claimed, db.Contents())
  {
    var began := db.Begin();
    if began.Err? {
      return Err(began.error);
    }
    r := db.NextPending();
    if r.Ok? && r.value.Some? {
      var rebuilt := RebuildUser(db, cfg, r.value.value);
      if rebuilt.Err? {
        r := Err(rebuilt.error);
      }
    }
    var committed := db.End(began.value, r.Err?);
    if !committed && r.Ok? {
      r := Err(StoreFailure);
    }
  }

  // The tables after the first n pending requests have been served.
  function Drained(cfg: Config, s: Tables, n: nat): (r: Tables)
    requires n <= |s.queue.jobs|
    ensures r == s.(tracks := r.tracks, queue := s.queue.(jobs := s.queue.jobs[n..]))
  {
    if n == 0 then s else
      var before := Drained(cfg, s, n - 1);
      WithTracks(cfg, before, s.queue.jobs[n - 1].user).(queue := s.queue.(jobs := s.queue.jobs[n..]))
  }

  lemma {:induction false} DrainedIsFresh(cfg: Config, s: Tables, n: nat, user: int)
    requires WellFormed(s) && n <= |s.queue.jobs|
    requires FreshOrPending(cfg, s, user)
    ensures FreshOrPending(cfg, Drained(cfg, s, n), user)
    ensures WellFormed(Drained(cfg, s, n))
  {
    if n > 0 {
      DrainedIsFresh(cfg, s, n - 1, user);
      var before := Drained(cfg, s, n - 1);
      assert before.queue.jobs[0] == s.queue.jobs[n - 1];
      assert before.queue.jobs[1..] == s.queue.jobs[n..];
      var after := Drained(cfg, s, n);
      assert Step(cfg, before, Claimed, after);
      StepTracks(cfg, before, Claimed, after, user);
      StepWellFormed(cfg, before, Claimed, after);
    }
  }

  // With no failure and no new requests, draining leaves the queue empty and every user's tracks
  // exactly what the points say.
  lemma DrainMakesFresh(cfg: Config, s: Tables)
    requires WellFormed(s) && TracksAccounted(cfg, s)
    ensures var after := Drained(cfg, s, |s.queue.jobs|);
            after.queue.jobs == [] && forall u :: Fresh(cfg, after, u)
  {
    var after := Drained(cfg, s, |s.queue.jobs|);
    forall u ensures Fresh(cfg, after, u) {
      assert FreshOrPending(cfg, s, u);
      DrainedIsFresh(cfg, s, |s.queue.jobs|, u);
    }
  }

  // What the command has achieved at this phase is still so later on.
  ghost predicate KeepsProgress(cfg: Config, s: Tables, s2: Tables, at: Phase) {
    && (DailyProgress(cfg, s, at) ==> DailyProgress(cfg, s2, at))
    && (TracksProgress(cfg, s, at) ==> TracksProgress(cfg, s2, at))
  }

  lemma StepKeepsProgress(cfg: Config, s: Tables, e: Event, s2: Tables, at: Phase)
    requires cfg.zone.Valid() && Step(cfg, s, e, s2)
    ensures KeepsProgress(cfg, s, s2, at)
  {
    OtherKeepsProgress(cfg, s, at, e, s2);
  }

  lemma NextKeepsProgress(cfg: Config, states: seq<Tables>, events: seq<Event>, i: nat, at: Phase)
    requires cfg.zone.Valid() && IsRun(cfg, states, events) && i < |events|
    requires KeepsProgress(cfg, states[0], states[i], at)
    ensures KeepsProgress(cfg, states[0], states[i + 1], at)
  {
    assert Step(cfg, states[i], events[i], states[i + 1]);
    StepKeepsProgress(cfg, states[i], events[i], states[i + 1], at);
  }

  lemma RunKeepsProgress(cfg: Config, states: seq<Tables>, events: seq<Event>, i: nat, at: Phase)
    requires cfg.zone.Valid() && IsRun(cfg, states, events) && i < |states|
    ensures KeepsProgress(cfg, states[0], states[i], at)
  {
    for k := 0 to i
      invariant KeepsProgress(cfg, states[0], states[k], at)
    {
      NextKeepsProgress(cfg, states, events, k, at);
    }
  }

  // Someone else's transaction, of any kind and with any arguments; it may fail.
  method OneTransaction(db: DB, cfg: Config) returns (ghost e: Event)
    requires db.Valid() && db.begun.None? && cfg.zone.Valid()
    modifies db
    ensures old(db.statements) <= db.statements
    ensures db.Valid() && db.begun.None?
    ensures Step(cfg, old(db.Contents()), e, db.Contents())
  {
    ghost var s := db.Contents();
    e := Aborted;
    var user: int, id: int, ids: seq<int>, coord: Coord, batch: seq<NewPoint> := *, *, *, *, *;
    if {
      case true =>
        var r := Ingest.CreatePoints(db, cfg, batch);
        e := if r.Ok? then Ingested(Mutation.Create(batch)) else Aborted;
      case true =>
        var r := Ingest.UpdatePoint(db, cfg, user, id, coord);
        e := if r.Ok? then Ingested(Mutation.Update(user, id, coord)) else Aborted;
      case true =>
        var r := Ingest.DeletePoint(db, cfg, user, id);
        e := if r.Ok? then Ingested(Mutation.Delete(user, id)) else Aborted;
      case true =>
        var r := Ingest.DeletePoints(db, cfg, user, ids);
        e := if r.Ok? then Ingested(Mutation.DeleteBulk(user, ids)) else Aborted;
      case true =>
        var r := ClaimAndRebuild(db, cfg);
        e := if r.Ok? && r.value.Some? then Claimed else Aborted;
      case true =>
        var r := RebuildUser(db, cfg, user);
        e := if r.Ok? then Rebuilt(user) else Aborted;
    }
    assert Step(cfg, s, e, db.Contents());
  }

  // n of them, one after the other.
  method OtherTransactions(db: DB, cfg: Config, n: nat) returns (ghost states: seq<Tables>, ghost events: seq<Event>)
    requires db.Valid() && db.begun.None? && cfg.zone.Valid()
    modifies db
    ensures old(db.statements) <= db.statements
    ensures db.Valid() && db.begun.None?
    ensures IsRun(cfg, states, events) && |events| == n
    ensures states[0] == old(db.Contents()) && states[n] == db.Contents()
  {
    states, events := [db.Contents()], [];
    for i := 0 to n
      invariant db.Valid() && db.begun.None? && old(db.statements) <= db.statements
      invariant IsRun(cfg, states, events) && |events| == i
      invariant states[0] == old(db.Contents()) && states[i] == db.Contents()
    {
      ghost var e := OneTransaction(db, cfg);
      RunSnoc(cfg, states, events, e, db.Contents());
      states, events := states + [db.Contents()], events + [e];
    }
  }

  lemma RunSnoc(cfg: Config, states: seq<Tables>, events: seq<Event>, e: Event, s: Tables)
    requires IsRun(cfg, states, events) && Step(cfg, states[|events|], e, s)
    ensures IsRun(cfg, states + [s], events + [e])
  {
    var longer, all := states + [s], events + [e];
    forall i | 0 <= i < |all|
      ensures Step(cfg, longer[i], all[i], longer[i + 1])
    {
      if i < |events| {
        assert Step(cfg, states[i], events[i], states[i + 1]);
      }
    }
  }

  // How much the queue holds, against how many jobs were ever put into it: only a claim changes that.
  function Backlog(q: Queue): int {
    |q.jobs| - q.nextId
  }

  lemma {:induction false} EnqueueKeepsBacklog(q: Queue, touched: seq<Touch>)
    ensures Backlog(EnqueueAll(q, touched)) == Backlog(q)
  {
    if touched != [] {
      EnqueueKeepsBacklog(q, touched[..|touched| - 1]);
    }
  }

  lemma StepBacklog(cfg: Config, s: Tables, e: Event, s2: Tables)
    requires Step(cfg, s, e, s2)
    ensures Backlog(s2.queue) == Backlog(s.queue) - if e.Claimed? then 1 else 0
  {
    if e.Ingested? {
      EnqueueKeepsBacklog(s.queue, Apply(s.points, s.nextPoint, e.mutation).value.touched);
    }
  }

  // Where a drain stands: how many it served, of how many, with all tracks as accounted for as before.
  ghost predicate Draining(cfg: Config, s: Tables, served: nat, s2: Tables) {
    && served + Backlog(s2.queue) <= Backlog(s.queue)
    && (TracksAccounted(cfg, s) ==> TracksAccounted(cfg, s2))
  }

  lemma StepDrains(cfg: Config, s: Tables, served: nat, s1: Tables, e: Event, s2: Tables)
    requires Draining(cfg, s, served, s1) && Step(cfg, s1, e, s2)
    ensures Draining(cfg, s, served, s2)
    ensures e.Claimed? ==> Draining(cfg, s, served + 1, s2)
  {
    StepBacklog(cfg, s1, e, s2);
    if TracksAccounted(cfg, s1) {
      StepTracksAccounted(cfg, s1, e, s2);
    }
  }

  lemma {:induction false} RunDrains(cfg: Config, s: Tables, served: nat, states: seq<Tables>, events: seq<Event>,
                                     i: nat)
    requires IsRun(cfg, states, events) && i < |states| && Draining(cfg, s, served, states[0])
    ensures Draining(cfg, s, served, states[i])
  {
    if i > 0 {
      RunDrains(cfg, s, served, states, events, i - 1);
      assert Step(cfg, states[i - 1], events[i - 1], states[i]);
      StepDrains(cfg, s, served, states[i - 1], events[i - 1], states[i]);
    }
  }

  // With nothing in between, exactly the first so many jobs have been served, in order.
  ghost predicate DrainedAlone(cfg: Config, s: Tables, served: nat, s2: Tables) {
    served <= |s.queue.jobs| && s2 == Drained(cfg, s, served)
  }

  lemma ServedAlone(cfg: Config, s: Tables, served: nat, s1: Tables, s2: Tables)
    requires DrainedAlone(cfg, s, served, s1) && Step(cfg, s1, Claimed, s2)
    ensures DrainedAlone(cfg, s, served + 1, s2)
  {
    assert s.queue.jobs[served..][1..] == s.queue.jobs[served + 1..];
  }

  // One round, after `now` transactions of others: whether it served a job. s and served say where the
  // drain stands.
  method DrainRound(db: DB, cfg: Config, now: nat, ghost s: Tables, ghost served: nat) returns (r: Result<bool>)
    requires db.Valid() && db.begun.None? && cfg.zone.Valid() && Draining(cfg, s, served, db.Contents())
    modifies db
    ensures old(db.statements) <= db.statements && (r.Err? ==> db.FaultSince(old(db.statements)))
    ensures db.Valid() && db.begun.None?
    ensures Draining(cfg, s, if r == Ok(true) then served + 1 else served, db.Contents())
    ensures r == Ok(false) ==> db.queue.jobs == []
    ensures now == 0 && r == Ok(true) ==> |db.queue.jobs| < |old(db.queue).jobs|
    ensures now == 0 && DrainedAlone(cfg, s, served, old(db.Contents())) ==>
              DrainedAlone(cfg, s, if r == Ok(true) then served + 1 else served, db.Contents())
  {
    ghost var states, events := OtherTransactions(db, cfg, now);
    RunDrains(cfg, s, served, states, events, now);
    ghost var before := db.Contents();
    var claimed := ClaimAndRebuild(db, cfg);
    if claimed.Err? {
      return Err(claimed.error);
    }
    r := Ok(claimed.value.Some?);
    if r.value {
      StepDrains(cfg, s, served, before, Claimed, db.Contents());
      if DrainedAlone(cfg, s, served, before) {
        ServedAlone(cfg, s, served, before, db.Contents());
      }
    }
  }

  datatype DrainEnd = Cancelled | Failed | Emptied

  // drain: serve requests in turn until none is left, one fails, or the server is stopping, which it looks
  // at before each round. Between two rounds others' transactions commit and abort, `others` of them in
  // all; however many those are, it ends, having made no more claims than there were jobs to claim.
  method Drain(db: DB, cfg: Config, others: nat, cancelled: nat -> bool) returns (served: nat, end: DrainEnd)
    requires db.Valid() && db.begun.None? && cfg.zone.Valid()
    modifies db
    ensures db.Valid() && db.begun.None?
    ensures match end
            case Cancelled => cancelled(served)
            case Failed => db.FaultSince(old(db.statements))
            case Emptied => db.queue.jobs == []
    ensures served + |db.queue.jobs| <= |old(db.queue).jobs| + (db.queue.nextId - old(db.queue).nextId)
    ensures TracksAccounted(cfg, old(db.Contents())) ==> TracksAccounted(cfg, db.Contents())
    ensures end == Emptied && TracksAccounted(cfg, old(db.Contents())) ==> forall u :: Fresh(cfg, db.Contents(), u)
    ensures others == 0 ==> DrainedAlone(cfg, old(db.Contents()), served, db.Contents())
    ensures others == 0 && end == Emptied ==> served == |old(db.queue).jobs|
  {
    ghost var s := db.Contents();
    served, end := 0, Cancelled;
    var left: nat := others;
    while !cancelled(served)
      invariant db.Valid() && db.begun.None? && end == Cancelled && old(db.statements) <= db.statements
      invariant Draining(cfg, s, served, db.Contents())
      invariant others == 0 ==> left == 0 && DrainedAlone(cfg, s, served, db.Contents())
      decreases left, |db.queue.jobs|
    {
      var some: int := *;
      var now: nat := if 0 <= some < left then some else left;
      left := left - now;
      var r := DrainRound(db, cfg, now, s, served);
      if r.Err? {
        end := Failed;
        break;
      }
      if !r.value {
        end := Emptied;
        break;
      }
      served := served + 1;
    }
    if end == Emptied {
      EmptyMeansFresh(cfg, db.Contents());
    }
  }

  // Left to itself - nothing cancelled, nothing failing, no other transaction - drain serves every job and
  // leaves every user's tracks fresh.
  method DrainAlone(db: DB, cfg: Config) returns (served: nat)
    requires db.Valid() && db.begun.None? && cfg.zone.Valid()
    requires forall k: nat :: !db.faulty(k)
    modifies db
    ensures db.Valid() && db.begun.None?
    ensures served == |old(db.queue).jobs| && db.queue.jobs == []
    ensures db.Contents() == Drained(cfg, old(db.Contents()), served)
    ensures TracksAccounted(cfg, old(db.Contents())) ==> forall u :: Fresh(cfg, db.Contents(), u)
  {
    var end;
    served, end := Drain(db, cfg, 0, k => false);
  }

  lemma EmptyMeansFresh(cfg: Config, s: Tables)
    requires s.queue.jobs == []
    ensures TracksAccounted(cfg, s) ==> forall u :: Fresh(cfg, s, u)
  {
    if TracksAccounted(cfg, s) {
      forall u
        ensures Fresh(cfg, s, u)
      {
        assert FreshOrPending(cfg, s, u);
      }
    }
  }

  // Interference between two transactions of a command keeps whatever the command has achieved.
  method Interleave(db: DB, cfg: Config, concurrent: bool, ghost at: Phase)
    requires db.Valid() && db.begun.None? && cfg.zone.Valid()
    modifies db
    ensures old(db.statements) <= db.statements
    ensures db.Valid() && db.begun.None?
    ensures !concurrent ==> db.Contents() == old(db.Contents())
    ensures DailyProgress(cfg, old(db.Contents()), at) ==> DailyProgress(cfg, db.Contents(), at)
    ensures TracksProgress(cfg, old(db.Contents()), at) ==> TracksProgress(cfg, db.Contents(), at)
  {
    if concurrent {
      var n: nat := *;
      ghost var states, events := OtherTransactions(db, cfg, n);
      RunKeepsProgress(cfg, states, events, n, at);
    }
  }

  // daily_stats while a user's days are being rebuilt: those of the first n points are done.
  ghost predicate PartlyRebuilt(cfg: Config, h: seq<Point>, user: int, n: nat,
                                daily: map<DayKey, DailyStat>, daily2: map<DayKey, DailyStat>)
    requires n <= |h|
  {
    forall u, d :: StoredRow(daily2, u, d) ==
      if u == user && HasPointOn(cfg, h[..n], d) then DayRow(cfg, h, d) else StoredRow(daily, u, d)
  }

  lemma OnePointMore(cfg: Config, h: seq<Point>, n: nat, d: int)
    requires n < |h|
    ensures HasPointOn(cfg, h[..n + 1], d) <==> HasPointOn(cfg, h[..n], d) || cfg.zone.dayOf(h[n].ts) == d
  {
    if HasPointOn(cfg, h[..n], d) {
      var i :| 0 <= i < n && cfg.zone.dayOf(h[..n][i].ts) == d;
      assert h[..n + 1][i] == h[i];
    }
    if HasPointOn(cfg, h[..n + 1], d) {
      var i :| 0 <= i < n + 1 && cfg.zone.dayOf(h[..n + 1][i].ts) == d;
      assert i < n ==> h[..n][i] == h[i];
    }
    assert h[..n + 1][n] == h[n];
  }

  lemma RebuiltOneMore(cfg: Config, h: seq<Point>, user: int, n: nat,
                       daily: map<DayKey, DailyStat>, daily2: map<DayKey, DailyStat>)
    requires n < |h| && PartlyRebuilt(cfg, h, user, n, daily, daily2)
    ensures var day := cfg.zone.dayOf(h[n].ts);
            && (HasPointOn(cfg, h[..n], day) ==> PartlyRebuilt(cfg, h, user, n + 1, daily, daily2))
            && PartlyRebuilt(cfg, h, user, n + 1, daily, PutRow(daily2, user, day, DayRow(cfg, h, day)))
  {
    var day := cfg.zone.dayOf(h[n].ts);
    PutRowStores(daily2, user, day, DayRow(cfg, h, day));
    forall d ensures HasPointOn(cfg, h[..n + 1], d) <==> HasPointOn(cfg, h[..n], d) || day == d {
      OnePointMore(cfg, h, n, d);
    }
  }

  ghost predicate IsDayOf(cfg: Config, h: seq<Point>, i: nat, day: int)
    requires i < |h|
  {
    day == cfg.zone.dayOf(h[i].ts)
  }

  // recalculateUser: a day is rebuilt where the ascending timestamps move on to it.
  method RecalculateUser(db: DB, cfg: Config, user: int) returns (r: Result<()>)
    requires db.Valid() && cfg.zone.Valid()
    modifies db`daily, db`statements
    ensures old(db.statements) <= db.statements && (r.Err? ==> db.FaultSince(old(db.statements)))
    ensures r.Ok? ==> DailyRebuiltFor(cfg, old(db.Contents()), user, db.Contents())
  {
    ghost var h := History(db.points, user);
    var timestamps := db.Timestamps(user);
    if timestamps.Err? {
      return Err(timestamps.error);
    }
    var lastDay := 0;
    for i := 0 to |timestamps.value|
      invariant db.Valid() && old(db.statements) <= db.statements
      invariant PartlyRebuilt(cfg, h, user, i, old(db.daily), db.daily)
      invariant i > 0 ==> IsDayOf(cfg, h, i - 1, lastDay)
    {
      assert timestamps.value[i] == h[i].ts;
      var day := cfg.zone.dayOf(timestamps.value[i]);
      RebuiltOneMore(cfg, h, user, i, old(db.daily), db.daily);
      if i > 0 && day == lastDay {
        LastDayDone(cfg, h, i);
      } else {
        r := db.Rebuild(cfg, user, day);
        if r.Err? {
          return;
        }
        lastDay := day;
      }
    }
    AllRebuilt(cfg, old(db.Contents()), user, db.Contents());
    r := Ok(());
  }

  lemma LastDayDone(cfg: Config, h: seq<Point>, n: nat)
    requires 0 < n <= |h|
    ensures HasPointOn(cfg, h[..n], cfg.zone.dayOf(h[n - 1].ts))
  {
    assert h[..n][n - 1] == h[n - 1];
  }

  lemma AllRebuilt(cfg: Config, s: Tables, user: int, s2: Tables)
    requires s2 == s.(daily := s2.daily)
    requires var h := History(s.points, user); PartlyRebuilt(cfg, h, user, |h|, s.daily, s2.daily)
    ensures DailyRebuiltFor(cfg, s, user, s2)
  {
    var h := History(s.points, user);
    assert h[..|h|] == h;
  }

  // Recalculate: wipe, list the users, then one transaction per user, with others' transactions in
  // between. `at` is how far it got.
  method Recalculate(db: DB, cfg: Config, concurrent: bool) returns (r: Result<()>, at: Phase)
    requires db.Valid() && db.begun.None? && cfg.zone.Valid()
    modifies db
    ensures old(db.statements) <= db.statements && (r.Err? ==> db.FaultSince(old(db.statements)))
    ensures db.Valid() && db.begun.None?
    ensures DailyProgress(cfg, db.Contents(), at)
    ensures at != Start ==> DailySound(cfg, db.Contents())
    ensures at == Start ==> r.Err? && db.Contents() == old(db.Contents())
    ensures r.Ok? ==> at == DailyTodo([]) && DailyCorrect(cfg, db.Contents())
  {
    at := Start;
    r := WipeDaily(db);
    if r.Err? {
      return;
    }
    WipeIsSound(cfg, old(db.Contents()));
    at := Wiped;
    Interleave(db, cfg, concurrent, at);
    var listed := db.UserIDs();
    if listed.Err? {
      return Err(listed.error), at;
    }
    var users := listed.value;
    DailyListedStep(cfg, db.Contents(), users);
    at := DailyTodo(users);
    while users != []
      invariant db.Valid() && db.begun.None? && old(db.statements) <= db.statements
      invariant at == DailyTodo(users) && DailyProgress(cfg, db.Contents(), at)
      decreases |users|
    {
      Interleave(db, cfg, concurrent, at);
      ghost var s := db.Contents();
      r := RecalculateUserTx(db, cfg, users[0]);
      if r.Err? {
        return;
      }
      DailyTodoStep(cfg, s, users, db.Contents());
      users := users[1..];
      at := DailyTodo(users);
    }
    Interleave(db, cfg, concurrent, at);
    DailyDone(cfg, db.Contents());
    r := Ok(());
  }

  method WipeDaily(db: DB) returns (r: Result<()>)
    requires db.Valid() && db.begun.None?
    modifies db
    ensures old(db.statements) <= db.statements && (r.Err? ==> db.FaultSince(old(db.statements)))
    ensures db.Valid() && db.begun.None?
    ensures db.Contents() == if r.Ok? then old(db.Contents()).(daily := map[]) else old(db.Contents())
  {
    var began := db.Begin();
    if began.Err? {
      return Err(began.error);
    }
    r := db.DeleteAll();
    var committed := db.End(began.value, r.Err?);
    if !committed && r.Ok? {
      r := Err(StoreFailure);
    }
  }

  method RecalculateUserTx(db: DB, cfg: Config, user: int) returns (r: Result<()>)
    requires db.Valid() && db.begun.None? && cfg.zone.Valid()
    modifies db
    ensures old(db.statements) <= db.statements && (r.Err? ==> db.FaultSince(old(db.statements)))
    ensures db.Valid() && db.begun.None?
    ensures r.Ok? ==> DailyRebuiltFor(cfg, old(db.Contents()), user, db.Contents())
    ensures r.Err? ==> db.Contents() == old(db.Contents())
  {
    var began := db.Begin();
    if began.Err? {
      return Err(began.error);
    }
    r := RecalculateUser(db, cfg, user);
    var committed := db.End(began.value, r.Err?);
    if !committed && r.Ok? {
      r := Err(StoreFailure);
    }
  }

  // RecalculateAll: every user that has points, each in its own transaction.
  method RecalculateAll(db: DB, cfg: Config, concurrent: bool) returns (r: Result<()>)
    requires db.Valid() && db.begun.None? && cfg.zone.Valid()
    modifies db
    ensures old(db.statements) <= db.statements && (r.Err? ==> db.FaultSince(old(db.statements)))
    ensures db.Valid() && db.begun.None?
    ensures r.Ok? && (forall u :: PointlessClear(old(db.Contents()), u)) ==> TracksAccounted(cfg, db.Contents())
    ensures r.Ok? && !concurrent ==> AllTracksRebuilt(cfg, old(db.Contents()), db.Contents())
  {
    ghost var s0 := db.Contents();
    ghost var clear := forall u :: PointlessClear(s0, u);
    Interleave(db, cfg, concurrent, Start);
    var listed := db.UserIDs();
    if listed.Err? {
      return Err(listed.error);
    }
    var users := listed.value;
    if clear {
      TracksListedStep(cfg, db.Contents(), Start, users);
    }
    if !concurrent {
      NoneRebuiltYet(cfg, s0, users);
    }
    while users != []
      invariant db.Valid() && db.begun.None? && old(db.statements) <= db.statements
      invariant clear ==> TracksProgress(cfg, db.Contents(), TracksTodo(users))
      invariant !concurrent ==> SomeTracksRebuilt(cfg, s0, users, db.Contents())
      decreases |users|
    {
      Interleave(db, cfg, concurrent, TracksTodo(users));
      ghost var s := db.Contents();
      r := RebuildUser(db, cfg, users[0]);
      if r.Err? {
        return;
      }
      if clear {
        TracksTodoStep(cfg, s, users);
      }
      if !concurrent {
        SomeMoreRebuilt(cfg, s0, users, s);
      }
      users := users[1..];
    }
    if !concurrent {
      NoneLeft(cfg, s0, db.Contents());
    }
    r := Ok(());
  }

  ghost predicate SomeTracksRebuilt(cfg: Config, s: Tables, todo: seq<int>, s2: Tables) {
    && s2 == s.(tracks := s2.tracks)
    && Increasing(todo)
    && forall u :: SomeRebuilt(cfg, s, todo, s2, u)
  }

  // Whether this user's turn is still to come, or past, or never comes.
  ghost predicate SomeRebuilt(cfg: Config, s: Tables, todo: seq<int>, s2: Tables, user: int) {
    && (user in todo ==> History(s.points, user) != [])
    && StoredTracks(s2, user) ==
         if user in todo || History(s.points, user) == [] then StoredTracks(s, user)
         else TracksOf(cfg, History(s.points, user))
  }

  lemma NoneRebuiltYet(cfg: Config, s: Tables, users: seq<int>)
    requires ListsUsers(s.points, users) && Increasing(users)
    ensures SomeTracksRebuilt(cfg, s, users, s)
  {
    forall u
      ensures SomeRebuilt(cfg, s, users, s, u)
    {
    }
  }

  lemma NoneLeft(cfg: Config, s: Tables, s2: Tables)
    requires SomeTracksRebuilt(cfg, s, [], s2)
    ensures AllTracksRebuilt(cfg, s, s2)
  {
    forall u
      ensures StoredTracks(s2, u) ==
              if History(s.points, u) != [] then TracksOf(cfg, History(s.points, u)) else StoredTracks(s, u)
    {
      assert SomeRebuilt(cfg, s, [], s2, u);
    }
  }

  lemma SomeMoreRebuilt(cfg: Config, s: Tables, todo: seq<int>, s2: Tables)
    requires todo != [] && SomeTracksRebuilt(cfg, s, todo, s2)
    ensures SomeTracksRebuilt(cfg, s, todo[1..], WithTracks(cfg, s2, todo[0]))
  {
    forall u
      ensures SomeRebuilt(cfg, s, todo[1..], WithTracks(cfg, s2, todo[0]), u)
    {
      assert SomeRebuilt(cfg, s, todo, s2, u);
      HeadAndRest(todo, u);
    }
  }

  lemma HeadAndRest(todo: seq<int>, u: int)
    requires todo != [] && Increasing(todo)
    ensures Increasing(todo[1..])
    ensures u in todo <==> u == todo[0] || u in todo[1..]
    ensures u == todo[0] ==> u !in todo[1..]
  {
  }
}
