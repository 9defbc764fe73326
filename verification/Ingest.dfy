// The ingest package: every mutation of a point, with the daily_stats days it owes and the track
// rebuild it requests, in one transaction.

module Ingest {
  import opened Options
  import opened Faults
  import opened Clock
  import opened Histories
  import opened DailyStats
  import opened TrackSplitting
  import opened Tables
  import opened Server
  import opened Store

  // The order rebuilds run in: by user, then by day.
  predicate Earlier(a: DayKey, b: DayKey) {
    a.user < b.user || (a.user == b.user && a.day < b.day)
  }

  ghost predicate InRebuildOrder(days: seq<DayKey>) {
    forall i, j :: 0 <= i < j < |days| ==> Earlier(days[i], days[j])
  }

  function InsertDay(days: seq<DayKey>, key: DayKey): (r: seq<DayKey>)
    ensures forall k :: k in r <==> k in days || k == key
  {
    if days == [] || Earlier(key, days[0]) then [key] + days else [days[0]] + InsertDay(days[1..], key)
  }

  lemma {:induction false} InsertedDayInOrder(days: seq<DayKey>, key: DayKey)
    requires InRebuildOrder(days) && key !in days
    ensures InRebuildOrder(InsertDay(days, key))
  {
    if days != [] && !Earlier(key, days[0]) {
      InsertedDayInOrder(days[1..], key);
      var rest := InsertDay(days[1..], key);
      assert forall i :: 0 <= i < |rest| ==> rest[i] in rest;
      assert Earlier(days[0], key);
    }
  }

  // sort.Slice, on keys that are all different.
  function SortDays(days: seq<DayKey>): (r: seq<DayKey>)
    ensures forall k :: k in r <==> k in days
  {
    if days == [] then [] else InsertDay(SortDays(days[1..]), days[0])
  }

  ghost predicate NoRepeats(days: seq<DayKey>) {
    forall i, j :: 0 <= i < j < |days| ==> days[i] != days[j]
  }

  lemma {:induction false} SortedDaysInOrder(days: seq<DayKey>)
    requires NoRepeats(days)
    ensures InRebuildOrder(SortDays(days))
  {
    if days != [] {
      SortedDaysInOrder(days[1..]);
      InsertedDayInOrder(SortDays(days[1..]), days[0]);
    }
  }

  function KeyOf(zone: Zone, t: Touch): DayKey
    requires zone.Valid()
  {
    DayKey(t.user, zone.LocalDay(t.at))
  }

  function KeysOf(zone: Zone, touched: seq<Touch>): (keys: seq<DayKey>)
    requires zone.Valid()
    ensures |keys| == |touched|
    ensures forall i :: 0 <= i < |touched| ==> keys[i] == KeyOf(zone, touched[i])
  {
    seq(|touched|, i requires 0 <= i < |touched| => KeyOf(zone, touched[i]))
  }

  // latest holds, for every day the first n touches fall on, the latest of those on it.
  ghost predicate LatestOf(keys: seq<DayKey>, touched: seq<Touch>, n: nat, latest: map<DayKey, int>)
    requires n <= |touched| == |keys|
  {
    && (forall j :: 0 <= j < n ==> keys[j] in latest && touched[j].at <= latest[keys[j]])
    && (forall k :: k in latest ==> exists j :: 0 <= j < n && keys[j] == k && touched[j].at == latest[k])
  }

  // A user's day is owed a rebuild.
  ghost predicate OwedDay(zone: Zone, points: map<int, seq<Point>>, touched: seq<Touch>, k: DayKey)
    requires Sorted(History(points, k.user))
  {
    Owed(zone, History(points, k.user), TouchedTimes(touched, k.user), k.day)
  }

  lemma LatestIsTouch(zone: Zone, touched: seq<Touch>, latest: map<DayKey, int>, k: DayKey)
    requires zone.Valid() && LatestOf(KeysOf(zone, touched), touched, |touched|, latest) && k in latest
    ensures var t := Unix(latest[k]);
            zone.dayOf(t) == k.day && LatestTouch(zone, TouchedTimes(touched, k.user), t)
  {
    var t := Unix(latest[k]);
    var times := TouchedTimes(touched, k.user);
    forall t2 | t2 in times && zone.dayOf(t2) == k.day ensures t2 <= t {
      var j :| 0 <= j < |touched| && touched[j].user == k.user && Unix(touched[j].at) == t2;
      assert KeyOf(zone, touched[j]) == k;
      UnixMonotone(touched[j].at, latest[k]);
    }
  }

  // What affectedDays adds to its list for one touched day.
  ghost predicate CoversDay(zone: Zone, points: map<int, seq<Point>>, latest: map<DayKey, int>, k: DayKey,
                            days: seq<DayKey>)
    requires k in latest && Sorted(History(points, k.user))
  {
    && k in days
    && var next := Next(History(points, k.user), Unix(latest[k]));
       next.Some? ==> DayKey(k.user, zone.dayOf(next.value.ts)) in days
  }

  ghost predicate AllCovered(zone: Zone, points: map<int, seq<Point>>, latest: map<DayKey, int>, days: seq<DayKey>)
    requires forall u :: Sorted(History(points, u))
  {
    forall k :: k in latest ==> CoversDay(zone, points, latest, k, days)
  }

  lemma TouchOnDay(zone: Zone, touched: seq<Touch>, latest: map<DayKey, int>, user: int, t: int)
    requires zone.Valid() && LatestOf(KeysOf(zone, touched), touched, |touched|, latest)
    requires t in TouchedTimes(touched, user)
    ensures DayKey(user, zone.dayOf(t)) in latest
  {
    var j :| 0 <= j < |touched| && touched[j].user == user && Unix(touched[j].at) == t;
    assert KeyOf(zone, touched[j]) == DayKey(user, zone.dayOf(t));
  }

  lemma CoveredMeansListed(zone: Zone, points: map<int, seq<Point>>, touched: seq<Touch>, latest: map<DayKey, int>,
                           days: seq<DayKey>, k: DayKey)
    requires zone.Valid() && LatestOf(KeysOf(zone, touched), touched, |touched|, latest)
    requires forall u :: Sorted(History(points, u))
    requires AllCovered(zone, points, latest, days)
    requires OwedDay(zone, points, touched, k)
    ensures k in days
  {
    var h, times := History(points, k.user), TouchedTimes(touched, k.user);
    if t :| t in times && zone.dayOf(t) == k.day {
      TouchOnDay(zone, touched, latest, k.user, t);
      assert CoversDay(zone, points, latest, k, days);
    } else {
      var t :| LatestTouch(zone, times, t) && Next(h, t).Some? && zone.dayOf(Next(h, t).value.ts) == k.day;
      var key := DayKey(k.user, zone.dayOf(t));
      TouchOnDay(zone, touched, latest, k.user, t);
      LatestIsTouch(zone, touched, latest, key);
      assert Unix(latest[key]) == t;
      assert CoversDay(zone, points, latest, key, days);
    }
  }

  lemma SpillIsOwed(zone: Zone, points: map<int, seq<Point>>, touched: seq<Touch>, latest: map<DayKey, int>, k: DayKey)
    requires zone.Valid() && LatestOf(KeysOf(zone, touched), touched, |touched|, latest) && k in latest
    requires Sorted(History(points, k.user))
    ensures OwedDay(zone, points, touched, k)
    ensures var next := Next(History(points, k.user), Unix(latest[k]));
            next.Some? ==> OwedDay(zone, points, touched, DayKey(k.user, zone.dayOf(next.value.ts)))
  {
    LatestIsTouch(zone, touched, latest, k);
  }

  ghost predicate CoveredUpTo(zone: Zone, points: map<int, seq<Point>>, latest: map<DayKey, int>,
                              order: seq<DayKey>, n: nat, days: seq<DayKey>)
    requires n <= |order| && forall k :: k in order ==> k in latest
    requires forall u :: Sorted(History(points, u))
  {
    forall m :: 0 <= m < n ==> CoversDay(zone, points, latest, order[m], days)
  }

  lemma CoversOneMore(zone: Zone, points: map<int, seq<Point>>, latest: map<DayKey, int>,
                      order: seq<DayKey>, n: nat, before: seq<DayKey>, days: seq<DayKey>)
    requires n < |order| && forall k :: k in order ==> k in latest
    requires forall u :: Sorted(History(points, u))
    requires CoveredUpTo(zone, points, latest, order, n, before)
    requires AllIn(before, days)
    requires CoversDay(zone, points, latest, order[n], days)
    ensures CoveredUpTo(zone, points, latest, order, n + 1, days)
  {
  }

  lemma LatestStep(keys: seq<DayKey>, touched: seq<Touch>, n: nat, latest: map<DayKey, int>)
    requires n < |touched| == |keys| && LatestOf(keys, touched, n, latest)
    ensures keys[n] in latest && touched[n].at <= latest[keys[n]] ==> LatestOf(keys, touched, n + 1, latest)
    ensures keys[n] !in latest || touched[n].at > latest[keys[n]] ==>
              LatestOf(keys, touched, n + 1, latest[keys[n] := touched[n].at])
  {
    if keys[n] !in latest || touched[n].at > latest[keys[n]] {
      var next := latest[keys[n] := touched[n].at];
      forall k | k in next ensures exists j :: 0 <= j < n + 1 && keys[j] == k && touched[j].at == next[k] {
        if k != keys[n] {
          var j :| 0 <= j < n && keys[j] == k && touched[j].at == latest[k];
        }
      }
    }
  }

  // order lists the days of latest, each once.
  ghost predicate Orders(latest: map<DayKey, int>, order: seq<DayKey>) {
    NoRepeats(order) && forall k :: k in latest <==> k in order
  }

  lemma OrdersMore(latest: map<DayKey, int>, order: seq<DayKey>, key: DayKey, at: int)
    requires Orders(latest, order)
    ensures Orders(latest[key := at], if key in latest then order else order + [key])
  {
  }

  // The first loop of affectedDays: each touched day once, in the order first touched, with its
  // latest touch.
  method LatestTouches(zone: Zone, touched: seq<Touch>) returns (latest: map<DayKey, int>, order: seq<DayKey>)
    requires zone.Valid()
    ensures LatestOf(KeysOf(zone, touched), touched, |touched|, latest)
    ensures Orders(latest, order)
  {
    latest, order := map[], [];
    ghost var keys := KeysOf(zone, touched);
    for i := 0 to |touched|
      invariant LatestOf(keys, touched, i, latest)
      invariant Orders(latest, order)
    {
      LatestStep(keys, touched, i, latest);
      var key := KeyOf(zone, touched[i]);
      assert key == keys[i];
      OrdersMore(latest, order, key, touched[i].at);
      var first := key !in latest;
      if first {
        order := order + [key];
      }
      if first || touched[i].at > latest[key] {
        latest := latest[key := touched[i].at];
      }
    }
  }

  lemma AllSorted(points: map<int, seq<Point>>, nextPoint: nat)
    requires GoodPoints(points, nextPoint)
    ensures forall u :: Sorted(History(points, u))
  {
  }

  // affectedDays: exactly the owed days, sorted, each once.
  method AffectedDays(db: DB, zone: Zone, touched: seq<Touch>) returns (r: Result<seq<DayKey>>)
    requires db.Valid() && zone.Valid()
    modifies db`statements
    ensures old(db.statements) <= db.statements
    ensures r.Err? ==> r.error == StoreFailure && db.FaultSince(old(db.statements))
    ensures forall u :: Sorted(History(db.points, u))
    ensures r.Ok? ==> InRebuildOrder(r.value)
    ensures r.Ok? ==> forall k :: k in r.value <==> OwedDay(zone, db.points, touched, k)
  {
    AllSorted(db.points, db.nextPoint);
    var latest, order := LatestTouches(zone, touched);
    var days: seq<DayKey> := [];
    for i := 0 to |order|
      invariant old(db.statements) <= db.statements && NoRepeats(days)
      invariant AllOwed(zone, db.points, touched, days)
      invariant CoveredUpTo(zone, db.points, latest, order, i, days)
    {
      var more := CoverDay(db, zone, latest, order[i], days);
      if more.Err? {
        return more;
      }
      CoveredIsOwed(zone, db.points, touched, latest, order[i], days);
      CoversOneMore(zone, db.points, latest, order, i, days, more.value);
      days := more.value;
    }
    AllListed(zone, db.points, touched, latest, order, days);
    SortedDaysInOrder(days);
    r := Ok(SortDays(days));
  }

  lemma AllListed(zone: Zone, points: map<int, seq<Point>>, touched: seq<Touch>, latest: map<DayKey, int>,
                  order: seq<DayKey>, days: seq<DayKey>)
    requires zone.Valid() && LatestOf(KeysOf(zone, touched), touched, |touched|, latest)
    requires forall u :: Sorted(History(points, u))
    requires forall k :: k in latest <==> k in order
    requires CoveredUpTo(zone, points, latest, order, |order|, days)
    ensures forall k :: OwedDay(zone, points, touched, k) ==> k in days
  {
    forall k | OwedDay(zone, points, touched, k) ensures k in days {
      CoveredMeansListed(zone, points, touched, latest, days, k);
    }
  }

  ghost predicate AllOwed(zone: Zone, points: map<int, seq<Point>>, touched: seq<Touch>, days: seq<DayKey>)
    requires forall u :: Sorted(History(points, u))
  {
    forall k :: k in days ==> OwedDay(zone, points, touched, k)
  }

  lemma OwedAdded(zone: Zone, points: map<int, seq<Point>>, touched: seq<Touch>, days: seq<DayKey>, key: DayKey)
    requires forall u :: Sorted(History(points, u))
    requires NoRepeats(days) && AllOwed(zone, points, touched, days) && OwedDay(zone, points, touched, key)
    ensures var more := AddDay(days, key);
            && NoRepeats(more) && AllOwed(zone, points, touched, more) && AllIn(days, more) && key in more
  {
  }

  ghost predicate AllIn(days: seq<DayKey>, more: seq<DayKey>) {
    forall d :: d in days ==> d in more
  }

  // One round of the second loop: a touched day, and the day of the point now following its latest
  // touch.
  method CoverDay(db: DB, zone: Zone, latest: map<DayKey, int>, key: DayKey, days: seq<DayKey>)
    returns (r: Result<seq<DayKey>>)
    requires db.Valid() && key in latest && Sorted(History(db.points, key.user))
    modifies db`statements
    ensures old(db.statements) <= db.statements
    ensures r.Err? ==> r.error == StoreFailure && db.FaultSince(old(db.statements))
    ensures r.Ok? ==> r.value == Covered(zone, db.points, latest, key, days)
  {
    r := Ok(AddDay(days, key));
    var next := db.NextTimestamp(key.user, latest[key]);
    if next.Err? {
      return Err(next.error);
    }
    if next.value.Some? {
      r := Ok(AddDay(r.value, DayKey(key.user, zone.dayOf(next.value.value))));
    }
  }

  function Covered(zone: Zone, points: map<int, seq<Point>>, latest: map<DayKey, int>, key: DayKey,
                   days: seq<DayKey>): seq<DayKey>
    requires key in latest && Sorted(History(points, key.user))
  {
    match Next(History(points, key.user), Unix(latest[key]))
    case None => AddDay(days, key)
    case Some(p) => AddDay(AddDay(days, key), DayKey(key.user, zone.dayOf(p.ts)))
  }

  lemma CoveredIsOwed(zone: Zone, points: map<int, seq<Point>>, touched: seq<Touch>, latest: map<DayKey, int>,
                      key: DayKey, days: seq<DayKey>)
    requires zone.Valid() && key in latest && LatestOf(KeysOf(zone, touched), touched, |touched|, latest)
    requires forall u :: Sorted(History(points, u))
    requires NoRepeats(days) && AllOwed(zone, points, touched, days)
    ensures var more := Covered(zone, points, latest, key, days);
            && NoRepeats(more) && AllOwed(zone, points, touched, more) && AllIn(days, more)
            && CoversDay(zone, points, latest, key, more)
  {
    SpillIsOwed(zone, points, touched, latest, key);
    OwedAdded(zone, points, touched, days, key);
    var first := AddDay(days, key);
    var next := Next(History(points, key.user), Unix(latest[key]));
    if next.Some? {
      var spill := DayKey(key.user, zone.dayOf(next.value.ts));
      OwedAdded(zone, points, touched, first, spill);
      StillIn(days, first, AddDay(first, spill));
      assert key in AddDay(first, spill);
    }
  }

  lemma StillIn(days: seq<DayKey>, more: seq<DayKey>, most: seq<DayKey>)
    requires AllIn(days, more) && AllIn(more, most)
    ensures AllIn(days, most)
  {
  }

  // The `add` closure: a day already seen is not added again.
  function AddDay(days: seq<DayKey>, key: DayKey): (r: seq<DayKey>)
    ensures forall k :: k in r <==> k in days || k == key
    ensures NoRepeats(days) ==> NoRepeats(r)
  {
    if key in days then days else days + [key]
  }

  lemma EnqueueAllSnoc(q: Queue, touched: seq<Touch>, t: Touch)
    ensures EnqueueAll(q, touched + [t]) == Enqueue(EnqueueAll(q, touched), t.user)
  {
    assert (touched + [t])[..|touched|] == touched;
  }

  // enqueueTrackRebuilds: one request per distinct user, which is the same as one per touch.
  method EnqueueTrackRebuilds(db: DB, touched: seq<Touch>) returns (r: Result<()>)
    requires db.Valid()
    modifies db`queue, db`statements
    ensures db.Valid()
    ensures old(db.statements) <= db.statements
    ensures r.Err? ==> r.error == StoreFailure && db.FaultSince(old(db.statements))
    ensures r.Ok? ==> db.queue == EnqueueAll(old(db.queue), touched)
  {
    var seen: set<int> := {};
    for i := 0 to |touched|
      invariant db.Valid() && old(db.statements) <= db.statements
      invariant db.queue == EnqueueAll(old(db.queue), touched[..i])
      invariant forall u :: u in seen ==> Pending(db.queue, u)
    {
      assert touched[..i + 1] == touched[..i] + [touched[i]];
      EnqueueAllSnoc(old(db.queue), touched[..i], touched[i]);
      var user := touched[i].user;
      if user !in seen {
        seen := seen + {user};
        var enqueued := db.EnqueueRebuild(user);
        if enqueued.Err? {
          return enqueued;
        }
      }
    }
    assert touched[..|touched|] == touched;
    r := Ok(());
  }

  ghost predicate Rebuilds(cfg: Config, points: map<int, seq<Point>>, daily: map<DayKey, DailyStat>,
                           days: seq<DayKey>, daily2: map<DayKey, DailyStat>)
  {
    forall u, d :: StoredRow(daily2, u, d) ==
      if DayKey(u, d) in days then DayRow(cfg, History(points, u), d) else StoredRow(daily, u, d)
  }

  lemma RebuildsOneMore(cfg: Config, points: map<int, seq<Point>>, daily: map<DayKey, DailyStat>,
                        days: seq<DayKey>, daily2: map<DayKey, DailyStat>, k: DayKey)
    requires Rebuilds(cfg, points, daily, days, daily2)
    ensures Rebuilds(cfg, points, daily, days + [k],
                     PutRow(daily2, k.user, k.day, DayRow(cfg, History(points, k.user), k.day)))
  {
    PutRowStores(daily2, k.user, k.day, DayRow(cfg, History(points, k.user), k.day));
  }

  // rebuildAffectedDays: the second half of every mutation.
  method RebuildAffectedDays(db: DB, cfg: Config, ghost c: Change, touched: seq<Touch>) returns (r: Result<()>)
    requires db.Valid() && cfg.zone.Valid()
    requires c == Change(db.points, db.nextPoint, touched)
    modifies db`daily, db`queue, db`statements
    ensures db.Valid()
    ensures old(db.statements) <= db.statements
    ensures r.Err? ==> r.error == StoreFailure && db.FaultSince(old(db.statements))
    ensures r.Ok? ==> OwedRebuilt(cfg, old(db.daily), c, db.daily)
    ensures r.Ok? ==> db.queue == EnqueueAll(old(db.queue), touched)
  {
    var days := AffectedDays(db, cfg.zone, touched);
    if days.Err? {
      return Err(days.error);
    }
    for i := 0 to |days.value|
      invariant db.Valid() && db.queue == old(db.queue) && old(db.statements) <= db.statements
      invariant Rebuilds(cfg, db.points, old(db.daily), days.value[..i], db.daily)
    {
      var k := days.value[i];
      RebuildsOneMore(cfg, db.points, old(db.daily), days.value[..i], db.daily, k);
      assert days.value[..i + 1] == days.value[..i] + [k];
      var rebuilt := db.Rebuild(cfg, k.user, k.day);
      if rebuilt.Err? {
        return rebuilt;
      }
    }
    assert days.value[..|days.value|] == days.value;
    RebuiltWhatIsOwed(cfg, c, old(db.daily), days.value, db.daily);
    r := EnqueueTrackRebuilds(db, touched);
  }

  lemma RebuiltWhatIsOwed(cfg: Config, c: Change, daily: map<DayKey, DailyStat>, days: seq<DayKey>,
                          daily2: map<DayKey, DailyStat>)
    requires GoodPoints(c.points, c.nextPoint)
    requires forall u :: Sorted(History(c.points, u))
    requires forall k :: k in days <==> OwedDay(cfg.zone, c.points, c.touched, k)
    requires Rebuilds(cfg, c.points, daily, days, daily2)
    ensures OwedRebuilt(cfg, daily, c, daily2)
  {
    forall u, d
      ensures DayKey(u, d) in days <==> Owed(cfg.zone, History(c.points, u), TouchedTimes(c.touched, u), d)
    {
      assert DayKey(u, d) in days <==> OwedDay(cfg.zone, c.points, c.touched, DayKey(u, d));
    }
  }

  // A mutation's statement and what rebuildAffectedDays did after it make one commit.
  lemma MakesCommit(cfg: Config, s: Tables, m: Mutation, c: Change, s2: Tables)
    requires WellFormed(s) && Apply(s.points, s.nextPoint, m) == Some(c)
    requires s2 == Tables(c.points, c.nextPoint, s2.daily, s.tracks, EnqueueAll(s.queue, c.touched))
    requires OwedRebuilt(cfg, s.daily, c, s2.daily)
    ensures Committed(cfg, s, m, s2)
  {
  }

  // The rest of every mutation's transaction, once its statement has changed the points: the rebuild, and
  // the end of the transaction that began with the tables s.
  method FinishMutation(db: DB, cfg: Config, outermost: bool, ghost s: Tables, ghost m: Mutation, touched: seq<Touch>)
      returns (r: Result<()>)
    requires db.Valid() && db.begun == Some(s) && outermost && cfg.zone.Valid()
    requires Apply(s.points, s.nextPoint, m) == Some(Change(db.points, db.nextPoint, touched))
    requires db.Contents() == s.(points := db.points, nextPoint := db.nextPoint)
    modifies db
    ensures db.Valid() && db.begun.None?
    ensures old(db.statements) <= db.statements
    ensures r.Err? ==> r.error == StoreFailure && db.FaultSince(old(db.statements))
    ensures r.Err? ==> db.Contents() == s
    ensures r.Ok? ==> Committed(cfg, s, m, db.Contents())
    ensures r.Ok? ==> db.points == old(db.points) && db.nextPoint == old(db.nextPoint)
  {
    ghost var c := Change(db.points, db.nextPoint, touched);
    r := RebuildAffectedDays(db, cfg, c, touched);
    if r.Ok? {
      MakesCommit(cfg, s, m, c, db.Contents());
    }
    var committed := db.End(outermost, r.Err?);
    if !committed && r.Ok? {
      r := Err(StoreFailure);
    }
  }

  // CreatePoints: the number of points actually inserted.
  method CreatePoints(db: DB, cfg: Config, batch: seq<NewPoint>) returns (r: Result<nat>)
    requires db.Valid() && db.begun.None? && cfg.zone.Valid()
    modifies db
    ensures db.Valid() && db.begun.None?
    ensures old(db.statements) <= db.statements
    ensures r.Err? ==> r.error == StoreFailure && db.FaultSince(old(db.statements))
    ensures r.Err? ==> db.Contents() == old(db.Contents())
    ensures r.Ok? ==> Committed(cfg, old(db.Contents()), Mutation.Create(batch), db.Contents())
    ensures r.Ok? ==> Inserted(old(db.points), batch, db.points) && r.value == |FreeSlots(old(db.points), batch)|
  {
    var began := db.Begin();
    if began.Err? {
      return Err(began.error);
    }
    r := db.Create(batch);
    if r.Err? {
      var _ := db.End(began.value, true);
      return;
    }
    var rest := FinishMutation(db, cfg, began.value, old(db.Contents()), Mutation.Create(batch), TouchesOf(batch));
    if rest.Err? {
      r := Err(rest.error);
    }
  }

  // UpdatePoint: new coordinates for one of the user's points. Its timestamp never changes.
  method UpdatePoint(db: DB, cfg: Config, user: int, id: int, coord: Coord) returns (r: Result<Point>)
    requires db.Valid() && db.begun.None? && cfg.zone.Valid()
    modifies db
    ensures db.Valid() && db.begun.None?
    ensures old(db.statements) <= db.statements && (r == Err(StoreFailure) ==> db.FaultSince(old(db.statements)))
    ensures r.Err? ==> db.Contents() == old(db.Contents())
    ensures r == Err(NotFound) ==> Find(History(db.points, user), id).None?
    ensures r.Ok? ==> Committed(cfg, old(db.Contents()), Mutation.Update(user, id, coord), db.Contents())
    ensures r.Ok? ==> r.value in History(db.points, user) && r.value.id == id && r.value.at == coord
    ensures r.Ok? ==> Moved(old(db.points), user, id, coord, db.points)
  {
    var began := db.Begin();
    if began.Err? {
      return Err(began.error);
    }
    r := db.Update(user, id, coord);
    if r.Err? {
      var _ := db.End(began.value, true);
      return;
    }
    UpdatedIsStored(old(History(db.points, user)), id, coord);
    UpdateMoves(old(db.points), old(db.nextPoint), user, id, coord);
    var touched := Stamps(user, [r.value.ts]);
    var rest := FinishMutation(db, cfg, began.value, old(db.Contents()), Mutation.Update(user, id, coord), touched);
    if rest.Err? {
      r := Err(rest.error);
    }
  }

  lemma UpdatedIsStored(h: seq<Point>, id: int, coord: Coord)
    requires Find(h, id).Some?
    ensures Point(id, Find(h, id).value.ts, coord) in Move(h, id, coord)
  {
    FindFinds(h, id);
    var i :| 0 <= i < |h| && h[i] == Find(h, id).value;
    assert Move(h, id, coord)[i] == Point(id, h[i].ts, coord);
  }

  // DeletePoint.
  method DeletePoint(db: DB, cfg: Config, user: int, id: int) returns (r: Result<()>)
    requires db.Valid() && db.begun.None? && cfg.zone.Valid()
    modifies db
    ensures db.Valid() && db.begun.None?
    ensures old(db.statements) <= db.statements && (r == Err(StoreFailure) ==> db.FaultSince(old(db.statements)))
    ensures r.Err? ==> db.Contents() == old(db.Contents())
    ensures r == Err(NotFound) ==> Find(History(db.points, user), id).None?
    ensures r.Ok? ==> Committed(cfg, old(db.Contents()), Mutation.Delete(user, id), db.Contents())
    ensures r.Ok? ==> Deleted(old(db.points), user, [id], db.points)
  {
    var began := db.Begin();
    if began.Err? {
      return Err(began.error);
    }
    var deleted := db.Delete(user, id);
    if deleted.Err? {
      var _ := db.End(began.value, true);
      return Err(deleted.error);
    }
    DeletionOfOne(old(db.points), old(db.nextPoint), user, id);
    var touched := Stamps(user, [deleted.value]);
    r := FinishMutation(db, cfg, began.value, old(db.Contents()), Mutation.Delete(user, id), touched);
  }

  method StampAll(user: int, times: seq<int>) returns (touched: seq<Touch>)
    ensures touched == Stamps(user, times)
  {
    touched := [];
    for i := 0 to |times|
      invariant touched == Stamps(user, times[..i])
    {
      touched := touched + [Touch(user, times[i] * SECOND)];
    }
    assert times[..|times|] == times;
  }

  // DeletePoints: the number of points actually deleted; unknown ids are skipped.
  method DeletePoints(db: DB, cfg: Config, user: int, ids: seq<int>) returns (r: Result<nat>)
    requires db.Valid() && db.begun.None? && cfg.zone.Valid()
    modifies db
    ensures db.Valid() && db.begun.None?
    ensures old(db.statements) <= db.statements
    ensures r.Err? ==> r.error == StoreFailure && db.FaultSince(old(db.statements))
    ensures r.Err? ==> db.Contents() == old(db.Contents())
    ensures r.Ok? ==> Committed(cfg, old(db.Contents()), Mutation.DeleteBulk(user, ids), db.Contents())
    ensures r.Ok? ==> Deleted(old(db.points), user, ids, db.points)
    ensures r.Ok? ==> r.value == |old(History(db.points, user))| - |History(db.points, user)|
  {
    var began := db.Begin();
    if began.Err? {
      return Err(began.error);
    }
    var deleted := db.DeleteBulk(user, ids);
    if deleted.Err? {
      var _ := db.End(began.value, true);
      return Err(deleted.error);
    }
    r := Ok(|deleted.value|);
    DeletionDeletes(old(db.points), old(db.nextPoint), user, ids);
    var touched := StampAll(user, deleted.value);
    assert ids == [] ==> touched == [];
    var rest := FinishMutation(db, cfg, began.value, old(db.Contents()), Mutation.DeleteBulk(user, ids), touched);
    if rest.Err? {
      r := Err(rest.error);
    }
  }
}
