// The database's tables as values, and what each mutation of a point does to them.

module Tables {
  import opened Options
  import opened Ordering
  import opened Clock
  import opened Histories
  import opened DailyStats
  import opened TrackSplitting

  // The primary key of daily_stats.
  datatype DayKey = DayKey(user: int, day: int)

  // A row of track_split_jobs; rows are kept in id order.
  datatype Job = Job(id: nat, user: int)

  datatype Queue = Queue(jobs: seq<Job>, nextId: nat)

  datatype Tables = Tables(
    points: map<int, seq<Point>>,
    nextPoint: nat,
    daily: map<DayKey, DailyStat>,
    tracks: map<int, seq<Track>>,
    queue: Queue)

  const EMPTY := Tables(map[], 1, map[], map[], Queue([], 1))

  function History(points: map<int, seq<Point>>, user: int): seq<Point> {
    if user in points then points[user] else []
  }

  function StoredRow(daily: map<DayKey, DailyStat>, user: int, day: int): Option<DailyStat> {
    if DayKey(user, day) in daily then Some(daily[DayKey(user, day)]) else None
  }

  // A row written over whatever was stored under its key, or, for None, deleted.
  function PutRow(daily: map<DayKey, DailyStat>, user: int, day: int, row: Option<DailyStat>):
    map<DayKey, DailyStat>
  {
    if row.None? then daily - {DayKey(user, day)} else daily[DayKey(user, day) := row.value]
  }

  lemma PutRowStores(daily: map<DayKey, DailyStat>, user: int, day: int, row: Option<DailyStat>)
    ensures forall u, d {:trigger StoredRow(PutRow(daily, user, day, row), u, d)} ::
              StoredRow(PutRow(daily, user, day, row), u, d) ==
              if u == user && d == day then row else StoredRow(daily, u, d)
  {
  }

  // SELECT DISTINCT user_id FROM points.
  ghost predicate ListsUsers(points: map<int, seq<Point>>, users: seq<int>) {
    forall u :: u in users <==> History(points, u) != []
  }

  function StoredTracks(s: Tables, user: int): seq<Track> {
    if user in s.tracks then s.tracks[user] else []
  }

  // The constraints the schema keeps on points: ids are unique and never reused.
  ghost predicate GoodPoints(points: map<int, seq<Point>>, nextPoint: nat) {
    forall u :: u in points ==>
      && Sorted(points[u])
      && DistinctIds(points[u])
      && forall p :: p in points[u] ==> p.id < nextPoint
  }

  // At most one job per user, in id order.
  ghost predicate GoodQueue(q: Queue) {
    && (forall i, j :: 0 <= i < j < |q.jobs| ==> q.jobs[i].id < q.jobs[j].id && q.jobs[i].user != q.jobs[j].user)
    && (forall i :: 0 <= i < |q.jobs| ==> q.jobs[i].id < q.nextId)
  }

  ghost predicate WellFormed(s: Tables) {
    GoodPoints(s.points, s.nextPoint) && GoodQueue(s.queue)
  }

  predicate Pending(q: Queue, user: int) {
    exists i :: 0 <= i < |q.jobs| && q.jobs[i].user == user
  }

  // INSERT INTO track_split_jobs ... ON CONFLICT (user_id) DO UPDATE: a job already pending keeps its id.
  function Enqueue(q: Queue, user: int): (r: Queue)
    ensures Pending(r, user)
    ensures GoodQueue(q) ==> GoodQueue(r)
    ensures q.jobs <= r.jobs
    ensures forall u :: Pending(r, u) <==> Pending(q, u) || u == user
  {
    if Pending(q, user) then q else
      var r := Queue(q.jobs + [Job(q.nextId, user)], q.nextId + 1);
      assert r.jobs[|q.jobs|].user == user;
      assert forall i :: 0 <= i < |q.jobs| ==> r.jobs[i] == q.jobs[i];
      r
  }

  /** A point a change touched: whose it is, and its instant, which a batch may give to a
      fraction of a second. */
  datatype Touch = Touch(user: int, at: int)

  function EnqueueAll(q: Queue, touched: seq<Touch>): (r: Queue)
    ensures GoodQueue(q) ==> GoodQueue(r)
    ensures q.jobs <= r.jobs
    ensures forall u :: Pending(r, u) <==> Pending(q, u) || exists t :: t in touched && t.user == u
  {
    if touched == [] then q else Enqueue(EnqueueAll(q, touched[..|touched| - 1]), touched[|touched| - 1].user)
  }

  // A point of an ingested batch, before the store gives it an id and floors its timestamp.
  datatype NewPoint = NewPoint(user: int, at: int, coord: Coord)

  // The four mutations of internal/ingest.
  datatype Mutation =
    | Create(batch: seq<NewPoint>)
    | Update(user: int, id: int, coord: Coord)
    | Delete(user: int, id: int)
    | DeleteBulk(user: int, ids: seq<int>)

  // The points table after a statement, and the rows the statement reports it touched.
  datatype Change = Change(points: map<int, seq<Point>>, nextPoint: nat, touched: seq<Touch>)

  function InsertOne(points: map<int, seq<Point>>, nextPoint: nat, p: NewPoint): (map<int, seq<Point>>, nat)
    requires GoodPoints(points, nextPoint)
  {
    var h := History(points, p.user);
    if Holds(h, Unix(p.at)) then (points, nextPoint)
    else (points[p.user := Insert(h, Point(nextPoint, Unix(p.at), p.coord))], nextPoint + 1)
  }

  // One insertion, user by user: nothing changes if the second is taken, and otherwise the one point of
  // that second with those coordinates is added to that user's history.
  lemma InsertOneAdds(points: map<int, seq<Point>>, nextPoint: nat, p: NewPoint)
    requires GoodPoints(points, nextPoint)
    ensures var (r, n) := InsertOne(points, nextPoint, p);
            var h := History(points, p.user);
            && (forall u :: u != p.user ==> History(r, u) == History(points, u))
            && if Holds(h, Unix(p.at)) then r == points && n == nextPoint
               else n == nextPoint + 1
                    && forall q :: q in History(r, p.user) <==> q in h || q == Point(nextPoint, Unix(p.at), p.coord)
  {
    InsertAdds(History(points, p.user), Point(nextPoint, Unix(p.at), p.coord));
  }

  lemma OneHistoryGood(points: map<int, seq<Point>>, nextPoint: nat, user: int, h: seq<Point>, next: nat)
    requires GoodPoints(points, nextPoint) && nextPoint <= next
    requires Sorted(h) && DistinctIds(h) && forall p :: p in h ==> p.id < next
    ensures GoodPoints(points[user := h], next)
  {
  }

  lemma InsertOneKeepsGood(points: map<int, seq<Point>>, nextPoint: nat, p: NewPoint)
    requires GoodPoints(points, nextPoint)
    ensures var (r, n) := InsertOne(points, nextPoint, p); GoodPoints(r, n)
  {
    var h := History(points, p.user);
    var q := Point(nextPoint, Unix(p.at), p.coord);
    InsertAdds(h, q);
    if !Holds(h, q.ts) {
      OneHistoryGood(points, nextPoint, p.user, Insert(h, q), nextPoint + 1);
    }
  }

  function TouchesOf(batch: seq<NewPoint>): (r: seq<Touch>)
    ensures |r| == |batch|
    ensures forall i :: 0 <= i < |batch| ==> r[i] == Touch(batch[i].user, batch[i].at)
  {
    seq(|batch|, i requires 0 <= i < |batch| => Touch(batch[i].user, batch[i].at))
  }

  function InsertAll(points: map<int, seq<Point>>, nextPoint: nat, batch: seq<NewPoint>):
    (r: (map<int, seq<Point>>, nat))
    requires GoodPoints(points, nextPoint)
    ensures GoodPoints(r.0, r.1)
  {
    if batch == [] then (points, nextPoint) else
      var (before, next) := InsertAll(points, nextPoint, batch[..|batch| - 1]);
      InsertOneKeepsGood(before, next, batch[|batch| - 1]);
      InsertOne(before, next, batch[|batch| - 1])
  }

  lemma InsertAllSnoc(points: map<int, seq<Point>>, nextPoint: nat, batch: seq<NewPoint>, p: NewPoint)
    requires GoodPoints(points, nextPoint)
    ensures var (before, next) := InsertAll(points, nextPoint, batch);
            && InsertAll(points, nextPoint, batch + [p]) == InsertOne(before, next, p)
            && GoodPoints(InsertOne(before, next, p).0, InsertOne(before, next, p).1)
  {
    assert (batch + [p])[..|batch|] == batch;
    var (before, next) := InsertAll(points, nextPoint, batch);
    InsertOneKeepsGood(before, next, p);
  }

  // The user and the second an entry of a batch is stored under.
  datatype Slot = Slot(user: int, ts: int)

  function SlotOf(p: NewPoint): Slot {
    Slot(p.user, Unix(p.at))
  }

  predicate Taken(points: map<int, seq<Point>>, slot: Slot) {
    Holds(History(points, slot.user), slot.ts)
  }

  // The slots of a batch that were free.
  ghost function FreeSlots(points: map<int, seq<Point>>, batch: seq<NewPoint>): set<Slot> {
    set p | p in batch && !Taken(points, SlotOf(p)) :: SlotOf(p)
  }

  // The j-th entry is the first of the batch for its slot.
  ghost predicate FirstFor(batch: seq<NewPoint>, j: nat, slot: Slot) {
    && j < |batch| && SlotOf(batch[j]) == slot
    && forall i :: 0 <= i < j ==> SlotOf(batch[i]) != slot
  }

  // A point of a user after a batch was inserted: one that was there, or the first entry of the batch for
  // a slot that was free.
  ghost predicate Comes(points: map<int, seq<Point>>, batch: seq<NewPoint>, user: int, p: Point) {
    || p in History(points, user)
    || (&& !Taken(points, Slot(user, p.ts))
        && exists j: nat :: FirstFor(batch, j, Slot(user, p.ts)) && p.at == batch[j].coord)
  }

  // What inserting a batch makes of the points.
  ghost predicate Inserted(points: map<int, seq<Point>>, batch: seq<NewPoint>, points2: map<int, seq<Point>>) {
    && (forall u, p :: p in History(points, u) ==> p in History(points2, u))
    && (forall j :: 0 <= j < |batch| ==> Taken(points2, SlotOf(batch[j])))
    && (forall u, p :: p in History(points2, u) ==> Comes(points, batch, u, p))
  }

  lemma TakenByPoint(points: map<int, seq<Point>>, user: int, p: Point)
    requires p in History(points, user)
    ensures Taken(points, Slot(user, p.ts))
  {
  }

  // Every slot that is taken was taken before or is in the batch.
  lemma TakenBefore(points: map<int, seq<Point>>, batch: seq<NewPoint>, points2: map<int, seq<Point>>, slot: Slot)
    requires Inserted(points, batch, points2)
    ensures Taken(points2, slot) <==> Taken(points, slot) || exists j :: 0 <= j < |batch| && SlotOf(batch[j]) == slot
  {
    if Taken(points2, slot) {
      var i :| 0 <= i < |History(points2, slot.user)| && History(points2, slot.user)[i].ts == slot.ts;
      var p := History(points2, slot.user)[i];
      assert Comes(points, batch, slot.user, p);
    }
    if Taken(points, slot) {
      var i :| 0 <= i < |History(points, slot.user)| && History(points, slot.user)[i].ts == slot.ts;
      TakenByPoint(points2, slot.user, History(points, slot.user)[i]);
    }
  }

  lemma ComesStill(points: map<int, seq<Point>>, batch: seq<NewPoint>, last: NewPoint, user: int, p: Point)
    requires Comes(points, batch, user, p)
    ensures Comes(points, batch + [last], user, p)
  {
    if p !in History(points, user) {
      var j: nat :| FirstFor(batch, j, Slot(user, p.ts)) && p.at == batch[j].coord;
      assert forall i :: 0 <= i <= j ==> (batch + [last])[i] == batch[i];
      assert FirstFor(batch + [last], j, Slot(user, p.ts)) && p.at == (batch + [last])[j].coord;
    }
  }

  lemma ComesLast(points: map<int, seq<Point>>, batch: seq<NewPoint>, last: NewPoint, id: int)
    requires !Taken(points, SlotOf(last)) && forall j :: 0 <= j < |batch| ==> SlotOf(batch[j]) != SlotOf(last)
    ensures Comes(points, batch + [last], last.user, Point(id, Unix(last.at), last.coord))
  {
    assert forall i :: 0 <= i < |batch| ==> (batch + [last])[i] == batch[i];
    assert FirstFor(batch + [last], |batch|, SlotOf(last)) && (batch + [last])[|batch|] == last;
  }

  lemma InsertedMore(points: map<int, seq<Point>>, batch: seq<NewPoint>, before: map<int, seq<Point>>, next: nat,
                     last: NewPoint)
    requires GoodPoints(before, next) && Inserted(points, batch, before)
    ensures Inserted(points, batch + [last], InsertOne(before, next, last).0)
  {
    var after := InsertOne(before, next, last).0;
    InsertOneAdds(before, next, last);
    TakenBefore(points, batch, before, SlotOf(last));
    forall u, p | p in History(before, u)
      ensures p in History(after, u)
    {
    }
    forall u, p | p in History(after, u)
      ensures Comes(points, batch + [last], u, p)
    {
      if p in History(before, u) {
        assert Comes(points, batch, u, p);
        ComesStill(points, batch, last, u, p);
      } else {
        ComesLast(points, batch, last, next);
      }
    }
    forall j | 0 <= j < |batch + [last]|
      ensures Taken(after, SlotOf((batch + [last])[j]))
    {
      if j < |batch| {
        StaysTaken(before, after, SlotOf(batch[j]));
      } else if Taken(before, SlotOf(last)) {
        StaysTaken(before, after, SlotOf(last));
      } else {
        TakenByPoint(after, last.user, Point(next, Unix(last.at), last.coord));
      }
    }
  }

  lemma StaysTaken(points: map<int, seq<Point>>, points2: map<int, seq<Point>>, slot: Slot)
    requires Taken(points, slot) && forall p :: p in History(points, slot.user) ==> p in History(points2, slot.user)
    ensures Taken(points2, slot)
  {
    var i :| 0 <= i < |History(points, slot.user)| && History(points, slot.user)[i].ts == slot.ts;
    TakenByPoint(points2, slot.user, History(points, slot.user)[i]);
  }

  // A batch's insertion: every point that was there stays, every entry's slot is taken, every new point is
  // the first entry's for a slot that was free, and as many are added as there were free slots.
  lemma {:induction false} InsertAllInserts(points: map<int, seq<Point>>, nextPoint: nat, batch: seq<NewPoint>)
    requires GoodPoints(points, nextPoint)
    ensures var (r, n) := InsertAll(points, nextPoint, batch);
            Inserted(points, batch, r) && n - nextPoint == |FreeSlots(points, batch)|
  {
    if batch == [] {
      assert FreeSlots(points, batch) == {};
    } else {
      var init, last := batch[..|batch| - 1], batch[|batch| - 1];
      assert batch == init + [last];
      var (before, next) := InsertAll(points, nextPoint, init);
      InsertAllInserts(points, nextPoint, init);
      InsertedMore(points, init, before, next, last);
      CountsMore(points, init, before, next, last);
    }
  }

  lemma CountsMore(points: map<int, seq<Point>>, batch: seq<NewPoint>, before: map<int, seq<Point>>, next: nat,
                   last: NewPoint)
    requires GoodPoints(before, next) && Inserted(points, batch, before)
    ensures InsertOne(before, next, last).1 - next == |FreeSlots(points, batch + [last])| - |FreeSlots(points, batch)|
  {
    InsertOneAdds(before, next, last);
    TakenBefore(points, batch, before, SlotOf(last));
    FreeSlotsMore(points, batch, last);
    if SlotOf(last) in FreeSlots(points, batch) {
      assert FreeSlots(points, batch) + {SlotOf(last)} == FreeSlots(points, batch);
    }
  }

  lemma FreeSlotsMore(points: map<int, seq<Point>>, batch: seq<NewPoint>, last: NewPoint)
    ensures var slot, free := SlotOf(last), FreeSlots(points, batch);
            && FreeSlots(points, batch + [last]) == (if Taken(points, slot) then free else free + {slot})
            && (slot in free <==> !Taken(points, slot) && exists j :: 0 <= j < |batch| && SlotOf(batch[j]) == slot)
  {
    var slot, free := SlotOf(last), FreeSlots(points, batch);
    assert forall p :: p in batch + [last] <==> p in batch || p == last;
    if j :| 0 <= j < |batch| && SlotOf(batch[j]) == slot {
      assert batch[j] in batch;
    }
  }

  function Stamps(user: int, times: seq<int>): (r: seq<Touch>)
    ensures |r| == |times|
    ensures forall i :: 0 <= i < |times| ==> r[i] == Touch(user, times[i] * SECOND)
  {
    seq(|times|, i requires 0 <= i < |times| => Touch(user, times[i] * SECOND))
  }

  // What the points statement of a mutation does; None when it reports that there is no such row.
  function Apply(points: map<int, seq<Point>>, nextPoint: nat, m: Mutation): Option<Change>
    requires GoodPoints(points, nextPoint)
  {
    match m
    case Create(batch) =>
      var (r, next) := InsertAll(points, nextPoint, batch);
      Some(Change(r, next, TouchesOf(batch)))
    case Update(user, id, coord) =>
      var h := History(points, user);
      (match Find(h, id)
       case None => None
       case Some(p) => Some(Change(points[user := Move(h, id, coord)], nextPoint, Stamps(user, [p.ts]))))
    case Delete(user, id) =>
      var h := History(points, user);
      (match Find(h, id)
       case None => None
       case Some(p) => Some(Change(points[user := Remove(h, {id})], nextPoint, Stamps(user, [p.ts]))))
    case DeleteBulk(user, ids) =>
      if ids == [] then Some(Change(points, nextPoint, [])) else
        var h := History(points, user);
        var gone := IdSet(ids);
        Some(Change(points[user := Remove(h, gone)], nextPoint, Stamps(user, Removed(h, gone))))
  }

  function IdSet(ids: seq<int>): set<int> {
    set id | id in ids
  }

  // One user's points with these ids are gone, and nothing else has changed.
  ghost predicate Deleted(points: map<int, seq<Point>>, user: int, ids: seq<int>, points2: map<int, seq<Point>>) {
    && (forall u :: u != user ==> History(points2, u) == History(points, u))
    && forall p :: p in History(points2, user) <==> p in History(points, user) && p.id !in ids
  }

  // One user's point with this id is at these coordinates, and nothing else has changed.
  ghost predicate Moved(points: map<int, seq<Point>>, user: int, id: int, coord: Coord, points2: map<int, seq<Point>>) {
    && (forall u :: u != user ==> History(points2, u) == History(points, u))
    && var h, h2 := History(points, user), History(points2, user);
       |h2| == |h| && forall i :: 0 <= i < |h| ==> h2[i] == if h[i].id == id then h[i].(at := coord) else h[i]
  }

  lemma DeletionDeletes(points: map<int, seq<Point>>, nextPoint: nat, user: int, ids: seq<int>)
    requires GoodPoints(points, nextPoint)
    ensures Deleted(points, user, ids, Apply(points, nextPoint, Mutation.DeleteBulk(user, ids)).value.points)
  {
    RemoveTakes(History(points, user), IdSet(ids));
  }

  lemma DeletionOfOne(points: map<int, seq<Point>>, nextPoint: nat, user: int, id: int)
    requires GoodPoints(points, nextPoint) && Apply(points, nextPoint, Mutation.Delete(user, id)).Some?
    ensures Deleted(points, user, [id], Apply(points, nextPoint, Mutation.Delete(user, id)).value.points)
  {
    RemoveTakes(History(points, user), {id});
  }

  lemma UpdateMoves(points: map<int, seq<Point>>, nextPoint: nat, user: int, id: int, coord: Coord)
    requires GoodPoints(points, nextPoint) && Apply(points, nextPoint, Mutation.Update(user, id, coord)).Some?
    ensures Moved(points, user, id, coord, Apply(points, nextPoint, Mutation.Update(user, id, coord)).value.points)
  {
  }

  // The timestamps of one user's touched rows, as stored.
  function TouchedTimes(touched: seq<Touch>, user: int): set<int> {
    set i | 0 <= i < |touched| && touched[i].user == user :: Unix(touched[i].at)
  }

  ghost predicate LatestTouch(zone: Zone, times: set<int>, t: int) {
    t in times && forall t2 :: t2 in times && zone.dayOf(t2) == zone.dayOf(t) ==> t2 <= t
  }

  /** A day is owed a rebuild when a touch falls on it, or when the point now following some
      day's latest touch does. */
  ghost predicate Owed(zone: Zone, h: seq<Point>, times: set<int>, day: int)
    requires Sorted(h)
  {
    || (exists t :: t in times && zone.dayOf(t) == day)
    || (exists t :: LatestTouch(zone, times, t) && Next(h, t).Some? && zone.dayOf(Next(h, t).value.ts) == day)
  }

  lemma MaxBelow(times: set<int>, before: int) returns (m: int)
    requires exists t :: t in times && t < before
    ensures m in times && m < before
    ensures forall t :: t in times && t < before ==> t <= m
    decreases |times|
  {
    m :| m in times && m < before;
    var above := set t | t in times && m < t < before;
    if above != {} {
      var a :| a in above;
      assert m !in above && above < times;
      SmallerSubset(above, times);
      ghost var low := m;
      m := MaxBelow(above, before);
      assert forall t :: t in times && low < t < before ==> t in above;
    } else {
      assert forall t :: t in times && m < t < before ==> t in above;
    }
  }

  // The day's points are untouched, so the row can only change through the point before them;
  // if that changed, the latest touch before the day is the one whose follower opens the day.
  lemma UnowedPredecessor(zone: Zone, h: seq<Point>, h2: seq<Point>, times: set<int>, day: int)
    requires zone.Valid() && Sorted(h) && Sorted(h2) && AgreeOff(h, h2, times)
    requires !Owed(zone, h2, times, day)
    requires Range(h2, zone.start(day), zone.start(day + 1)) != []
    ensures Latest(h, zone.start(day)) == Latest(h2, zone.start(day))
  {
    var from, before := zone.start(day), zone.start(day + 1);
    if exists t :: t in times && t < from {
      var m := MaxBelow(times, from);
      forall t | t in times && zone.dayOf(t) == zone.dayOf(m) ensures t <= m {
        zone.DayUnique(t, day);
        zone.DayUnique(m, day);
        if t >= from {
          zone.DayMonotone(before, t);
          zone.DayUnique(before, day + 1);
          zone.DayMonotone(m, from);
          zone.DayUnique(from, day);
        }
      }
      assert LatestTouch(zone, times, m);
      RangeMembers(h2, from, before);
      var first := Range(h2, from, before)[0];
      assert first in h2;
      NextIsNext(h2, m);
      zone.DayUnique(Next(h2, m).value.ts, day);
      LatestUntouched(h, h2, times, m, from);
    } else {
      LatestIsLatest(h, from);
      LatestIsLatest(h2, from);
      var l, l2 := Latest(h, from), Latest(h2, from);
      if l.Some? { assert l.value in h2; }
      if l2.Some? { assert l2.value in h; }
      if l.Some? && l2.Some? { SameTimeSamePoint(h, l.value, l2.value); }
    }
  }

  // affectedDays is sufficient: a day it leaves out has the same row before and after.
  lemma UnowedRowUnchanged(cfg: Config, h: seq<Point>, h2: seq<Point>, times: set<int>, day: int)
    requires cfg.zone.Valid() && Sorted(h) && Sorted(h2) && AgreeOff(h, h2, times)
    requires !Owed(cfg.zone, h2, times, day)
    ensures DayRow(cfg, h, day) == DayRow(cfg, h2, day)
  {
    var from, before := cfg.zone.start(day), cfg.zone.start(day + 1);
    forall t | t in times ensures !(from <= t < before) {
      cfg.zone.DayUnique(t, day);
    }
    RangeUntouched(h, h2, times, from, before);
    if Range(h2, from, before) != [] {
      UnowedPredecessor(cfg.zone, h, h2, times, day);
    }
    RowDependsOnWindow(cfg, h, h2, from, before);
  }

  lemma {:induction false} InsertAllAgrees(points: map<int, seq<Point>>, nextPoint: nat, batch: seq<NewPoint>,
                                           user: int)
    requires GoodPoints(points, nextPoint)
    ensures AgreeOff(History(points, user), History(InsertAll(points, nextPoint, batch).0, user),
                     TouchedTimes(TouchesOf(batch), user))
  {
    if batch != [] {
      var init, last := batch[..|batch| - 1], batch[|batch| - 1];
      InsertAllAgrees(points, nextPoint, init, user);
      var times, initTimes := TouchedTimes(TouchesOf(batch), user), TouchedTimes(TouchesOf(init), user);
      forall t | t in initTimes ensures t in times {
        var i :| 0 <= i < |init| && TouchesOf(init)[i].user == user && Unix(TouchesOf(init)[i].at) == t;
        assert TouchesOf(batch)[i] == TouchesOf(init)[i];
      }
      if last.user == user {
        var (before, next) := InsertAll(points, nextPoint, init);
        InsertAdds(History(before, user), Point(next, Unix(last.at), last.coord));
        assert TouchesOf(batch)[|batch| - 1] == Touch(user, last.at);
        assert Unix(last.at) in times;
      }
    }
  }

  // What a change reports covers what it changed of a user's rows.
  ghost predicate ReportsChanges(points: map<int, seq<Point>>, c: Change, user: int) {
    && GoodPoints(c.points, c.nextPoint)
    && AgreeOff(History(points, user), History(c.points, user), TouchedTimes(c.touched, user))
  }

  lemma OneUserReports(points: map<int, seq<Point>>, nextPoint: nat, whose: int, h: seq<Point>, changed: set<int>,
                       times: seq<int>, user: int)
    requires GoodPoints(points, nextPoint)
    requires Sorted(h) && DistinctIds(h) && forall p :: p in h ==> p.id < nextPoint
    requires AgreeOff(History(points, whose), h, changed) && forall t :: t in changed ==> t in times
    ensures ReportsChanges(points, Change(points[whose := h], nextPoint, Stamps(whose, times)), user)
  {
    StampedTimes(whose, times);
  }

  lemma UpdateReports(points: map<int, seq<Point>>, nextPoint: nat, whose: int, id: int, coord: Coord, user: int)
    requires GoodPoints(points, nextPoint) && Find(History(points, whose), id).Some?
    ensures var h := History(points, whose);
            var stamps := Stamps(whose, [Find(h, id).value.ts]);
            ReportsChanges(points, Change(points[whose := Move(h, id, coord)], nextPoint, stamps), user)
  {
    var h := History(points, whose);
    FindFinds(h, id);
    var p := Find(h, id).value;
    MoveAgrees(h, p, coord);
    OneUserReports(points, nextPoint, whose, Move(h, id, coord), {p.ts}, [p.ts], user);
  }

  lemma RemovalReports(points: map<int, seq<Point>>, nextPoint: nat, whose: int, gone: set<int>, times: seq<int>,
                       user: int)
    requires GoodPoints(points, nextPoint)
    requires forall t :: t in times <==> t in Removed(History(points, whose), gone)
    ensures var left := Remove(History(points, whose), gone);
            ReportsChanges(points, Change(points[whose := left], nextPoint, Stamps(whose, times)), user)
  {
    var h := History(points, whose);
    RemoveTakes(h, gone);
    RemoveAgrees(h, gone);
    var changed := set t | t in Removed(h, gone);
    OneUserReports(points, nextPoint, whose, Remove(h, gone), changed, times, user);
  }

  // Every mutation reports every row it changed.
  lemma ApplyReportsChanges(points: map<int, seq<Point>>, nextPoint: nat, m: Mutation, user: int)
    requires GoodPoints(points, nextPoint) && Apply(points, nextPoint, m).Some?
    ensures ReportsChanges(points, Apply(points, nextPoint, m).value, user)
  {
    match m
    case Create(batch) =>
      InsertAllAgrees(points, nextPoint, batch, user);
    case Update(whose, id, coord) =>
      UpdateReports(points, nextPoint, whose, id, coord, user);
    case Delete(whose, id) =>
      var h := History(points, whose);
      FindFinds(h, id);
      RemovedOne(h, Find(h, id).value);
      RemovalReports(points, nextPoint, whose, {id}, [Find(h, id).value.ts], user);
    case DeleteBulk(whose, ids) =>
      if ids != [] {
        var gone := IdSet(ids);
        RemovalReports(points, nextPoint, whose, gone, Removed(History(points, whose), gone), user);
      }
  }

  lemma StampedTimes(user: int, times: seq<int>)
    ensures TouchedTimes(Stamps(user, times), user) == set t | t in times
  {
    var stamps := Stamps(user, times);
    assert forall i :: 0 <= i < |times| ==> stamps[i].user == user && Unix(stamps[i].at) == times[i];
  }
}
