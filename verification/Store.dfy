// The SQLite store: one object whose fields are the tables, with the repositories' statements as
// methods. Any statement may fail, as the schedule has it; what undoes a failed transaction is Begin and
// End.

module Store {
  import opened Options
  import opened Faults
  import opened Ordering
  import opened Clock
  import opened Histories
  import opened DailyStats
  import opened TrackSplitting
  import opened Tables
  import opened Server

  datatype Error = StoreFailure | NotFound

  datatype Result<+T> = Ok(value: T) | Err(error: Error)

  class DB {
    var points: map<int, seq<Point>>
    var nextPoint: nat
    var daily: map<DayKey, DailyStat>
    var tracks: map<int, seq<Track>>
    var queue: Queue

    // The tables as the running transaction found them.
    var begun: Option<Tables>

    // Which statements fail, and how many there have been.
    const faulty: Schedule
    var statements: nat

    ghost function Contents(): Tables
      reads this
    {
      Tables(points, nextPoint, daily, tracks, queue)
    }

    ghost predicate Valid()
      reads this
    {
      WellFormed(Contents()) && (begun.Some? ==> WellFormed(begun.value))
    }

    // Some statement since has failed.
    ghost predicate FaultSince(from: nat)
      reads this`statements
    {
      Faulted(faulty, from, statements)
    }

    constructor (faulty: Schedule)
      ensures Valid() && begun.None? && Contents() == EMPTY && this.faulty == faulty && statements == 0
    {
      points, nextPoint, daily, tracks, queue := map[], 1, map[], map[], Queue([], 1);
      begun, statements, this.faulty := None, 0, faulty;
    }

    // One statement reaches the database.
    method Attempt() returns (failed: bool)
      modifies this`statements
      ensures statements == old(statements) + 1 && failed == faulty(old(statements))
      ensures failed ==> FaultSince(old(statements))
    {
      failed := faulty(statements);
      statements := statements + 1;
    }

    // The first half of Tx. A nested call joins the transaction already running.
    method Begin() returns (r: Result<bool>)
      requires Valid()
      modifies this`begun, this`statements
      ensures old(statements) <= statements && (r.Err? ==> r.error == StoreFailure && FaultSince(old(statements)))
      ensures Valid()
      ensures old(begun).Some? ==> r == Ok(false) && begun == old(begun)
      ensures old(begun).None? ==> r == Ok(true) || (r == Err(StoreFailure) && begun.None?)
      ensures old(begun).None? && r.Ok? ==> begun == Some(Contents())
    {
      if begun.Some? {
        return Ok(false);
      }
      var failed := Attempt();
      if failed {
        return Err(StoreFailure);
      }
      begun := Some(Tables(points, nextPoint, daily, tracks, queue));
      r := Ok(true);
    }

    // The second half of Tx: commit, unless the body failed or the commit does.
    method End(outermost: bool, failed: bool) returns (committed: bool)
      requires Valid() && begun.Some?
      modifies this
      ensures old(statements) <= statements && (!committed && !failed ==> FaultSince(old(statements)))
      ensures Valid()
      ensures failed ==> !committed
      ensures !outermost ==> committed == !failed && begun == old(begun) && Contents() == old(Contents())
      ensures outermost ==> begun.None?
      ensures outermost ==> Contents() == if committed then old(Contents()) else old(begun).value
    {
      committed := !failed;
      if outermost {
        if !failed {
          var fault := Attempt();
          committed := !fault;
        }
        if !committed {
          var s := begun.value;
          points, nextPoint, daily, tracks, queue := s.points, s.nextPoint, s.daily, s.tracks, s.queue;
        }
        begun := None;
      }
    }

    // One INSERT ... DO NOTHING: whether it added a row.
    method InsertRow(p: NewPoint) returns (r: Result<bool>)
      requires Valid()
      modifies this`points, this`nextPoint, this`statements
      ensures old(statements) <= statements && (r.Err? ==> r.error == StoreFailure && FaultSince(old(statements)))
      ensures Valid()
      ensures r.Ok? ==> (points, nextPoint) == InsertOne(old(points), old(nextPoint), p)
      ensures r.Ok? ==> nextPoint == old(nextPoint) + if r.value then 1 else 0
      ensures r.Ok? ==> Inserted(old(points), [p], points) && r.value == !Taken(old(points), SlotOf(p))
    {
      var failed := Attempt();
      if failed {
        return Err(StoreFailure);
      }
      InsertOneKeepsGood(points, nextPoint, p);
      InsertOneAdds(points, nextPoint, p);
      InsertedMore(points, [], points, nextPoint, p);
      assert [] + [p] == [p];
      var (after, next) := InsertOne(points, nextPoint, p);
      r := Ok(next != nextPoint);
      points, nextPoint := after, next;
    }

    // points.Create: one insertion per point of the batch.
    method Create(batch: seq<NewPoint>) returns (r: Result<nat>)
      requires Valid()
      modifies this`points, this`nextPoint, this`statements
      ensures old(statements) <= statements && (r.Err? ==> r.error == StoreFailure && FaultSince(old(statements)))
      ensures Valid()
      ensures r.Ok? ==> (points, nextPoint) == InsertAll(old(points), old(nextPoint), batch)
      ensures r.Ok? ==> Inserted(old(points), batch, points) && r.value == |FreeSlots(old(points), batch)|
    {
      var inserted: nat := 0;
      for i := 0 to |batch|
        invariant Valid() && nextPoint == old(nextPoint) + inserted && old(statements) <= statements
        invariant (points, nextPoint) == InsertAll(old(points), old(nextPoint), batch[..i])
      {
        CutAt(batch, i);
        InsertAllSnoc(old(points), old(nextPoint), batch[..i], batch[i]);
        var added := InsertRow(batch[i]);
        if added.Err? {
          return Err(added.error);
        }
        if added.value {
          inserted := inserted + 1;
        }
      }
      assert batch[..|batch|] == batch;
      InsertAllInserts(old(points), old(nextPoint), batch);
      r := Ok(inserted);
    }

    // points.UserIDs, in ascending order.
    method UserIDs() returns (r: Result<seq<int>>)
      requires Valid()
      modifies this`statements
      ensures old(statements) <= statements && (r.Err? ==> r.error == StoreFailure && FaultSince(old(statements)))
      ensures r.Ok? ==> ListsUsers(points, r.value)
      ensures r.Ok? ==> Increasing(r.value)
    {
      var failed := Attempt();
      if failed {
        return Err(StoreFailure);
      }
      r := Ok(InOrder(set u | u in points && points[u] != []));
    }

    // points.Timestamps.
    method Timestamps(user: int) returns (r: Result<seq<int>>)
      requires Valid()
      modifies this`statements
      ensures old(statements) <= statements && (r.Err? ==> r.error == StoreFailure && FaultSince(old(statements)))
      ensures r.Ok? ==> var h := History(points, user);
                        |r.value| == |h| && forall i :: 0 <= i < |h| ==> r.value[i] == h[i].ts
    {
      var failed := Attempt();
      if failed {
        return Err(StoreFailure);
      }
      var h := History(points, user);
      r := Ok(seq(|h|, i requires 0 <= i < |h| => h[i].ts));
    }

    // points.AllOrdered.
    method AllOrdered(user: int) returns (r: Result<seq<Point>>)
      requires Valid()
      modifies this`statements
      ensures old(statements) <= statements && (r.Err? ==> r.error == StoreFailure && FaultSince(old(statements)))
      ensures r.Ok? ==> r.value == History(points, user) && Sorted(r.value)
    {
      var failed := Attempt();
      if failed {
        return Err(StoreFailure);
      }
      r := Ok(History(points, user));
    }

    // points.NextTimestamp. The bound is floored to the second, like every stored timestamp.
    method NextTimestamp(user: int, after: int) returns (r: Result<Option<int>>)
      requires Valid()
      modifies this`statements
      ensures old(statements) <= statements && (r.Err? ==> r.error == StoreFailure && FaultSince(old(statements)))
      ensures r.Ok? ==> match Next(History(points, user), Unix(after))
                        case None => r.value == None
                        case Some(p) => r.value == Some(p.ts)
    {
      var failed := Attempt();
      if failed {
        return Err(StoreFailure);
      }
      var next := Next(History(points, user), Unix(after));
      r := Ok(if next.Some? then Some(next.value.ts) else None);
    }

    // points.Update: the updated row.
    method Update(user: int, id: int, coord: Coord) returns (r: Result<Point>)
      requires Valid()
      modifies this`points, this`statements
      ensures old(statements) <= statements && (r == Err(StoreFailure) ==> FaultSince(old(statements)))
      ensures Valid()
      ensures r.Err? ==> points == old(points)
      ensures r == Err(NotFound) ==> Find(History(points, user), id).None?
      ensures r.Ok? ==> var found := Find(old(History(points, user)), id);
                        && found.Some? && r.value == Point(id, found.value.ts, coord)
                        && points == old(points)[user := Move(old(History(points, user)), id, coord)]
    {
      var failed := Attempt();
      if failed {
        return Err(StoreFailure);
      }
      var h := History(points, user);
      var found := Find(h, id);
      if found.None? {
        return Err(NotFound);
      }
      ApplyReportsChanges(points, nextPoint, Mutation.Update(user, id, coord), user);
      points := points[user := Move(h, id, coord)];
      FindFinds(h, id);
      r := Ok(found.value.(at := coord));
    }

    // points.Delete: the timestamp of the deleted row.
    method Delete(user: int, id: int) returns (r: Result<int>)
      requires Valid()
      modifies this`points, this`statements
      ensures old(statements) <= statements && (r == Err(StoreFailure) ==> FaultSince(old(statements)))
      ensures Valid()
      ensures r.Err? ==> points == old(points)
      ensures r == Err(NotFound) ==> Find(History(points, user), id).None?
      ensures r.Ok? ==> var found := Find(old(History(points, user)), id);
                        && found.Some? && r.value == found.value.ts
                        && points == old(points)[user := Remove(old(History(points, user)), {id})]
    {
      var failed := Attempt();
      if failed {
        return Err(StoreFailure);
      }
      var h := History(points, user);
      var found := Find(h, id);
      if found.None? {
        return Err(NotFound);
      }
      ApplyReportsChanges(points, nextPoint, Mutation.Delete(user, id), user);
      points := points[user := Remove(h, {id})];
      r := Ok(found.value.ts);
    }

    // points.DeleteBulk: the timestamps of the rows deleted. No ids, no statement.
    method DeleteBulk(user: int, ids: seq<int>) returns (r: Result<seq<int>>)
      requires Valid()
      modifies this`points, this`statements
      ensures old(statements) <= statements && (r.Err? ==> r.error == StoreFailure && FaultSince(old(statements)))
      ensures Valid()
      ensures r.Err? ==> points == old(points)
      ensures r.Ok? ==> var gone := IdSet(ids);
                        && r.value == Removed(old(History(points, user)), gone)
                        && (ids == [] ==> r.value == [])
                        && points == if ids == [] then old(points)
                                     else old(points)[user := Remove(old(History(points, user)), gone)]
    {
      if ids == [] {
        RemoveNothing(History(points, user));
        assert IdSet(ids) == {};
        return Ok([]);
      }
      var h := History(points, user);
      var gone := IdSet(ids);
      var failed := Attempt();
      if failed {
        return Err(StoreFailure);
      }
      ApplyReportsChanges(points, nextPoint, Mutation.DeleteBulk(user, ids), user);
      points := points[user := Remove(h, gone)];
      r := Ok(Removed(h, gone));
    }

    // dailyStats.Rebuild: the one-day query, then an upsert, or a delete when the day is empty.
    // The row it leaves is the one LAG over the whole history would give.
    method Rebuild(cfg: Config, user: int, day: int) returns (r: Result<()>)
      requires Valid() && cfg.zone.Valid()
      modifies this`daily, this`statements
      ensures old(statements) <= statements && (r.Err? ==> r.error == StoreFailure && FaultSince(old(statements)))
      ensures r.Err? ==> daily == old(daily)
      ensures r.Ok? ==> daily == PutRow(old(daily), user, day, DayRow(cfg, History(points, user), day))
    {
      var row := QueryRow(cfg, user, day);
      if row.Err? {
        return Err(row.error);
      }
      r := WriteRow(user, day, row.value);
    }

    // Its first statement: the day's row, from the day's points and their one predecessor.
    method QueryRow(cfg: Config, user: int, day: int) returns (r: Result<Option<DailyStat>>)
      requires Valid() && cfg.zone.Valid()
      modifies this`statements
      ensures old(statements) <= statements && (r.Err? ==> r.error == StoreFailure && FaultSince(old(statements)))
      ensures r.Ok? ==> r.value == DayRow(cfg, History(points, user), day)
    {
      var failed := Attempt();
      if failed {
        return Err(StoreFailure);
      }
      var h := History(points, user);
      QueriedRowIsDayRow(cfg, h, day);
      r := Ok(QueriedRow(cfg, h, day));
    }

    // Its second statement: the row written, or deleted when there is none.
    method WriteRow(user: int, day: int, row: Option<DailyStat>) returns (r: Result<()>)
      modifies this`daily, this`statements
      ensures old(statements) <= statements && (r.Err? ==> r.error == StoreFailure && FaultSince(old(statements)))
      ensures r.Err? ==> daily == old(daily)
      ensures r.Ok? ==> daily == PutRow(old(daily), user, day, row)
    {
      var failed := Attempt();
      if failed {
        return Err(StoreFailure);
      }
      if row.None? {
        daily := daily - {DayKey(user, day)};
      } else {
        daily := daily[DayKey(user, day) := row.value];
      }
      r := Ok(());
    }

    // dailyStats.DeleteAll.
    method DeleteAll() returns (r: Result<()>)
      modifies this`daily, this`statements
      ensures old(statements) <= statements && (r.Err? ==> r.error == StoreFailure && FaultSince(old(statements)))
      ensures daily == if r.Ok? then map[] else old(daily)
    {
      var failed := Attempt();
      if failed {
        return Err(StoreFailure);
      }
      daily := map[];
      r := Ok(());
    }

    // tracks.ReplaceAll: one DELETE, then one INSERT per track.
    method ReplaceAll(user: int, replacement: seq<Track>) returns (r: Result<()>)
      modifies this`tracks, this`statements
      ensures old(statements) <= statements && (r.Err? ==> r.error == StoreFailure && FaultSince(old(statements)))
      ensures r.Ok? ==> tracks == old(tracks)[user := replacement]
      ensures forall u :: u != user ==>
                (u in tracks <==> u in old(tracks)) && (u in tracks ==> tracks[u] == old(tracks)[u])
    {
      var failed := Attempt();
      if failed {
        return Err(StoreFailure);
      }
      tracks := tracks[user := []];
      for i := 0 to |replacement|
        invariant tracks == old(tracks)[user := replacement[..i]] && old(statements) <= statements
      {
        var failed := Attempt();
        if failed {
          return Err(StoreFailure);
        }
        assert replacement[..i + 1] == replacement[..i] + [replacement[i]];
        tracks := tracks[user := tracks[user] + [replacement[i]]];
      }
      assert replacement[..|replacement|] == replacement;
      r := Ok(());
    }

    // tracks.Enqueue.
    method EnqueueRebuild(user: int) returns (r: Result<()>)
      requires Valid()
      modifies this`queue, this`statements
      ensures old(statements) <= statements && (r.Err? ==> r.error == StoreFailure && FaultSince(old(statements)))
      ensures Valid()
      ensures queue == if r.Ok? then Enqueue(old(queue), user) else old(queue)
    {
      var failed := Attempt();
      if failed {
        return Err(StoreFailure);
      }
      queue := Enqueue(queue, user);
      r := Ok(());
    }

    // tracks.NextPending: the row with the smallest id is claimed by deleting it.
    method NextPending() returns (r: Result<Option<int>>)
      requires Valid()
      modifies this`queue, this`statements
      ensures old(statements) <= statements && (r.Err? ==> r.error == StoreFailure && FaultSince(old(statements)))
      ensures Valid()
      ensures r.Err? ==> queue == old(queue)
      ensures r == Ok(None) ==> queue == old(queue) && queue.jobs == []
      ensures r.Ok? && r.value.Some? ==>
                && old(queue).jobs != []
                && r.value == Some(old(queue).jobs[0].user)
                && queue == old(queue).(jobs := old(queue).jobs[1..])
    {
      var failed := Attempt();
      if failed {
        return Err(StoreFailure);
      }
      if queue.jobs == [] {
        return Ok(None);
      }
      r := Ok(Some(queue.jobs[0].user));
      ClaimKeepsPending(queue, 0);
      queue := queue.(jobs := queue.jobs[1..]);
    }
  }

  lemma {:induction false} RemoveNothing(h: seq<Point>)
    ensures Removed(h, {}) == []
  {
    if h != [] {
      RemoveNothing(h[1..]);
    }
  }
}
