// One user's rows of the points table, in timestamp order, and the statements run on them.

module Options {
  datatype Option<+T> = None | Some(value: T)
}

module Histories {
  import opened Options

  datatype Coord = Coord(lat: real, lon: real)

  datatype Point = Point(id: int, ts: int, at: Coord)

  // The unique index on (user_id, timestamp), read in order.
  ghost predicate Sorted(h: seq<Point>) {
    forall i, j :: 0 <= i < j < |h| ==> h[i].ts < h[j].ts
  }

  ghost predicate DistinctIds(h: seq<Point>) {
    forall i, j :: 0 <= i < j < |h| ==> h[i].id != h[j].id
  }

  // How many points come before time t.
  function Lower(h: seq<Point>, t: int): (k: nat)
    requires Sorted(h)
    ensures k <= |h|
    ensures forall i :: 0 <= i < k ==> h[i].ts < t
    ensures forall i :: k <= i < |h| ==> h[i].ts >= t
  {
    if h == [] || h[0].ts >= t then 0 else 1 + Lower(h[1..], t)
  }

  lemma {:induction false} LowerUnique(h: seq<Point>, t: int, k: nat)
    requires Sorted(h) && k <= |h|
    requires forall i :: 0 <= i < k ==> h[i].ts < t
    requires forall i :: k <= i < |h| ==> h[i].ts >= t
    ensures Lower(h, t) == k
  {
    if k > 0 {
      LowerUnique(h[1..], t, k - 1);
    }
  }

  lemma LowerMonotone(h: seq<Point>, a: int, b: int)
    requires Sorted(h) && a <= b
    ensures Lower(h, a) <= Lower(h, b)
  {
  }

  // WHERE timestamp >= from AND timestamp < before ORDER BY timestamp.
  function Range(h: seq<Point>, from: int, before: int): seq<Point>
    requires Sorted(h)
  {
    if before <= from then [] else
      LowerMonotone(h, from, before);
      h[Lower(h, from)..Lower(h, before)]
  }

  lemma SliceMembers(h: seq<Point>, i: nat, j: nat, p: Point)
    requires i <= j <= |h|
    ensures p in h[i..j] <==> exists k :: i <= k < j && h[k] == p
  {
    if k :| i <= k < j && h[k] == p {
      assert h[i..j][k - i] == p;
    }
  }

  // The query returns the rows in the range, all of them, in order.
  lemma RangeMembers(h: seq<Point>, from: int, before: int)
    requires Sorted(h)
    ensures Sorted(Range(h, from, before))
    ensures forall p :: p in Range(h, from, before) <==> p in h && from <= p.ts < before
  {
    if from < before {
      LowerMonotone(h, from, before);
      var i, j := Lower(h, from), Lower(h, before);
      forall p ensures p in h[i..j] <==> p in h && from <= p.ts < before {
        SliceMembers(h, i, j, p);
      }
    }
  }

  // WHERE timestamp < before ORDER BY timestamp DESC LIMIT 1.
  function Latest(h: seq<Point>, before: int): Option<Point>
    requires Sorted(h)
  {
    var k := Lower(h, before);
    if k == 0 then None else Some(h[k - 1])
  }

  lemma LatestIsLatest(h: seq<Point>, before: int)
    requires Sorted(h)
    ensures match Latest(h, before)
            case Some(l) => l in h && l.ts < before && forall p :: p in h && p.ts < before ==> p.ts <= l.ts
            case None => forall p :: p in h ==> p.ts >= before
  {
  }

  // WHERE timestamp > after ORDER BY timestamp LIMIT 1.
  function Next(h: seq<Point>, after: int): Option<Point>
    requires Sorted(h)
  {
    var k := Lower(h, after + 1);
    if k == |h| then None else Some(h[k])
  }

  lemma NextIsNext(h: seq<Point>, after: int)
    requires Sorted(h)
    ensures match Next(h, after)
            case Some(n) => n in h && n.ts > after && forall p :: p in h && p.ts > after ==> p.ts >= n.ts
            case None => forall p :: p in h ==> p.ts <= after
  {
  }

  predicate Holds(h: seq<Point>, ts: int) {
    exists i :: 0 <= i < |h| && h[i].ts == ts
  }

  // INSERT ... ON CONFLICT (user_id, timestamp) DO NOTHING.
  function Insert(h: seq<Point>, p: Point): seq<Point>
    requires Sorted(h)
  {
    if Holds(h, p.ts) then h else
      var k := Lower(h, p.ts);
      h[..k] + [p] + h[k..]
  }

  // A stored timestamp is never overwritten; a new one is added, and order is kept.
  lemma InsertAdds(h: seq<Point>, p: Point)
    requires Sorted(h)
    ensures var r := Insert(h, p);
            && Sorted(r)
            && (Holds(h, p.ts) ==> r == h)
            && (!Holds(h, p.ts) ==> |r| == |h| + 1 && forall q :: q in r <==> q in h || q == p)
            && (DistinctIds(h) && (forall q :: q in h ==> q.id != p.id) ==> DistinctIds(r))
  {
    if !Holds(h, p.ts) {
      var k := Lower(h, p.ts);
      SpliceMembers(h, k, p);
      SpliceSorted(h, k, p);
      if DistinctIds(h) && forall q :: q in h ==> q.id != p.id {
        SpliceDistinct(h, k, p);
      }
    }
  }

  lemma SpliceMembers(h: seq<Point>, k: nat, p: Point)
    requires k <= |h|
    ensures forall q :: q in h[..k] + [p] + h[k..] <==> q in h || q == p
  {
    forall q
      ensures q in h[..k] + [p] + h[k..] <==> q in h || q == p
    {
      assert h == h[..k] + h[k..];
      assert q in h <==> q in h[..k] || q in h[k..];
    }
  }

  lemma SpliceSorted(h: seq<Point>, k: nat, p: Point)
    requires Sorted(h) && k <= |h|
    requires forall i :: 0 <= i < k ==> h[i].ts < p.ts
    requires forall i :: k <= i < |h| ==> h[i].ts > p.ts
    ensures Sorted(h[..k] + [p] + h[k..])
  {
  }

  lemma SpliceDistinct(h: seq<Point>, k: nat, p: Point)
    requires DistinctIds(h) && k <= |h|
    requires forall i :: 0 <= i < |h| ==> h[i].id != p.id
    ensures DistinctIds(h[..k] + [p] + h[k..])
  {
  }

  // UPDATE ... SET latitude, longitude WHERE id = ?.
  function Move(h: seq<Point>, id: int, at: Coord): (r: seq<Point>)
    ensures |r| == |h|
    ensures forall i :: 0 <= i < |h| ==> r[i] == if h[i].id == id then h[i].(at := at) else h[i]
  {
    seq(|h|, i requires 0 <= i < |h| => if h[i].id == id then h[i].(at := at) else h[i])
  }

  // The row an id names, if it is one of this user's.
  function Find(h: seq<Point>, id: int): Option<Point> {
    if h == [] then None else if h[0].id == id then Some(h[0]) else Find(h[1..], id)
  }

  lemma {:induction false} FindFinds(h: seq<Point>, id: int)
    ensures match Find(h, id)
            case Some(p) => p in h && p.id == id
            case None => forall p :: p in h ==> p.id != id
  {
    if h != [] {
      FindFinds(h[1..], id);
      assert forall p :: p in h <==> p == h[0] || p in h[1..];
    }
  }

  // DELETE ... WHERE id IN ids.
  function Remove(h: seq<Point>, ids: set<int>): seq<Point> {
    if h == [] then [] else if h[0].id in ids then Remove(h[1..], ids) else [h[0]] + Remove(h[1..], ids)
  }

  lemma {:induction false} RemoveMembers(h: seq<Point>, ids: set<int>)
    ensures forall p :: p in Remove(h, ids) <==> p in h && p.id !in ids
  {
    if h != [] {
      RemoveMembers(h[1..], ids);
      assert forall p :: p in h <==> p == h[0] || p in h[1..];
    }
  }

  lemma {:induction false} RemoveKeepsOrder(h: seq<Point>, ids: set<int>)
    requires Sorted(h)
    ensures Sorted(Remove(h, ids))
  {
    if h != [] {
      RemoveKeepsOrder(h[1..], ids);
      RemoveMembers(h[1..], ids);
      var rest := Remove(h[1..], ids);
      forall i | 0 <= i < |rest| ensures h[0].ts < rest[i].ts {
        assert rest[i] in h[1..];
      }
    }
  }

  lemma {:induction false} RemoveKeepsIds(h: seq<Point>, ids: set<int>)
    requires DistinctIds(h)
    ensures DistinctIds(Remove(h, ids))
  {
    if h != [] {
      RemoveKeepsIds(h[1..], ids);
      RemoveMembers(h[1..], ids);
      var rest := Remove(h[1..], ids);
      forall i | 0 <= i < |rest| ensures h[0].id != rest[i].id {
        assert rest[i] in h[1..];
      }
    }
  }

  // Exactly the rows with those ids go, and the rest keep their order.
  lemma RemoveTakes(h: seq<Point>, ids: set<int>)
    requires Sorted(h) && DistinctIds(h)
    ensures forall p :: p in Remove(h, ids) <==> p in h && p.id !in ids
    ensures Sorted(Remove(h, ids)) && DistinctIds(Remove(h, ids))
  {
    RemoveMembers(h, ids);
    RemoveKeepsOrder(h, ids);
    RemoveKeepsIds(h, ids);
  }

  // RETURNING timestamp: the timestamps of the rows a deletion takes.
  function Removed(h: seq<Point>, ids: set<int>): (r: seq<int>)
    ensures |r| + |Remove(h, ids)| == |h|
  {
    if h == [] then [] else if h[0].id in ids then [h[0].ts] + Removed(h[1..], ids) else Removed(h[1..], ids)
  }

  lemma RemovedTimes(h: seq<Point>, ids: set<int>)
    ensures forall t :: t in Removed(h, ids) <==> exists p :: p in h && p.id in ids && p.ts == t
  {
    if h != [] {
      RemovedTimes(h[1..], ids);
      assert forall p :: p in h <==> p == h[0] || p in h[1..];
    }
  }

  lemma SameTimeSamePoint(h: seq<Point>, p: Point, q: Point)
    requires Sorted(h) && p in h && q in h && p.ts == q.ts
    ensures p == q
  {
  }

  // A contiguous stretch is what a query for its own first and last timestamps returns.
  lemma SliceIsRange(h: seq<Point>, o: nat, end: nat)
    requires Sorted(h) && o < end <= |h|
    ensures Range(h, h[o].ts, h[end - 1].ts + 1) == h[o..end]
  {
    LowerUnique(h, h[o].ts, o);
    LowerUnique(h, h[end - 1].ts + 1, end);
  }

  // An ordered history is determined by the points it holds.
  lemma {:induction false} SameMembersSameHistory(a: seq<Point>, b: seq<Point>)
    requires Sorted(a) && Sorted(b)
    requires forall p :: p in a <==> p in b
    ensures a == b
  {
    assert |b| > 0 ==> b[0] in b;
    if a == [] {
    } else {
      assert a[0] in b;
      forall p ensures p in a[1..] <==> p in b[1..] {
        assert p in a[1..] ==> p in a && p.ts > a[0].ts;
        assert p in b[1..] ==> p in b && p.ts > b[0].ts;
      }
      SameMembersSameHistory(a[1..], b[1..]);
    }
  }

  // h and h2 hold the same points, except possibly at the times in touched.
  ghost predicate AgreeOff(h: seq<Point>, h2: seq<Point>, touched: set<int>) {
    forall p: Point {:trigger p in h} {:trigger p in h2} :: p.ts !in touched ==> (p in h <==> p in h2)
  }

  lemma RangeUntouched(h: seq<Point>, h2: seq<Point>, touched: set<int>, from: int, before: int)
    requires Sorted(h) && Sorted(h2) && AgreeOff(h, h2, touched)
    requires forall t :: t in touched ==> !(from <= t < before)
    ensures Range(h, from, before) == Range(h2, from, before)
  {
    RangeMembers(h, from, before);
    RangeMembers(h2, from, before);
    SameMembersSameHistory(Range(h, from, before), Range(h2, from, before));
  }

  // Above `floor` nothing below `before` was touched, and h2 has a point there.
  lemma LatestUntouched(h: seq<Point>, h2: seq<Point>, touched: set<int>, floor: int, before: int)
    requires Sorted(h) && Sorted(h2) && AgreeOff(h, h2, touched)
    requires forall t :: t in touched && t < before ==> t <= floor
    requires exists p :: p in h2 && floor < p.ts < before
    ensures Latest(h, before) == Latest(h2, before)
  {
    var p :| p in h2 && floor < p.ts < before;
    assert p in h;
    LatestIsLatest(h, before);
    LatestIsLatest(h2, before);
    var l, l2 := Latest(h, before), Latest(h2, before);
    assert l2.value in h;
    assert l.value in h2;
    SameTimeSamePoint(h, l.value, l2.value);
  }

  // At most one row has a given id, so an update disturbs only the timestamp it reports.
  lemma MoveAgrees(h: seq<Point>, p: Point, at: Coord)
    requires Sorted(h) && DistinctIds(h) && p in h
    ensures var h2 := Move(h, p.id, at);
            Sorted(h2) && DistinctIds(h2) && AgreeOff(h, h2, {p.ts})
  {
    var h2 := Move(h, p.id, at);
    var k :| 0 <= k < |h| && h[k] == p;
    assert forall i :: 0 <= i < |h| && i != k ==> h2[i] == h[i];
    forall q: Point | q.ts != p.ts ensures q in h <==> q in h2 {
      if q in h { var i :| 0 <= i < |h| && h[i] == q; assert h2[i] == q; }
      if q in h2 { var i :| 0 <= i < |h2| && h2[i] == q; assert h[i] == q; }
    }
  }

  // A deletion disturbs only the timestamps it reports.
  lemma RemoveAgrees(h: seq<Point>, ids: set<int>)
    requires Sorted(h)
    ensures AgreeOff(h, Remove(h, ids), set t | t in Removed(h, ids))
  {
    RemoveMembers(h, ids);
    RemovedTimes(h, ids);
  }

  lemma RemovedOne(h: seq<Point>, p: Point)
    requires DistinctIds(h) && p in h
    ensures forall t :: t in Removed(h, {p.id}) <==> t == p.ts
  {
    RemovedTimes(h, {p.id});
  }
}
