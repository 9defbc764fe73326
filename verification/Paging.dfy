// The paged listings: one page is a LIMIT and an OFFSET over a filtered, ordered list.

module Paging {
  import opened Options
  import opened Clock
  import opened Histories
  import opened DailyStats
  import opened TrackSplitting
  import opened TrackProperties

  const MAX_INT: int := MAX_DURATION

  // What positiveInt answers for page and per_page.
  type Positive = n: int | 1 <= n <= MAX_INT witness 1

  // WHERE timestamp <= end_at, AND timestamp >= start_at if there is one.
  predicate Matches(p: Point, startAt: Option<int>, endAt: int) {
    p.ts <= Unix(endAt) && (startAt.Some? ==> p.ts >= Unix(startAt.value))
  }

  function Matching(h: seq<Point>, startAt: Option<int>, endAt: int): seq<Point> {
    if h == [] then [] else
      var last := h[|h| - 1];
      Matching(h[..|h| - 1], startAt, endAt) + if Matches(last, startAt, endAt) then [last] else []
  }

  function Reversed<T>(s: seq<T>): (r: seq<T>)
    ensures |r| == |s| && forall i :: 0 <= i < |s| ==> r[i] == s[|s| - 1 - i]
  {
    seq(|s|, i requires 0 <= i < |s| => s[|s| - 1 - i])
  }

  // SQLite's LIMIT ? OFFSET ?, a negative offset counting for none.
  function Limited<T>(rows: seq<T>, limit: nat, offset: int): seq<T> {
    if offset >= |rows| then [] else
      var from := if offset < 0 then 0 else offset;
      rows[from..if limit < |rows| - from then from + limit else |rows|]
  }

  // One page of a list, its offset worked out in Go's int.
  function Page<T>(rows: seq<T>, page: Positive, perPage: Positive): seq<T> {
    Limited(rows, perPage, Int64((page - 1) * perPage))
  }

  function Ordered(h: seq<Point>, startAt: Option<int>, endAt: int, ascending: bool): seq<Point> {
    var rows := Matching(h, startAt, endAt);
    if ascending then rows else Reversed(rows)
  }

  // pointRepository.List: a page, and how many points there are in all.
  function Listed(h: seq<Point>, startAt: Option<int>, endAt: int, ascending: bool, page: Positive, perPage: Positive):
    (seq<Point>, nat)
  {
    (Page(Ordered(h, startAt, endAt, ascending), page, perPage), |Matching(h, startAt, endAt)|)
  }

  // The X-Total-Pages header.
  function TotalPages(total: nat, perPage: Positive): int {
    TruncatedQuotient(Int64(total + perPage - 1), perPage)
  }

  lemma MulMonotone(a: int, b: int, c: nat)
    requires a <= b
    ensures a * c <= b * c
  {
    assert (b - a) * c >= 0;
  }

  // How many pages a list takes: the fewest that have room for it.
  function PageCount(total: nat, perPage: Positive): (n: nat)
    ensures n * perPage >= total
    ensures n > 0 ==> (n - 1) * perPage < total
  {
    if total == 0 then 0
    else if total <= perPage then 1
    else PageCount(total - perPage, perPage) + 1
  }

  lemma CountUnique(total: nat, perPage: Positive, n: nat)
    requires n * perPage >= total && (n > 0 ==> (n - 1) * perPage < total)
    ensures n == PageCount(total, perPage)
  {
    var m := PageCount(total, perPage);
    if n < m {
      MulMonotone(n, m - 1, perPage);
    } else if m < n {
      MulMonotone(m, n - 1, perPage);
    }
  }

  // The header is the number of pages exactly when the rounding-up does not leave 64 bits.
  lemma TotalPagesIsPageCount(total: nat, perPage: Positive)
    requires total <= MAX_INT
    ensures TotalPages(total, perPage) == PageCount(total, perPage) <==> total + perPage - 1 <= MAX_INT
  {
    if total + perPage - 1 <= MAX_INT {
      var q := TotalPages(total, perPage);
      assert q * perPage <= total + perPage - 1 < (q + 1) * perPage;
      assert (q - 1) * perPage == q * perPage - perPage && (q + 1) * perPage == q * perPage + perPage;
      if q < 0 {
        MulMonotone(q + 1, 0, perPage);
      }
      CountUnique(total, perPage, q);
    } else {
      var wrapped := Int64(total + perPage - 1);
      assert wrapped < 0 && TotalPages(total, perPage) == -((-wrapped) / perPage);
      assert PageCount(total, perPage) >= 1;
    }
  }

  function FirstPages<T>(rows: seq<T>, perPage: Positive, n: nat): seq<T>
    requires n <= MAX_INT
  {
    if n == 0 then [] else FirstPages(rows, perPage, n - 1) + Page(rows, n, perPage)
  }

  lemma PageIsSlice<T>(rows: seq<T>, page: Positive, perPage: Positive)
    requires |rows| <= MAX_INT && (page - 1) * perPage < |rows|
    ensures var from := (page - 1) * perPage;
            && from >= 0 && page * perPage == from + perPage
            && Page(rows, page, perPage) == rows[from..if from + perPage < |rows| then from + perPage else |rows|]
  {
    assert page * perPage == (page - 1) * perPage + perPage;
    MulMonotone(0, page - 1, perPage);
  }

  function Least(a: int, b: int): int {
    if a < b then a else b
  }

  lemma OnePageMore<T>(rows: seq<T>, perPage: Positive, n: Positive)
    requires |rows| <= MAX_INT && (n - 1) * perPage < |rows|
    ensures 0 <= (n - 1) * perPage && 0 <= n * perPage
    ensures rows[..(n - 1) * perPage] + Page(rows, n, perPage) == rows[..Least(n * perPage, |rows|)]
  {
    PageIsSlice(rows, n, perPage);
  }

  lemma {:induction false} FirstPagesArePrefix<T>(rows: seq<T>, perPage: Positive, n: nat)
    requires |rows| <= MAX_INT && n <= PageCount(|rows|, perPage) && n <= MAX_INT
    ensures 0 <= n * perPage && FirstPages(rows, perPage, n) == rows[..Least(n * perPage, |rows|)]
  {
    if n > 0 {
      MulMonotone(n - 1, PageCount(|rows|, perPage) - 1, perPage);
      FirstPagesArePrefix(rows, perPage, n - 1);
      OnePageMore(rows, perPage, n);
    }
  }

  lemma CountFits(total: nat, perPage: Positive)
    requires total <= MAX_INT
    ensures PageCount(total, perPage) <= MAX_INT
  {
    var n := PageCount(total, perPage);
    if n > 0 {
      MulMonotone(1, perPage, n - 1);
    }
  }

  lemma PageSize<T>(rows: seq<T>, page: Positive, perPage: Positive)
    requires |rows| <= MAX_INT && page <= PageCount(|rows|, perPage)
    ensures if page < PageCount(|rows|, perPage) then |Page(rows, page, perPage)| == perPage
            else 1 <= |Page(rows, page, perPage)| <= perPage
  {
    var n := PageCount(|rows|, perPage);
    MulMonotone(page - 1, n - 1, perPage);
    PageIsSlice(rows, page, perPage);
    if page < n {
      MulMonotone(page, n - 1, perPage);
    }
  }

  // The pages of a list, one after the other, are the list; all but the last are full, and the last is
  // not empty.
  lemma PagesMakeTheList<T>(rows: seq<T>, perPage: Positive)
    requires |rows| <= MAX_INT
    ensures var n := PageCount(|rows|, perPage);
            && n <= MAX_INT && FirstPages(rows, perPage, n) == rows
            && (forall p: Positive :: p < n ==> |Page(rows, p, perPage)| == perPage)
            && (n > 0 ==> 1 <= |Page(rows, n, perPage)| <= perPage)
  {
    var n := PageCount(|rows|, perPage);
    CountFits(|rows|, perPage);
    FirstPagesArePrefix(rows, perPage, n);
    forall p: Positive | p <= n
      ensures if p < n then |Page(rows, p, perPage)| == perPage else 1 <= |Page(rows, p, perPage)| <= perPage
    {
      PageSize(rows, p, perPage);
    }
  }

  // Past the last page, a page is empty exactly when its offset, as computed, is past the list: always,
  // unless the product leaves 64 bits.
  lemma LaterPagesAreEmpty<T>(rows: seq<T>, page: Positive, perPage: Positive)
    requires |rows| <= MAX_INT && page > PageCount(|rows|, perPage)
    ensures Page(rows, page, perPage) == [] <==> rows == [] || Int64((page - 1) * perPage) >= |rows|
    ensures (page - 1) * perPage <= MAX_INT ==> Page(rows, page, perPage) == []
  {
    MulMonotone(PageCount(|rows|, perPage), page - 1, perPage);
  }

  // When it does, a page far past the end can be the first page over again.
  lemma WrappedPageIsTheFirst<T>(rows: seq<T>)
    requires |rows| <= MAX_INT
    ensures Page(rows, 0x4000_0000_0000_0001, 4) == Page(rows, 1, 4)
  {
    assert Int64((0x4000_0000_0000_0001 - 1) * 4) == 0;
  }

  lemma {:induction false} MatchingMembers(h: seq<Point>, startAt: Option<int>, endAt: int)
    requires Sorted(h)
    ensures Sorted(Matching(h, startAt, endAt))
    ensures forall p :: p in Matching(h, startAt, endAt) <==> p in h && Matches(p, startAt, endAt)
  {
    if h != [] {
      var init, last := h[..|h| - 1], h[|h| - 1];
      assert h == init + [last];
      MatchingMembers(init, startAt, endAt);
      var before := Matching(init, startAt, endAt);
      forall i | 0 <= i < |before|
        ensures before[i].ts < last.ts
      {
        assert before[i] in init;
      }
    }
  }

  // The pages List answers for one to n, put together.
  function ListedPages(h: seq<Point>, startAt: Option<int>, endAt: int, ascending: bool, perPage: Positive, n: nat):
    seq<Point>
    requires n <= MAX_INT
  {
    if n == 0 then [] else
      ListedPages(h, startAt, endAt, ascending, perPage, n - 1) + Listed(h, startAt, endAt, ascending, n, perPage).0
  }

  lemma {:induction false} ListedPagesAreFirstPages(h: seq<Point>, startAt: Option<int>, endAt: int, ascending: bool,
                                                    perPage: Positive, n: nat)
    requires n <= MAX_INT
    ensures ListedPages(h, startAt, endAt, ascending, perPage, n)
            == FirstPages(Ordered(h, startAt, endAt, ascending), perPage, n)
  {
    if n > 0 {
      ListedPagesAreFirstPages(h, startAt, endAt, ascending, perPage, n - 1);
    }
  }

  // The range of a listing, whole seconds at both ends included.
  ghost predicate InRange(p: Point, startAt: Option<int>, endAt: int) {
    p.ts <= Unix(endAt) && match startAt case None => true case Some(start) => p.ts >= Unix(start)
  }

  ghost predicate OldestFirst(points: seq<Point>) {
    forall i, j :: 0 <= i < j < |points| ==> points[i].ts < points[j].ts
  }

  ghost predicate LatestFirst(points: seq<Point>) {
    forall i, j :: 0 <= i < j < |points| ==> points[i].ts > points[j].ts
  }

  // The pages answered, as many as the total answered with them calls for, hold exactly the points of the
  // range, each once, in the order asked for; and the total is how many those are.
  lemma ListingHoldsTheRange(h: seq<Point>, startAt: Option<int>, endAt: int, ascending: bool, perPage: Positive)
    requires Sorted(h) && |h| <= MAX_INT
    ensures var total := Listed(h, startAt, endAt, ascending, 1, perPage).1;
            var n := PageCount(total, perPage);
            n <= MAX_INT &&
            var all := ListedPages(h, startAt, endAt, ascending, perPage, n);
            && total == |all|
            && (forall p :: p in all <==> p in h && InRange(p, startAt, endAt))
            && (if ascending then OldestFirst(all) else LatestFirst(all))
  {
    var rows, ordered := Matching(h, startAt, endAt), Ordered(h, startAt, endAt, ascending);
    MatchingMembers(h, startAt, endAt);
    MatchingShorter(h, startAt, endAt);
    PagesMakeTheList(ordered, perPage);
    ReversedMembers(rows);
    ListedPagesAreFirstPages(h, startAt, endAt, ascending, perPage, PageCount(|rows|, perPage));
    forall p: Point
      ensures Matches(p, startAt, endAt) <==> InRange(p, startAt, endAt)
    {
    }
  }

  lemma ReversedMembers<T>(s: seq<T>)
    ensures Reversed(Reversed(s)) == s
    ensures forall x :: x in Reversed(s) <==> x in s
  {
    forall x
      ensures x in Reversed(s) <==> x in s
    {
      if i :| 0 <= i < |s| && s[i] == x {
        assert Reversed(s)[|s| - 1 - i] == x;
      }
    }
  }

  lemma {:induction false} MatchingShorter(h: seq<Point>, startAt: Option<int>, endAt: int)
    ensures |Matching(h, startAt, endAt)| <= |h|
  {
    if h != [] {
      MatchingShorter(h[..|h| - 1], startAt, endAt);
    }
  }

  // A closed range of seconds lists what the half-open one up to the next second holds.
  lemma MatchingIsRange(h: seq<Point>, startAt: int, endAt: int, from: int, to: int)
    requires Sorted(h) && from == Unix(startAt) && to == Unix(endAt)
    ensures Matching(h, Some(startAt), endAt) == Range(h, from, to + 1)
  {
    MatchingMembers(h, Some(startAt), endAt);
    RangeMembers(h, from, to + 1);
    SameMembersSameHistory(Matching(h, Some(startAt), endAt), Range(h, from, to + 1));
  }

  // GET /api/v1/tracks/{id}/points: whatever the page size, the pages put together are the points of the
  // track's own run, in order, coordinate by coordinate its geometry.
  lemma TrackPagesAreItsRun(cfg: Config, h: seq<Point>, t: Track, perPage: Positive)
    requires Sorted(h) && t in TracksOf(cfg, h) && |h| <= MAX_INT
    ensures var n := PageCount(Listed(h, Some(t.startAt * SECOND), t.endAt * SECOND, true, 1, perPage).1, perPage);
            n <= MAX_INT &&
            var all := ListedPages(h, Some(t.startAt * SECOND), t.endAt * SECOND, true, perPage, n);
            all in Runs(cfg.trackBreak, h) && Coordinates(all) == t.geometry
  {
    var rows := Ordered(h, Some(t.startAt * SECOND), t.endAt * SECOND, true);
    TrackRowsAreItsRun(cfg, h, t, rows);
    PagesMakeTheList(rows, perPage);
    var n := PageCount(|rows|, perPage);
    ListedPagesAreFirstPages(h, Some(t.startAt * SECOND), t.endAt * SECOND, true, perPage, n);
  }

  lemma TrackRowsAreItsRun(cfg: Config, h: seq<Point>, t: Track, rows: seq<Point>)
    requires Sorted(h) && t in TracksOf(cfg, h)
    requires rows == Matching(h, Some(t.startAt * SECOND), t.endAt * SECOND)
    ensures |rows| <= |h| && rows in Runs(cfg.trackBreak, h) && Coordinates(rows) == t.geometry
  {
    MatchingShorter(h, Some(t.startAt * SECOND), t.endAt * SECOND);
    UnixOfSecond(t.startAt);
    UnixOfSecond(t.endAt);
    MatchingIsRange(h, t.startAt * SECOND, t.endAt * SECOND, t.startAt, t.endAt);
    var i := TrackRangeIsGeometry(cfg, h, t);
    assert Runs(cfg.trackBreak, h)[i] == rows;
  }
}
