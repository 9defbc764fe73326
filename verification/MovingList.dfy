// The walk over a list that changes between two requests: which check-ins it hands over, and which it
// steps over.

module MovingList {
  import opened Clock
  import opened PageWalk
  import opened StableWalk

  // The server answers the request made at this turn with a page that has the check-in.
  predicate Answers(server: Server, turn: nat, c: Checkin) {
    var response := server(turn, turn * PAGE_LIMIT);
    response.Page? && c in response.items
  }

  // From this request on, the walk hands a check-in over exactly when some request is answered with it and
  // it lies in the window.
  ghost predicate HandsOverAnswers(server: Server, after: int, turn: nat, previous: int, c: Checkin)
    requires turn > 0 ==> previous * SECOND >= after
  {
    var w := WalkFrom(server, after, turn, previous);
    c in FlattenPages(w.pages) <==>
    Within(c, after) && exists k: nat :: turn <= k < turn + w.requests && Answers(server, k, c)
  }

  lemma LastAnswer(server: Server, after: int, turn: nat, previous: int, c: Checkin)
    requires turn > 0 ==> previous * SECOND >= after
    requires WalkFrom(server, after, turn, previous).requests == 1
    ensures HandsOverAnswers(server, after, turn, previous, c)
  {
    var response := server(turn, turn * PAGE_LIMIT);
    assert Answers(server, turn, c) <==> response.Page? && c in response.items;
    if response.Page? && response.items != [] {
      WalkStep(server, after, turn, previous);
      InWindowMembers(response.items, after, c);
    }
  }

  lemma AnswerAndMore(server: Server, after: int, turn: nat, previous: int, c: Checkin)
    requires turn > 0 ==> previous * SECOND >= after
    requires var response := server(turn, turn * PAGE_LIMIT);
             && response.Page? && GoesOn(response.items, after) && !(turn > 0 && Oldest(response.items) >= previous)
             && HandsOverAnswers(server, after, turn + 1, Oldest(response.items), c)
    ensures HandsOverAnswers(server, after, turn, previous, c)
  {
    var page := server(turn, turn * PAGE_LIMIT).items;
    WalkStep(server, after, turn, previous);
    InWindowMembers(page, after, c);
    assert Answers(server, turn, c) <==> c in page;
  }

  lemma {:induction false} HandedFrom(server: Server, after: int, turn: nat, previous: int, c: Checkin)
    requires turn > 0 ==> previous * SECOND >= after
    ensures HandsOverAnswers(server, after, turn, previous, c)
    decreases if turn == 0 then 1 else 0, previous - Unix(after)
  {
    var response := server(turn, turn * PAGE_LIMIT);
    if response.Page? && GoesOn(response.items, after) && !(turn > 0 && Oldest(response.items) >= previous) {
      UnixMonotone(after, Oldest(response.items) * SECOND);
      HandedFrom(server, after, turn + 1, Oldest(response.items), c);
      AnswerAndMore(server, after, turn, previous, c);
    } else {
      LastAnswer(server, after, turn, previous, c);
    }
  }

  // Against any server, a check-in is handed over exactly when one of the requests made is answered with
  // it and it lies in the window.
  lemma HandedIffAnswered(server: Server, after: int, c: Checkin)
    ensures var w := WholeWalk(server, after);
            c in FlattenPages(w.pages) <==>
            Within(c, after) && exists k: nat :: k < w.requests && Answers(server, k, c)
  {
    HandedFrom(server, after, 0, 0, c);
  }

  // Where a check-in stands in the list at each of the first n requests.
  ghost predicate StandsAt(lists: nat -> seq<Checkin>, c: Checkin, place: nat -> nat, n: nat) {
    forall k: nat :: k < n ==> place(k) < |lists(k)| && lists(k)[place(k)] == c
  }

  ghost predicate StandsOnlyAt(lists: nat -> seq<Checkin>, c: Checkin, place: nat -> nat, n: nat) {
    && StandsAt(lists, c, place, n)
    && forall k: nat, i: nat :: k < n && i < |lists(k)| && lists(k)[i] == c ==> i == place(k)
  }

  ghost predicate NewestFirstUpTo(lists: nat -> seq<Checkin>, n: nat) {
    forall k: nat :: k < n ==> NewestFirst(lists(k))
  }

  // It stands on the page asked for.
  ghost predicate OnPage(place: nat -> nat, k: nat) {
    k * PAGE_LIMIT <= place(k) < (k + 1) * PAGE_LIMIT
  }

  // From this turn to the k-th it stands behind every page asked for, and at the next request it stands
  // ahead of the page.
  ghost predicate SteppedOverFrom(place: nat -> nat, turn: nat, k: nat) {
    && (forall m: nat :: turn <= m <= k ==> place(m) >= (m + 1) * PAGE_LIMIT)
    && place(k + 1) < (k + 1) * PAGE_LIMIT
  }

  ghost predicate SteppedOver(place: nat -> nat, k: nat) {
    SteppedOverFrom(place, 0, k)
  }

  // A page that stops short of a check-in of the window is full and reaches no further back than it.
  lemma ReachesNoFurther(list: seq<Checkin>, offset: nat, place: nat, after: int)
    requires NewestFirst(list)
    requires offset + PAGE_LIMIT <= place < |list| && list[place].createdAt * SECOND >= after
    ensures GoesOn(Slice(list, offset), after)
  {
    var page := Slice(list, offset);
    OldestIsOldest(page);
    var i :| 0 <= i < |page| && page[i].createdAt == Oldest(page);
    assert list[offset + i].createdAt >= list[place].createdAt;
  }

  // A completed walk goes on past a page that stops short of a check-in of the window.
  lemma GoesOnTowards(lists: nat -> seq<Checkin>, after: int, turn: nat, previous: int, c: Checkin, place: nat -> nat,
                      n: nat) returns (oldest: int)
    requires turn > 0 ==> previous * SECOND >= after
    requires n == turn + WalkFrom(Honest(lists), after, turn, previous).requests
    requires NewestFirstUpTo(lists, n) && StandsAt(lists, c, place, n) && AtOrAfter(c, after)
    requires WalkFrom(Honest(lists), after, turn, previous).ending == Complete
    requires place(turn) >= (turn + 1) * PAGE_LIMIT
    ensures oldest * SECOND >= after
    ensures WalkFrom(Honest(lists), after, turn + 1, oldest).ending == Complete
    ensures turn + 1 < n == turn + 1 + WalkFrom(Honest(lists), after, turn + 1, oldest).requests
  {
    assert Honest(lists)(turn, turn * PAGE_LIMIT) == Page(Slice(lists(turn), turn * PAGE_LIMIT));
    ReachesNoFurther(lists(turn), turn * PAGE_LIMIT, place(turn), after);
    WalkStep(Honest(lists), after, turn, previous);
    oldest := Oldest(Slice(lists(turn), turn * PAGE_LIMIT));
  }

  lemma StepsOverNow(place: nat -> nat, turn: nat)
    requires place(turn) >= (turn + 1) * PAGE_LIMIT > place(turn + 1)
    ensures SteppedOverFrom(place, turn, turn)
  {
  }

  lemma StepsOverLater(place: nat -> nat, turn: nat, k: nat)
    requires place(turn) >= (turn + 1) * PAGE_LIMIT
    ensures SteppedOverFrom(place, turn + 1, k) ==> SteppedOverFrom(place, turn, k)
  {
  }

  // A walk that completes with a check-in of the window still ahead asks for a page it stands on, or
  // steps over it. n counts the requests made up to the end.
  lemma {:induction false} ReadOrSteppedOver(lists: nat -> seq<Checkin>, after: int, turn: nat, previous: int,
                                             c: Checkin, place: nat -> nat, n: nat) returns (k: nat, read: bool)
    requires turn > 0 ==> previous * SECOND >= after
    requires n == turn + WalkFrom(Honest(lists), after, turn, previous).requests
    requires NewestFirstUpTo(lists, n) && StandsAt(lists, c, place, n)
    requires WalkFrom(Honest(lists), after, turn, previous).ending == Complete
    requires AtOrAfter(c, after) && place(turn) >= turn * PAGE_LIMIT
    ensures turn <= k < n
    ensures if read then OnPage(place, k) else k + 1 < n && SteppedOverFrom(place, turn, k)
    decreases n - turn
  {
    k, read := turn, place(turn) < (turn + 1) * PAGE_LIMIT;
    if !read {
      var oldest := GoesOnTowards(lists, after, turn, previous, c, place, n);
      if place(turn + 1) < (turn + 1) * PAGE_LIMIT {
        StepsOverNow(place, turn);
      } else {
        k, read := ReadOrSteppedOver(lists, after, turn + 1, oldest, c, place, n);
        StepsOverLater(place, turn, k);
      }
    }
  }

  lemma AnswersOnPage(lists: nat -> seq<Checkin>, c: Checkin, place: nat -> nat, n: nat, k: nat)
    requires k < n && StandsAt(lists, c, place, n)
    ensures OnPage(place, k) ==> Answers(Honest(lists), k, c)
    ensures StandsOnlyAt(lists, c, place, n) && Answers(Honest(lists), k, c) ==> OnPage(place, k)
  {
    var page := Slice(lists(k), k * PAGE_LIMIT);
    assert Honest(lists)(k, k * PAGE_LIMIT) == Page(page);
    if OnPage(place, k) {
      assert page[place(k) - k * PAGE_LIMIT] == c;
    }
    if StandsOnlyAt(lists, c, place, n) && c in page {
      var i: nat :| i < |page| && page[i] == c;
      assert lists(k)[k * PAGE_LIMIT + i] == c;
    }
  }

  // Whatever becomes of the list, as long as it is newest first: a completed walk hands over a check-in
  // of the window that is there at every request, unless it steps over it.
  lemma CoverageUnlessSteppedOver(lists: nat -> seq<Checkin>, after: int, c: Checkin, place: nat -> nat)
    requires var n := WholeWalk(Honest(lists), after).requests;
             && NewestFirstUpTo(lists, n) && StandsAt(lists, c, place, n)
             && forall k: nat :: k + 1 < n ==> !SteppedOver(place, k)
    requires WholeWalk(Honest(lists), after).ending == Complete && AtOrAfter(c, after)
    ensures c in FlattenPages(WholeWalk(Honest(lists), after).pages)
  {
    var k, read := ReadOrSteppedOver(lists, after, 0, 0, c, place, WholeWalk(Honest(lists), after).requests);
    assert !read ==> SteppedOver(place, k);
    AnswersOnPage(lists, c, place, WholeWalk(Honest(lists), after).requests, k);
    HandedIffAnswered(Honest(lists), after, c);
    UnixMonotone(after, c.createdAt * SECOND);
  }

  // However it ends, a walk misses a check-in it has stepped over and does not come upon again.
  lemma SteppedOverIsMissed(lists: nat -> seq<Checkin>, after: int, c: Checkin, place: nat -> nat, k: nat)
    requires var n := WholeWalk(Honest(lists), after).requests;
             && StandsOnlyAt(lists, c, place, n) && SteppedOver(place, k)
             && forall m: nat :: k < m < n ==> !OnPage(place, m)
    ensures c !in FlattenPages(WholeWalk(Honest(lists), after).pages)
  {
    var n := WholeWalk(Honest(lists), after).requests;
    forall m: nat | m < n
      ensures !Answers(Honest(lists), m, c)
    {
      assert m <= k ==> place(m) >= (m + 1) * PAGE_LIMIT;
      AnswersOnPage(lists, c, place, n, m);
    }
    HandedIffAnswered(Honest(lists), after, c);
  }

  // So a completed walk misses a check-in of the window that is there once at every request if and only
  // if it steps over it and does not come upon it again.
  lemma MissedIffSteppedOver(lists: nat -> seq<Checkin>, after: int, c: Checkin, place: nat -> nat)
    requires var n := WholeWalk(Honest(lists), after).requests;
             NewestFirstUpTo(lists, n) && StandsOnlyAt(lists, c, place, n)
    requires WholeWalk(Honest(lists), after).ending == Complete && AtOrAfter(c, after)
    ensures var w := WholeWalk(Honest(lists), after);
            c !in FlattenPages(w.pages) <==>
            exists k: nat :: k + 1 < w.requests && SteppedOver(place, k)
                             && forall m: nat :: k < m < w.requests ==> !OnPage(place, m)
  {
    var w := WholeWalk(Honest(lists), after);
    if c !in FlattenPages(w.pages) {
      HandedIffAnswered(Honest(lists), after, c);
      UnixMonotone(after, c.createdAt * SECOND);
      forall m: nat | m < w.requests
        ensures !OnPage(place, m)
      {
        AnswersOnPage(lists, c, place, w.requests, m);
        assert !Answers(Honest(lists), m, c);
      }
      var k, read := ReadOrSteppedOver(lists, after, 0, 0, c, place, WholeWalk(Honest(lists), after).requests);
      assert SteppedOver(place, k);
    }
    if k: nat :| k + 1 < w.requests && SteppedOver(place, k)
                 && forall m: nat :: k < m < w.requests ==> !OnPage(place, m) {
      SteppedOverIsMissed(lists, after, c, place, k);
    }
  }

  // Every entry of a is still in b, further down or where it was, in the same order: places says where.
  ghost predicate Inserted(a: seq<Checkin>, b: seq<Checkin>, places: seq<nat>) {
    && |places| == |a|
    && (forall i, j :: 0 <= i < j < |places| ==> places[i] < places[j])
    && (forall i :: 0 <= i < |places| ==> places[i] < |b| && b[places[i]] == a[i])
  }

  ghost predicate InsertOnly(a: seq<Checkin>, b: seq<Checkin>) {
    exists places :: Inserted(a, b, places)
  }

  lemma {:induction false} PlacesOnlyGrow(a: seq<Checkin>, b: seq<Checkin>, places: seq<nat>, i: nat)
    requires Inserted(a, b, places) && i < |places|
    ensures places[i] >= i
  {
    if i > 0 {
      PlacesOnlyGrow(a, b, places, i - 1);
    }
  }

  // One step of a list that changes only by insertions, newest first throughout.
  ghost predicate GrowsAt(lists: nat -> seq<Checkin>, k: nat) {
    NewestFirst(lists(k)) && InsertOnly(lists(k), lists(k + 1))
  }

  ghost predicate GrowingList(lists: nat -> seq<Checkin>) {
    forall k: nat :: GrowsAt(lists, k)
  }

  // Where the entry that stood at start at the first request stands at the k-th.
  ghost function PlaceOf(lists: nat -> seq<Checkin>, start: nat, k: nat): (place: nat)
    requires GrowingList(lists) && start < |lists(0)|
    ensures place < |lists(k)| && lists(k)[place] == lists(0)[start]
  {
    if k == 0 then start else
      var before := PlaceOf(lists, start, k - 1);
      assert GrowsAt(lists, k - 1);
      var places :| Inserted(lists(k - 1), lists(k), places);
      places[before]
  }

  lemma PlaceMovesDown(lists: nat -> seq<Checkin>, start: nat, k: nat)
    requires GrowingList(lists) && start < |lists(0)|
    ensures PlaceOf(lists, start, k + 1) >= PlaceOf(lists, start, k)
  {
    assert GrowsAt(lists, k);
    var before := PlaceOf(lists, start, k);
    var places :| Inserted(lists(k), lists(k + 1), places) && PlaceOf(lists, start, k + 1) == places[before];
    PlacesOnlyGrow(lists(k), lists(k + 1), places, before);
  }

  // In particular nothing is stepped over in a list that only grows: a walk that completes has handed
  // over every check-in of the window that was there at its first request.
  lemma Coverage(lists: nat -> seq<Checkin>, after: int, c: Checkin)
    requires GrowingList(lists)
    requires c in lists(0) && AtOrAfter(c, after)
    requires WholeWalk(Honest(lists), after).ending == Complete
    ensures c in FlattenPages(WholeWalk(Honest(lists), after).pages)
  {
    var start: nat :| start < |lists(0)| && lists(0)[start] == c;
    var place := (k: nat) => PlaceOf(lists, start, k);
    forall k: nat
      ensures !SteppedOver(place, k) && NewestFirst(lists(k))
    {
      assert GrowsAt(lists, k);
      PlaceMovesDown(lists, start, k);
      assert place(k) >= (k + 1) * PAGE_LIMIT ==> place(k + 1) >= (k + 1) * PAGE_LIMIT;
    }
    CoverageUnlessSteppedOver(lists, after, c, place);
  }

  // A list one entry of which is removed once the first page has been read.
  function Shortened(list: seq<Checkin>, i: nat): nat -> seq<Checkin>
    requires i < |list|
  {
    (turn: nat) => if turn == 0 then list else list[..i] + list[i + 1..]
  }

  // Removing any entry of the first page once it has been read makes the walk miss the first check-in
  // of the second, if that is in the window and stands in the list once.
  lemma RemovalStepsOver(list: seq<Checkin>, i: nat, after: int)
    requires NewestFirst(list) && i < PAGE_LIMIT < |list| && AtOrAfter(list[PAGE_LIMIT], after)
    requires forall j :: 0 <= j < |list| && list[j] == list[PAGE_LIMIT] ==> j == PAGE_LIMIT
    ensures list[PAGE_LIMIT] !in FlattenPages(WholeWalk(Honest(Shortened(list, i)), after).pages)
  {
    var lists, c := Shortened(list, i), list[PAGE_LIMIT];
    var place := (k: nat) => if k == 0 then PAGE_LIMIT else PAGE_LIMIT - 1;
    StandsOncePerList(list, i, place);
    assert SteppedOver(place, 0);
    SteppedOverIsMissed(lists, after, c, place, 0);
  }

  lemma StandsOncePerList(list: seq<Checkin>, i: nat, place: nat -> nat)
    requires i < PAGE_LIMIT < |list|
    requires forall j :: 0 <= j < |list| && list[j] == list[PAGE_LIMIT] ==> j == PAGE_LIMIT
    requires forall k: nat :: place(k) == if k == 0 then PAGE_LIMIT else PAGE_LIMIT - 1
    ensures forall n: nat :: StandsOnlyAt(Shortened(list, i), list[PAGE_LIMIT], place, n)
  {
    var rest := list[..i] + list[i + 1..];
    assert forall j :: 0 <= j < |rest| ==> rest[j] == list[if j < i then j else j + 1];
  }

  // n check-ins, the newest first, a second apart.
  function Countdown(n: nat): (list: seq<Checkin>)
    ensures |list| == n
    ensures forall i :: 0 <= i < n ==> list[i].createdAt == n - i
  {
    seq(n, i requires 0 <= i < n => Checkin(CheckinId(seq(n - i, _ => 'x')), n - i, Payload("")))
  }

  lemma OneFullPage(lists: nat -> seq<Checkin>, after: int)
    requires NewestFirst(lists(0)) && Passes(lists(0), after, 0) && |lists(1)| <= PAGE_LIMIT
    ensures WholeWalk(Honest(lists), after).ending == Complete
    ensures FlattenPages(WholeWalk(Honest(lists), after).pages) == InWindow(Slice(lists(0), 0), after)
  {
    var page := Slice(lists(0), 0);
    assert Honest(lists)(0, 0) == Page(page);
    assert Honest(lists)(1, PAGE_LIMIT) == Page([]);
    OldestIsLast(lists(0), 0);
    WalkStep(Honest(lists), after, 0, 0);
    assert WalkFrom(Honest(lists), after, 1, Oldest(page)) == Walk([], Complete, 1);
  }

  lemma ShortenedCompletes(list: seq<Checkin>, after: int)
    requires |list| == PAGE_LIMIT + 1 && NewestFirst(list) && AtOrAfter(list[PAGE_LIMIT], after)
    ensures WholeWalk(Honest(Shortened(list, 0)), after).ending == Complete
  {
    assert list[PAGE_LIMIT - 1].createdAt >= list[PAGE_LIMIT].createdAt;
    OneFullPage(Shortened(list, 0), after);
  }

  // And the walk may complete all the same, as over 251 check-ins a second apart when the newest goes.
  lemma CompletedWalkMisses()
    ensures var list := Countdown(PAGE_LIMIT + 1);
            var w := WholeWalk(Honest(Shortened(list, 0)), 0);
            && NewestFirst(list) && AtOrAfter(list[PAGE_LIMIT], 0)
            && w.ending == Complete && list[PAGE_LIMIT] !in FlattenPages(w.pages)
  {
    var list := Countdown(PAGE_LIMIT + 1);
    ShortenedCompletes(list, 0);
    RemovalStepsOver(list, 0, 0);
  }
}
