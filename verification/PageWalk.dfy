// The walk over a user's check-ins, page by page, of a list that the server may change between two
// requests.

module PageWalk {
  import opened Clock

  // Foursquare's own id of a check-in; nothing looks inside it.
  datatype CheckinId = CheckinId(hex: string)

  datatype Payload = Payload(json: string)

  // A check-in on the wire: its id, its creation time in Unix seconds, and everything else about it.
  datatype Checkin = Checkin(id: CheckinId, createdAt: int, content: Payload)

  // The answer to one request: a page of check-ins, or an error.
  datatype Response = Page(items: seq<Checkin>) | Refused

  const PAGE_LIMIT := 250

  // Go's zero time.Time, 1 January of year 1.
  const ZERO_TIME: int := -62_135_596_800 * SECOND

  /** An arbitrary server: what it answers to the request made at a given turn with a given offset. */
  type Server = (nat, nat) -> Response

  function Oldest(page: seq<Checkin>): int
    requires page != []
  {
    if |page| == 1 then page[0].createdAt else
      var t, last := Oldest(page[..|page| - 1]), page[|page| - 1];
      if last.createdAt < t then last.createdAt else t
  }

  // It is a time of the page, and no check-in of the page is older.
  lemma {:induction false} OldestIsOldest(page: seq<Checkin>)
    requires page != []
    ensures forall i :: 0 <= i < |page| ==> Oldest(page) <= page[i].createdAt
    ensures exists i :: 0 <= i < |page| && page[i].createdAt == Oldest(page)
  {
    var init, last := page[..|page| - 1], page[|page| - 1];
    if init == [] {
      assert page[0].createdAt == Oldest(page);
    } else {
      OldestIsOldest(init);
      var i :| 0 <= i < |init| && init[i].createdAt == Oldest(init);
      assert page[i].createdAt == Oldest(init) && page[|page| - 1] == last;
      assert forall j :: 0 <= j < |init| ==> init[j] == page[j];
    }
  }

  // oldestCreatedAt: a loop for the page's minimum.
  method OldestCreatedAt(page: seq<Checkin>) returns (oldest: int)
    requires page != []
    ensures oldest == Oldest(page)
  {
    oldest := page[0].createdAt;
    for i := 1 to |page|
      invariant oldest == Oldest(page[..i])
    {
      assert page[..i + 1][..i] == page[..i];
      if page[i].createdAt < oldest {
        oldest := page[i].createdAt;
      }
    }
    assert page[..|page|] == page;
  }

  // Is this check-in handed over by a walk from `after`? Its fraction of a second is ignored, and the
  // zero time stands for no bound at all.
  predicate Within(c: Checkin, after: int) {
    after == ZERO_TIME || c.createdAt >= Unix(after)
  }

  function InWindow(page: seq<Checkin>, after: int): seq<Checkin> {
    if page == [] then [] else
      var last := page[|page| - 1];
      InWindow(page[..|page| - 1], after) + if Within(last, after) then [last] else []
  }

  lemma {:induction false} InWindowMembers(page: seq<Checkin>, after: int, c: Checkin)
    ensures c in InWindow(page, after) <==> c in page && Within(c, after)
  {
    if page != [] {
      var init, last := page[..|page| - 1], page[|page| - 1];
      assert page == init + [last];
      InWindowMembers(init, after, c);
    }
  }

  lemma {:induction false} InWindowAppend(a: seq<Checkin>, b: seq<Checkin>, after: int)
    ensures InWindow(a + b, after) == InWindow(a, after) + InWindow(b, after)
  {
    if b == [] {
      assert a + b == a;
    } else {
      assert (a + b)[..|a + b| - 1] == a + b[..|b| - 1];
      InWindowAppend(a, b[..|b| - 1], after);
    }
  }

  // Of a single check-in, the window keeps it exactly if its second ends after the window's start; the zero
  // time keeps everything.
  lemma WindowOfOne(c: Checkin, after: int)
    ensures InWindow([c], after) == if after == ZERO_TIME || (c.createdAt + 1) * SECOND > after then [c] else []
  {
    assert [c][..0] == [];
  }

  // inWindow.
  method WindowOf(page: seq<Checkin>, after: int) returns (within: seq<Checkin>)
    ensures within == InWindow(page, after)
  {
    if after == ZERO_TIME {
      EverythingWithin(page, after);
      return page;
    }
    var start := Unix(after);
    within := [];
    for i := 0 to |page|
      invariant within == InWindow(page[..i], after)
    {
      assert page[..i + 1][..i] == page[..i];
      if page[i].createdAt >= start {
        within := within + [page[i]];
      }
    }
    assert page[..|page|] == page;
  }

  lemma {:induction false} EverythingWithin(page: seq<Checkin>, after: int)
    requires forall c :: c in page ==> Within(c, after)
    ensures InWindow(page, after) == page
  {
    if page != [] {
      var init, last := page[..|page| - 1], page[|page| - 1];
      assert page == init + [last];
      EverythingWithin(init, after);
      assert last in page;
    }
  }

  // How a walk ends, when its callback does not stop it.
  datatype Ending = Complete | NoProgress | ServerFailed

  // The pages handed over, how the walk ended, and how many requests it made.
  datatype Walk = Walk(pages: seq<seq<Checkin>>, ending: Ending, requests: nat)

  // The rest of a walk, from its turn-th request on; previous is the oldest time of the page before.
  function WalkFrom(server: Server, after: int, turn: nat, previous: int): (w: Walk)
    requires turn > 0 ==> previous * SECOND >= after
    ensures w.requests >= 1
    decreases if turn == 0 then 1 else 0, previous - Unix(after)
  {
    var response := server(turn, turn * PAGE_LIMIT);
    if response.Refused? then Walk([], ServerFailed, 1)
    else if response.items == [] then Walk([], Complete, 1)
    else
      var page := response.items;
      var oldest := Oldest(page);
      var within := InWindow(page, after);
      var handed := if within == [] then [] else [within];
      if |page| < PAGE_LIMIT || oldest * SECOND < after then Walk(handed, Complete, 1)
      else if turn > 0 && oldest >= previous then Walk(handed, NoProgress, 1)
      else
        UnixMonotone(after, oldest * SECOND);
        var rest := WalkFrom(server, after, turn + 1, oldest);
        Walk(handed + rest.pages, rest.ending, rest.requests + 1)
  }

  function WholeWalk(server: Server, after: int): Walk {
    WalkFrom(server, after, 0, 0)
  }

  // The first whole second not before `after`.
  function CeilingSecond(after: int): (s: int)
    ensures forall t: int :: t * SECOND >= after <==> t >= s
  {
    if Unix(after) * SECOND == after then Unix(after) else Unix(after) + 1
  }

  lemma {:induction false} RequestsLeft(server: Server, after: int, turn: nat, previous: int)
    requires turn > 0 && previous * SECOND >= after
    ensures WalkFrom(server, after, turn, previous).requests <= previous - CeilingSecond(after) + 1
    decreases previous - CeilingSecond(after)
  {
    var response := server(turn, turn * PAGE_LIMIT);
    if response.Page? && response.items != [] {
      var oldest := Oldest(response.items);
      if |response.items| >= PAGE_LIMIT && oldest * SECOND >= after && oldest < previous {
        RequestsLeft(server, after, turn + 1, oldest);
      }
    }
  }

  // Whatever the server answers, the walk ends: after the first page every page that goes on reaches
  // strictly further back, and none goes on past the start of the window.
  lemma WalkTerminates(server: Server, after: int)
    ensures var first := server(0, 0);
            WholeWalk(server, after).requests <=
            if first.Page? && first.items != [] && Oldest(first.items) >= CeilingSecond(after)
            then Oldest(first.items) - CeilingSecond(after) + 2
            else 1
  {
    var first := server(0, 0);
    if first.Page? && first.items != [] {
      var oldest := Oldest(first.items);
      if |first.items| >= PAGE_LIMIT && oldest * SECOND >= after {
        RequestsLeft(server, after, 1, oldest);
      }
    }
  }

  function FlattenPages(pages: seq<seq<Checkin>>): seq<Checkin> {
    if pages == [] then [] else pages[0] + FlattenPages(pages[1..])
  }

  /** A server that honours the offset over a list of its own: lists(k) is the list at the k-th
      request. */
  function Honest(lists: nat -> seq<Checkin>): Server {
    (turn: nat, offset: nat) => Page(Slice(lists(turn), offset))
  }

  function Slice(list: seq<Checkin>, offset: nat): seq<Checkin> {
    if offset >= |list| then [] else
      list[offset..if offset + PAGE_LIMIT < |list| then offset + PAGE_LIMIT else |list|]
  }

  ghost predicate NewestFirst(list: seq<Checkin>) {
    forall i, j :: 0 <= i < j < |list| ==> list[i].createdAt >= list[j].createdAt
  }

  // The walk asks for another page after this one.
  predicate GoesOn(page: seq<Checkin>, after: int) {
    |page| >= PAGE_LIMIT && Oldest(page) * SECOND >= after
  }

  // One request of a walk that got a page: what it hands over, and how the walk goes on.
  lemma WalkStep(server: Server, after: int, turn: nat, previous: int)
    requires turn > 0 ==> previous * SECOND >= after
    requires server(turn, turn * PAGE_LIMIT).Page? && server(turn, turn * PAGE_LIMIT).items != []
    ensures var page := server(turn, turn * PAGE_LIMIT).items;
            var w := WalkFrom(server, after, turn, previous);
            if !GoesOn(page, after) then
              w.ending == Complete && w.requests == 1 && FlattenPages(w.pages) == InWindow(page, after)
            else if turn > 0 && Oldest(page) >= previous then
              w.ending == NoProgress && w.requests == 1 && FlattenPages(w.pages) == InWindow(page, after)
            else
              var rest := WalkFrom(server, after, turn + 1, Oldest(page));
              && w.ending == rest.ending && w.requests == rest.requests + 1
              && FlattenPages(w.pages) == InWindow(page, after) + FlattenPages(rest.pages)
  {
    var page := server(turn, turn * PAGE_LIMIT).items;
    var within := InWindow(page, after);
    assert FlattenPages([within]) == within + FlattenPages([]);
    if GoesOn(page, after) && !(turn > 0 && Oldest(page) >= previous) {
      var rest := WalkFrom(server, after, turn + 1, Oldest(page)).pages;
      assert ([within] + rest)[1..] == rest;
      assert [] + rest == rest;
    }
  }

  // A page the walk does not stop at: full, and nothing on it older than the window's start.
  ghost predicate FullAndWithin(page: seq<Checkin>, after: int) {
    |page| >= PAGE_LIMIT && forall i :: 0 <= i < |page| ==> page[i].createdAt * SECOND >= after
  }

  lemma GoesOnIffFullAndWithin(page: seq<Checkin>, after: int)
    ensures GoesOn(page, after) <==> FullAndWithin(page, after)
  {
    if page != [] {
      OldestIsOldest(page);
    }
  }

  // Some check-in on the page is older than every one on the page before.
  ghost predicate ReachesBack(before: seq<Checkin>, page: seq<Checkin>) {
    exists i :: 0 <= i < |page| && forall j :: 0 <= j < |before| ==> page[i].createdAt < before[j].createdAt
  }

  lemma ReachesBackIffOlder(before: seq<Checkin>, page: seq<Checkin>)
    requires before != [] && page != []
    ensures ReachesBack(before, page) <==> Oldest(page) < Oldest(before)
  {
    OldestIsOldest(before);
    OldestIsOldest(page);
    if Oldest(page) < Oldest(before) {
      var i :| 0 <= i < |page| && page[i].createdAt == Oldest(page);
      assert forall j :: 0 <= j < |before| ==> page[i].createdAt < before[j].createdAt;
    }
  }

  // The answer to the k-th request of a walk.
  function Answer(server: Server, k: nat): Response {
    server(k, k * PAGE_LIMIT)
  }

  // The walk goes on after the k-th request: it was answered with a full page inside the window, which,
  // unless it is the first, reaches further back than the page before.
  ghost predicate Continues(server: Server, after: int, k: nat) {
    && Answer(server, k).Page? && FullAndWithin(Answer(server, k).items, after)
    && (k > 0 ==> Answer(server, k - 1).Page? && ReachesBack(Answer(server, k - 1).items, Answer(server, k).items))
  }

  // The walk ends like this at the k-th request, which the ones before led up to.
  ghost predicate EndsAt(server: Server, after: int, k: nat, ending: Ending) {
    match ending
    case ServerFailed => Answer(server, k).Refused?
    case Complete => Answer(server, k).Page? && !FullAndWithin(Answer(server, k).items, after)
    case NoProgress =>
      && Answer(server, k).Page? && FullAndWithin(Answer(server, k).items, after)
      && k > 0 && Answer(server, k - 1).Page? && !ReachesBack(Answer(server, k - 1).items, Answer(server, k).items)
  }

  // What the walk carries from the page before.
  ghost predicate Carries(server: Server, turn: nat, previous: int) {
    turn > 0 ==> Answer(server, turn - 1).Page? && Answer(server, turn - 1).items != []
                 && previous == Oldest(Answer(server, turn - 1).items)
  }

  // Whether the walk goes on after a request, in terms of what it computes.
  lemma GoesOnOrEnds(server: Server, after: int, turn: nat, previous: int)
    requires (turn > 0 ==> previous * SECOND >= after) && Carries(server, turn, previous)
    ensures var w := WalkFrom(server, after, turn, previous);
            if Continues(server, after, turn) then
              && var oldest := Oldest(Answer(server, turn).items);
              && oldest * SECOND >= after && (turn > 0 ==> oldest < previous)
              && var rest := WalkFrom(server, after, turn + 1, oldest);
              && w.ending == rest.ending && w.requests == rest.requests + 1
            else
              w.requests == 1 && EndsAt(server, after, turn, w.ending)
  {
    var response := Answer(server, turn);
    if response.Page? {
      GoesOnIffFullAndWithin(response.items, after);
      if turn > 0 && response.items != [] {
        ReachesBackIffOlder(Answer(server, turn - 1).items, response.items);
      }
    }
  }

  // From its turn-th request on, a walk goes on until the request it ends at, and ends as that is answered.
  ghost predicate EndsAsAnswered(server: Server, after: int, turn: nat, w: Walk) {
    && w.requests >= 1
    && EndsAt(server, after, turn + w.requests - 1, w.ending)
    && forall k: nat :: turn <= k < turn + w.requests - 1 ==> Continues(server, after, k)
  }

  lemma EndsOneSooner(server: Server, after: int, turn: nat, w: Walk, rest: Walk)
    requires Continues(server, after, turn) && EndsAsAnswered(server, after, turn + 1, rest)
    requires w.ending == rest.ending && w.requests == rest.requests + 1
    ensures EndsAsAnswered(server, after, turn, w)
  {
  }

  lemma {:induction false} EndsAfter(server: Server, after: int, turn: nat, previous: int)
    requires (turn > 0 ==> previous * SECOND >= after) && Carries(server, turn, previous)
    ensures EndsAsAnswered(server, after, turn, WalkFrom(server, after, turn, previous))
    decreases if turn == 0 then 1 else 0, previous - Unix(after)
  {
    GoesOnOrEnds(server, after, turn, previous);
    if Continues(server, after, turn) {
      var oldest := Oldest(Answer(server, turn).items);
      UnixMonotone(after, oldest * SECOND);
      EndsAfter(server, after, turn + 1, oldest);
      EndsOneSooner(server, after, turn, WalkFrom(server, after, turn, previous),
                    WalkFrom(server, after, turn + 1, oldest));
    }
  }

  // Against any server: every request of a walk but the last was answered with a page it goes on after, and
  // the answer to the last one is what the walk ends with - the server's failure if and only if it was
  // refused, complete if and only if it is a page that is not full or reaches past the window's start, and
  // no progress if and only if it is a full page inside the window that reaches no further back.
  lemma WalkEndsAsAnswered(server: Server, after: int)
    ensures var w := WholeWalk(server, after);
            var last := w.requests - 1;
            && last >= 0
            && (forall k: nat :: k < last ==> Continues(server, after, k))
            && (w.ending == ServerFailed <==> EndsAt(server, after, last, ServerFailed))
            && (w.ending == Complete <==> EndsAt(server, after, last, Complete))
            && (w.ending == NoProgress <==> EndsAt(server, after, last, NoProgress))
  {
    EndsAfter(server, after, 0, 0);
  }
}
