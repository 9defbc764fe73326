// The walk over a list that does not change while it is read: when it gives up, and what it hands over.

module StableWalk {
  import opened Clock
  import opened PageWalk

  function Unchanging(list: seq<Checkin>): nat -> seq<Checkin> {
    (turn: nat) => list
  }

  // The k-th full page ends, inside the window, in the very second the page before it ended in.
  ghost predicate StallsAt(list: seq<Checkin>, after: int, k: nat) {
    && k >= 1
    && (k + 1) * PAGE_LIMIT <= |list|
    && list[(k + 1) * PAGE_LIMIT - 1].createdAt == list[k * PAGE_LIMIT - 1].createdAt
    && list[(k + 1) * PAGE_LIMIT - 1].createdAt * SECOND >= after
  }

  // A full page of a newest-first list ends with its oldest check-in.
  lemma OldestIsLast(list: seq<Checkin>, turn: nat)
    requires NewestFirst(list) && (turn + 1) * PAGE_LIMIT <= |list|
    ensures |Slice(list, turn * PAGE_LIMIT)| == PAGE_LIMIT
    ensures Oldest(Slice(list, turn * PAGE_LIMIT)) == list[(turn + 1) * PAGE_LIMIT - 1].createdAt
  {
    var page := Slice(list, turn * PAGE_LIMIT);
    OldestIsOldest(page);
    var i :| 0 <= i < |page| && page[i].createdAt == Oldest(page);
    assert Oldest(page) <= page[PAGE_LIMIT - 1].createdAt;
    assert list[turn * PAGE_LIMIT + i].createdAt >= list[(turn + 1) * PAGE_LIMIT - 1].createdAt;
  }

  // Whether the walk gets past the page it asks for at this turn.
  ghost predicate Passes(list: seq<Checkin>, after: int, turn: nat) {
    (turn + 1) * PAGE_LIMIT <= |list| && list[(turn + 1) * PAGE_LIMIT - 1].createdAt * SECOND >= after
  }

  // What the walk carries into this turn, once it has passed every page before it.
  ghost predicate Arrives(list: seq<Checkin>, after: int, turn: nat, previous: int) {
    turn > 0 ==>
      turn * PAGE_LIMIT <= |list| && previous == list[turn * PAGE_LIMIT - 1].createdAt && previous * SECOND >= after
  }

  // A page that is not passed ends the walk for good.
  lemma EndsHere(list: seq<Checkin>, after: int, turn: nat, previous: int)
    requires NewestFirst(list) && Arrives(list, after, turn, previous)
    requires !Passes(list, after, turn)
    ensures WalkFrom(Honest(Unchanging(list)), after, turn, previous).ending == Complete
    ensures FlattenPages(WalkFrom(Honest(Unchanging(list)), after, turn, previous).pages)
            == InWindow(Slice(list, turn * PAGE_LIMIT), after)
  {
    var page := Slice(list, turn * PAGE_LIMIT);
    assert Honest(Unchanging(list))(turn, turn * PAGE_LIMIT) == Page(page);
    if page != [] {
      WalkStep(Honest(Unchanging(list)), after, turn, previous);
      if (turn + 1) * PAGE_LIMIT <= |list| {
        OldestIsLast(list, turn);
      }
    }
  }

  // A page that is passed is handed over, and the walk goes on unless it reaches no further back.
  lemma GoesPast(list: seq<Checkin>, after: int, turn: nat, previous: int)
    requires NewestFirst(list) && Arrives(list, after, turn, previous)
    requires Passes(list, after, turn)
    ensures var w := WalkFrom(Honest(Unchanging(list)), after, turn, previous);
            var oldest := list[(turn + 1) * PAGE_LIMIT - 1].createdAt;
            if StallsAt(list, after, turn) then w.ending == NoProgress
            else
              var rest := WalkFrom(Honest(Unchanging(list)), after, turn + 1, oldest);
              && (turn > 0 ==> oldest < previous)
              && w.ending == rest.ending
              && FlattenPages(w.pages) == InWindow(Slice(list, turn * PAGE_LIMIT), after) + FlattenPages(rest.pages)
  {
    var page := Slice(list, turn * PAGE_LIMIT);
    assert Honest(Unchanging(list))(turn, turn * PAGE_LIMIT) == Page(page);
    OldestIsLast(list, turn);
    if turn > 0 {
      assert list[turn * PAGE_LIMIT - 1].createdAt >= list[(turn + 1) * PAGE_LIMIT - 1].createdAt;
    }
    WalkStep(Honest(Unchanging(list)), after, turn, previous);
  }

  ghost predicate StallsFrom(list: seq<Checkin>, after: int, turn: nat) {
    exists k: nat :: k >= turn && StallsAt(list, after, k)
  }

  lemma NoStallPastTheEnd(list: seq<Checkin>, after: int, turn: nat)
    requires NewestFirst(list) && !Passes(list, after, turn)
    ensures !StallsFrom(list, after, turn)
  {
    forall k: nat | k >= turn
      ensures !StallsAt(list, after, k)
    {
      if k > turn && (k + 1) * PAGE_LIMIT <= |list| {
        assert list[(turn + 1) * PAGE_LIMIT - 1].createdAt >= list[(k + 1) * PAGE_LIMIT - 1].createdAt;
      }
    }
  }

  lemma StallsLater(list: seq<Checkin>, after: int, turn: nat)
    ensures StallsFrom(list, after, turn) <==> StallsAt(list, after, turn) || StallsFrom(list, after, turn + 1)
  {
  }

  // How the walk ends, from a turn on.
  ghost predicate EndsStably(list: seq<Checkin>, after: int, turn: nat, previous: int) {
    && Arrives(list, after, turn, previous)
    && WalkFrom(Honest(Unchanging(list)), after, turn, previous).ending
       == if StallsFrom(list, after, turn) then NoProgress else Complete
  }

  lemma EndsAsTheRest(list: seq<Checkin>, after: int, turn: nat, previous: int)
    requires NewestFirst(list) && Arrives(list, after, turn, previous) && Passes(list, after, turn)
    requires !StallsAt(list, after, turn) ==>
               EndsStably(list, after, turn + 1, list[(turn + 1) * PAGE_LIMIT - 1].createdAt)
    ensures EndsStably(list, after, turn, previous)
  {
    GoesPast(list, after, turn, previous);
    StallsLater(list, after, turn);
  }

  lemma {:induction false} StablyFrom(list: seq<Checkin>, after: int, turn: nat, previous: int)
    requires NewestFirst(list) && Arrives(list, after, turn, previous)
    ensures EndsStably(list, after, turn, previous)
    decreases |list| - turn * PAGE_LIMIT
  {
    if !Passes(list, after, turn) {
      EndsHere(list, after, turn, previous);
      NoStallPastTheEnd(list, after, turn);
    } else {
      if !StallsAt(list, after, turn) {
        StablyFrom(list, after, turn + 1, list[(turn + 1) * PAGE_LIMIT - 1].createdAt);
      }
      EndsAsTheRest(list, after, turn, previous);
    }
  }

  // Over an unchanging newest-first list the walk gives up exactly when some full page after the first
  // ends in the same second as the page before it.
  lemma StableWalkEnds(list: seq<Checkin>, after: int)
    requires NewestFirst(list)
    ensures var ending := WholeWalk(Honest(Unchanging(list)), after).ending;
            && (ending == NoProgress <==> exists k: nat :: StallsAt(list, after, k))
            && (ending == NoProgress || ending == Complete)
  {
    StablyFrom(list, after, 0, 0);
  }

  // The window as documented: at or after its start.
  predicate AtOrAfter(c: Checkin, after: int) {
    c.createdAt * SECOND >= after
  }

  // The window the pages are cut down to is the documented one exactly when it starts on a whole second
  // other than the zero time.
  lemma WindowIsExact(after: int)
    ensures (forall c: Checkin :: Within(c, after) <==> AtOrAfter(c, after))
            <==> after != ZERO_TIME && Unix(after) * SECOND == after
  {
    var early := Checkin(CheckinId(""), Unix(ZERO_TIME) - 1, Payload(""));
    var first := early.(createdAt := Unix(after));
    assert after == ZERO_TIME ==> Within(early, after) && !AtOrAfter(early, after);
    assert Within(first, after) && (AtOrAfter(first, after) <==> Unix(after) * SECOND == after);
    if after != ZERO_TIME && Unix(after) * SECOND == after {
      forall c: Checkin
        ensures Within(c, after) <==> AtOrAfter(c, after)
      {
      }
    }
  }

  ghost predicate Sharp(list: seq<Checkin>, after: int) {
    forall c :: c in list ==> (Within(c, after) <==> AtOrAfter(c, after))
  }

  lemma {:induction false} NothingWithin(list: seq<Checkin>, after: int)
    requires forall c :: c in list ==> !Within(c, after)
    ensures InWindow(list, after) == []
  {
    if list != [] {
      var init, last := list[..|list| - 1], list[|list| - 1];
      assert list == init + [last];
      NothingWithin(init, after);
    }
  }

  // What is left of a list from a page on: that page, and what is left after it.
  lemma LeftFrom(list: seq<Checkin>, after: int, turn: nat)
    requires turn * PAGE_LIMIT <= |list|
    ensures var next := if (turn + 1) * PAGE_LIMIT <= |list| then (turn + 1) * PAGE_LIMIT else |list|;
            InWindow(list[turn * PAGE_LIMIT..], after)
            == InWindow(Slice(list, turn * PAGE_LIMIT), after) + InWindow(list[next..], after)
  {
    var next := if (turn + 1) * PAGE_LIMIT <= |list| then (turn + 1) * PAGE_LIMIT else |list|;
    var page := Slice(list, turn * PAGE_LIMIT);
    assert list[turn * PAGE_LIMIT..] == page + list[next..];
    InWindowAppend(page, list[next..], after);
  }

  lemma NothingLeft(list: seq<Checkin>, after: int, turn: nat)
    requires NewestFirst(list) && Sharp(list, after)
    requires (turn + 1) * PAGE_LIMIT <= |list| && !Passes(list, after, turn)
    ensures InWindow(list[(turn + 1) * PAGE_LIMIT..], after) == []
  {
    var left := list[(turn + 1) * PAGE_LIMIT..];
    forall c | c in left
      ensures !Within(c, after)
    {
      var i :| 0 <= i < |left| && left[i] == c;
      assert list[(turn + 1) * PAGE_LIMIT + i] == c;
      assert list[(turn + 1) * PAGE_LIMIT - 1].createdAt >= c.createdAt;
      assert !AtOrAfter(c, after);
    }
    NothingWithin(left, after);
  }

  // From this turn on, the walk hands over what the list has left in the window.
  ghost predicate HandsOver(list: seq<Checkin>, after: int, turn: nat, previous: int) {
    && turn * PAGE_LIMIT <= |list|
    && Arrives(list, after, turn, previous)
    && FlattenPages(WalkFrom(Honest(Unchanging(list)), after, turn, previous).pages)
       == InWindow(list[turn * PAGE_LIMIT..], after)
  }

  lemma HandsOverLast(list: seq<Checkin>, after: int, turn: nat, previous: int)
    requires NewestFirst(list) && Sharp(list, after) && Arrives(list, after, turn, previous)
    requires !Passes(list, after, turn) && turn * PAGE_LIMIT <= |list|
    ensures HandsOver(list, after, turn, previous)
  {
    LeftFrom(list, after, turn);
    EndsHere(list, after, turn, previous);
    if (turn + 1) * PAGE_LIMIT <= |list| {
      NothingLeft(list, after, turn);
    }
  }

  lemma HandsOverMore(list: seq<Checkin>, after: int, turn: nat, previous: int)
    requires NewestFirst(list) && Sharp(list, after) && Arrives(list, after, turn, previous)
    requires Passes(list, after, turn) && !StallsAt(list, after, turn)
    requires HandsOver(list, after, turn + 1, list[(turn + 1) * PAGE_LIMIT - 1].createdAt)
    ensures HandsOver(list, after, turn, previous)
  {
    LeftFrom(list, after, turn);
    GoesPast(list, after, turn, previous);
  }

  lemma {:induction false} HandsOverFrom(list: seq<Checkin>, after: int, turn: nat, previous: int)
    requires NewestFirst(list) && Sharp(list, after) && Arrives(list, after, turn, previous)
    requires forall k: nat :: !StallsAt(list, after, k)
    requires turn * PAGE_LIMIT <= |list|
    ensures HandsOver(list, after, turn, previous)
    decreases |list| - turn * PAGE_LIMIT
  {
    if Passes(list, after, turn) {
      HandsOverFrom(list, after, turn + 1, list[(turn + 1) * PAGE_LIMIT - 1].createdAt);
      HandsOverMore(list, after, turn, previous);
    } else {
      HandsOverLast(list, after, turn, previous);
    }
  }

  // A walk of an unchanging list that completes has handed over exactly the check-ins of the window,
  // each once and in the list's order.
  lemma StableWalkHandsOver(list: seq<Checkin>, after: int)
    requires NewestFirst(list) && Sharp(list, after)
    requires WholeWalk(Honest(Unchanging(list)), after).ending == Complete
    ensures FlattenPages(WholeWalk(Honest(Unchanging(list)), after).pages) == InWindow(list, after)
  {
    StableWalkEnds(list, after);
    HandsOverFrom(list, after, 0, 0);
    assert list[0..] == list;
  }

  // No 251 consecutive check-ins share a second.
  ghost predicate Spread(list: seq<Checkin>) {
    forall i, j :: 0 <= i && j == i + PAGE_LIMIT && j < |list| ==> list[i].createdAt != list[j].createdAt
  }

  // In particular one in which no 251 consecutive check-ins share a second: its walk does complete.
  lemma StableWalkIsExact(list: seq<Checkin>, after: int)
    requires NewestFirst(list) && Sharp(list, after) && Spread(list)
    ensures var w := WholeWalk(Honest(Unchanging(list)), after);
            w.ending == Complete && FlattenPages(w.pages) == InWindow(list, after)
  {
    forall k: nat
      ensures !StallsAt(list, after, k)
    {
      if k >= 1 && (k + 1) * PAGE_LIMIT <= |list| {
        assert list[k * PAGE_LIMIT - 1].createdAt != list[(k + 1) * PAGE_LIMIT - 1].createdAt;
      }
    }
    StableWalkEnds(list, after);
    StableWalkHandsOver(list, after);
  }
}
