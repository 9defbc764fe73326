// Where the window of a check-in fetch starts, from the number of days it is told to look back.

module SyncWindow {
  import opened Clock
  import opened PageWalk
  import opened StableWalk

  // Sync's bound: the run's start, cut to the second, less the look-back. Negating wraps as well.
  function WindowStart(clock: int, lookback: Duration): int {
    Unix(clock) * SECOND + Int64(-(lookback as int))
  }

  const MAX_DAYS := 106_751

  // The window starts that many days before the run exactly when the days fit into a Duration, that is
  // up to 106 751 of them, and never otherwise: no wrapped product is a look-back of the days asked for.
  lemma WindowLooksBackDays(clock: int, days: int)
    requires days >= 1
    ensures WindowStart(clock, Lookback(days)) == Unix(clock) * SECOND - days * DAY <==> days * DAY <= MAX_DURATION
    ensures days * DAY <= MAX_DURATION <==> days <= MAX_DAYS
  {
    var product := days * DAY;
    var wraps := product / WRAP;
    assert product % WRAP == product - wraps * WRAP;
    assert product != MAX_DURATION + 1;
  }

  // Then it starts on a whole second, and the cut is the documented window unless that is the zero time,
  // which no clock past 1970 reaches.
  lemma WindowOfDaysIsExact(clock: int, days: int)
    requires 1 <= days <= MAX_DAYS
    ensures var after := WindowStart(clock, Lookback(days));
            && (after != ZERO_TIME <==> forall c: Checkin :: Within(c, after) <==> AtOrAfter(c, after))
            && (clock >= 0 ==> after != ZERO_TIME)
            && forall c: Checkin :: AtOrAfter(c, after) <==> c.createdAt >= Unix(clock) - days * DAY_SECONDS
  {
    WindowLooksBackDays(clock, days);
    WindowIsExact(WindowStart(clock, Lookback(days)));
  }

  // One day more, and the product wraps: the window starts in the future and off a whole second, so the
  // cut is not the documented one either.
  lemma OneDayTooMany(clock: int)
    ensures var after := WindowStart(clock, Lookback(MAX_DAYS + 1));
            && Lookback(MAX_DAYS + 1) < 0
            && after > Unix(clock) * SECOND && Unix(after) * SECOND != after
            && !(forall c: Checkin :: Within(c, after) <==> AtOrAfter(c, after))
  {
    WindowIsExact(WindowStart(clock, Lookback(MAX_DAYS + 1)));
  }

  // A walk from a time after everything on its first page completes at once, and hands over nothing.
  lemma NothingAfterTheWindow(server: Server, after: int)
    requires server(0, 0).Page? && forall c :: c in server(0, 0).items ==> c.createdAt < Unix(after)
    requires after != ZERO_TIME
    ensures WholeWalk(server, after) == Walk([], Complete, 1)
  {
    var page := server(0, 0).items;
    if page != [] {
      NothingWithin(page, after);
      OldestIsOldest(page);
      var i :| 0 <= i < |page| && page[i].createdAt == Oldest(page);
      assert page[i] in page;
    }
  }

  // With that look-back a run sees none of the check-ins there are, and takes that for a complete walk.
  lemma OneDayTooManySyncsNothing(server: Server, clock: int)
    requires server(0, 0).Page? && forall c :: c in server(0, 0).items ==> c.createdAt <= Unix(clock)
    ensures WholeWalk(server, WindowStart(clock, Lookback(MAX_DAYS + 1))) == Walk([], Complete, 1)
  {
    OneDayTooMany(clock);
    NothingAfterTheWindow(server, WindowStart(clock, Lookback(MAX_DAYS + 1)));
  }
}
