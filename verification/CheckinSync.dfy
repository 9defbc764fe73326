// One run of the periodic check-in fetch: walk the pages, write each check-in once, and record how far
// the account is synced only when the whole walk succeeded. Pushes and disconnects go on around it.

module CheckinSync {
  import opened Options
  import opened Faults
  import opened Clock
  import opened PageWalk
  import opened StableWalk
  import opened MovingList
  import opened SyncWindow
  import opened Checkins

  datatype Failure = Refusal | NoMoreProgress | StoreFailure | Unlinked

  datatype Outcome = Ok | Err(failure: Failure)

  function Ids(s: seq<Checkin>): set<CheckinId> {
    set c | c in s :: c.id
  }

  // The first check-in of each id, in order.
  function FirstOfEach(s: seq<Checkin>): seq<Checkin> {
    if s == [] then [] else
      var last := s[|s| - 1];
      FirstOfEach(s[..|s| - 1]) + if last.id in Ids(s[..|s| - 1]) then [] else [last]
  }

  lemma IdsSnoc(s: seq<Checkin>, c: Checkin)
    ensures Ids(s + [c]) == Ids(s) + {c.id}
  {
    assert forall d :: d in s + [c] <==> d in s || d == c;
  }

  lemma FirstOfEachSnoc(s: seq<Checkin>, c: Checkin)
    ensures FirstOfEach(s + [c]) == if c.id in Ids(s) then FirstOfEach(s) else FirstOfEach(s) + [c]
  {
    assert (s + [c])[..|s|] == s;
  }

  // There are as many of them as ids.
  lemma {:induction false} FirstOfEachIsOnePerId(s: seq<Checkin>)
    ensures |FirstOfEach(s)| == |Ids(s)| && Ids(FirstOfEach(s)) == Ids(s)
  {
    if s == [] {
      assert Ids(s) == {};
    } else {
      var init, last := s[..|s| - 1], s[|s| - 1];
      FirstOfEachIsOnePerId(init);
      assert s == init + [last];
      IdsSnoc(init, last);
      FirstOfEachSnoc(init, last);
      IdsSnoc(FirstOfEach(init), last);
    }
  }

  // They are the first of their ids.
  lemma {:induction false} FirstOfEachIsFirst(s: seq<Checkin>, c: Checkin)
    ensures c in FirstOfEach(s) <==> exists i :: 0 <= i < |s| && s[i] == c && forall j :: 0 <= j < i ==> s[j].id != c.id
  {
    if s != [] {
      var init, last := s[..|s| - 1], s[|s| - 1];
      assert s == init + [last];
      FirstOfEachIsFirst(init, c);
      assert last.id in Ids(init) <==> exists j :: 0 <= j < |init| && init[j].id == last.id;
      assert forall j :: 0 <= j < |init| ==> init[j] == s[j];
    }
  }

  predicate IsOwn(w: Write, run: int, user: int) {
    w.run == run && w.user == user && w.source == FromSync
  }

  // What one sync run wrote for a user, in order, picked out of a log of everyone's writes.
  function OwnWrites(log: seq<Write>, run: int, user: int): seq<Checkin> {
    if log == [] then [] else
      var last := log[|log| - 1];
      OwnWrites(log[..|log| - 1], run, user) + if IsOwn(last, run, user) then [last.checkin] else []
  }

  lemma OwnWritesSnoc(log: seq<Write>, w: Write, run: int, user: int)
    ensures OwnWrites(log + [w], run, user)
            == OwnWrites(log, run, user) + if IsOwn(w, run, user) then [w.checkin] else []
  {
    assert (log + [w])[..|log|] == log;
  }

  lemma {:induction false} OwnWritesStored(log: seq<Write>, run: int, user: int)
    ensures Ids(OwnWrites(log, run, user)) <= UpsertAll(log).Keys
  {
    if log == [] {
      assert Ids([]) == {};
    } else {
      var init, last := log[..|log| - 1], log[|log| - 1];
      OwnWritesStored(init, run, user);
      IdsSnoc(OwnWrites(init, run, user), last.checkin);
      assert last.checkin.id in UpsertAll(log);
      assert OwnWrites(init, run, user) + [] == OwnWrites(init, run, user);
    }
  }

  // What recording a sync makes of the accounts.
  ghost predicate Recorded(r: Outcome, user: int, second: int,
                           before: map<int, Option<int>>, after: map<int, Option<int>>) {
    match r
    case Ok => user in before && after == before[user := Some(second)]
    case Err(Unlinked) => user !in before && after == before
    case Err(_) => r == Err(StoreFailure) && after == before
  }

  // The write is this run's, of these columns.
  predicate HasColumns(w: Write, user: int, source: Source, checkin: Checkin, run: int) {
    w.user == user && w.source == source && w.checkin == checkin && w.run == run
  }

  class CheckinStore {
    var rows: Rows
    // The second each linked account is synced through, if it ever was.
    var accounts: map<int, Option<int>>
    // Every write the store has taken, by whichever path, in order.
    ghost var log: seq<Write>
    // Which of a run's statements fail, and how many there have been.
    const faulty: Schedule
    var statements: nat

    ghost predicate Valid()
      reads this
    {
      rows == UpsertAll(log)
    }

    // Some statement since has failed.
    ghost predicate FaultSince(from: nat)
      reads this`statements
    {
      Faulted(faulty, from, statements)
    }

    constructor (faulty: Schedule)
      ensures Valid() && log == [] && accounts == map[] && this.faulty == faulty && statements == 0
    {
      rows, accounts, statements, this.faulty := map[], map[], 0, faulty;
      log := [];
    }

    // A store's failure is answered only if some statement since has failed.
    ghost predicate FaultsAnswered(r: Outcome, from: nat)
      reads this`statements
    {
      from <= statements && (r == Err(StoreFailure) ==> FaultSince(from))
    }

    // One statement of a run reaches the database.
    method Attempt() returns (failed: bool)
      modifies this`statements
      ensures statements == old(statements) + 1 && failed == faulty(old(statements))
      ensures failed ==> FaultSince(old(statements))
    {
      failed := faulty(statements);
      statements := statements + 1;
    }

    // Other runs and pushes write check-ins between two statements of a run.
    method OthersWrite(run: int)
      requires Valid()
      modifies this`rows, this`log
      ensures Valid() && old(log) <= log
      ensures forall user :: OwnWrites(log, run, user) == OwnWrites(old(log), run, user)
    {
      var writes: seq<Write> := *;
      for i := 0 to |writes|
        invariant Valid() && old(log) <= log
        invariant forall user :: OwnWrites(log, run, user) == OwnWrites(old(log), run, user)
      {
        var w := writes[i];
        if w.run != run {
          Take(w);
        }
      }
    }

    method Take(w: Write)
      requires Valid()
      modifies this`rows, this`log
      ensures Valid() && log == old(log) + [w]
      ensures forall run, user :: OwnWrites(log, run, user)
                                 == OwnWrites(old(log), run, user) + if IsOwn(w, run, user) then [w.checkin] else []
    {
      rows := Upserted(rows, w);
      log := log + [w];
      assert log[..|log| - 1] == old(log);
      forall run, user
        ensures OwnWrites(log, run, user)
                == OwnWrites(old(log), run, user) + if IsOwn(w, run, user) then [w.checkin] else []
      {
        OwnWritesSnoc(old(log), w, run, user);
      }
    }

    // Write, which is Upsert, once others have had their turn. The row id and the second of the write are
    // the store's to choose.
    method Upsert(user: int, source: Source, checkin: Checkin, run: int) returns (r: Outcome)
      requires Valid()
      modifies this`rows, this`log, this`statements
      ensures Valid() && old(log) <= log && old(statements) <= statements
      ensures r == Ok || (r == Err(StoreFailure) && FaultSince(old(statements)))
      ensures r == Ok ==> |log| > |old(log)| && HasColumns(log[|log| - 1], user, source, checkin, run)
      ensures OwnWrites(log, run, user)
              == OwnWrites(old(log), run, user) + if r == Ok && source == FromSync then [checkin] else []
    {
      OthersWrite(run);
      var failed := Attempt();
      if failed {
        return Err(StoreFailure);
      }
      var rowId: int, at: int := *, *;
      Take(Write(rowId, user, source, checkin, at, run));
      r := Ok;
    }

    // Accounts are linked, unlinked and synced by others at any time.
    method OthersChangeAccounts(accounts: map<int, Option<int>>)
      modifies this`accounts
      ensures this.accounts == accounts
    {
      this.accounts := accounts;
    }

    method UpdateSyncedThrough(user: int, second: int) returns (r: Outcome)
      modifies this`accounts, this`statements
      ensures Recorded(r, user, second, old(accounts), accounts)
      ensures old(statements) <= statements && (r == Err(StoreFailure) ==> FaultSince(old(statements)))
    {
      var failed := Attempt();
      if failed {
        return Err(StoreFailure);
      }
      if user !in accounts {
        return Err(Unlinked);
      }
      accounts := accounts[user := Some(second)];
      r := Ok;
    }
  }

  lemma PartOf(done: seq<Checkin>, page: seq<Checkin>, i: nat)
    requires i < |page|
    ensures done + page[..i + 1] == done + page[..i] + [page[i]]
    ensures done <= done + page[..i] < done + page
  {
  }

  // The callback of one run, with what it closes over.
  class Collector {
    const store: CheckinStore
    const user: int
    const run: int
    var seen: set<CheckinId>
    // What it has been handed and is done with.
    ghost var done: seq<Checkin>
    ghost const before: seq<Write>

    ghost predicate Valid()
      reads this, store
    {
      && store.Valid() && before <= store.log
      && seen == Ids(done) && OwnWrites(store.log, run, user) == FirstOfEach(done)
    }

    constructor (store: CheckinStore, user: int, run: int)
      requires store.Valid() && OwnWrites(store.log, run, user) == []
      ensures Valid() && this.store == store && this.user == user && this.run == run
      ensures before == store.log && done == []
    {
      this.store, this.user, this.run, seen := store, user, run, {};
      done, before := [], store.log;
    }

    method HandleOne(fetched: Checkin) returns (r: Outcome)
      requires Valid()
      modifies this, store`rows, store`log, store`statements
      ensures Valid()
      ensures r == Ok ==> done == old(done) + [fetched]
      ensures r != Ok ==> r == Err(StoreFailure) && done == old(done)
      ensures store.FaultsAnswered(r, old(store.statements))
    {
      IdsSnoc(done, fetched);
      FirstOfEachSnoc(done, fetched);
      if fetched.id in seen {
        done := done + [fetched];
        assert seen == Ids(done);
        r := Ok;
      } else {
        r := store.Upsert(user, FromSync, fetched, run);
        if r == Ok {
          done, seen := done + [fetched], seen + {fetched.id};
        }
      }
    }

    method Handle(page: seq<Checkin>) returns (r: Outcome)
      requires Valid()
      modifies this, store`rows, store`log, store`statements
      ensures Valid()
      ensures r == Ok ==> done == old(done) + page
      ensures r != Ok ==> r == Err(StoreFailure) && old(done) <= done < old(done) + page
      ensures store.FaultsAnswered(r, old(store.statements))
    {
      for i := 0 to |page|
        invariant Valid() && old(store.statements) <= store.statements
        invariant done == old(done) + page[..i]
      {
        PartOf(old(done), page, i);
        r := HandleOne(page[i]);
        if r != Ok {
          return;
        }
      }
      assert page[..|page|] == page;
      r := Ok;
    }
  }

  // What is left of the walk, from this request on.
  ghost predicate Underway(server: Server, after: int, turn: nat, previous: int, rest: Walk) {
    (turn > 0 ==> previous * SECOND >= after) && rest == WalkFrom(server, after, turn, previous)
  }

  lemma NextPage(server: Server, after: int, turn: nat, previous: int, rest: Walk, done: seq<Checkin>)
      returns (later: Walk)
    requires Underway(server, after, turn, previous, rest)
    requires server(turn, turn * PAGE_LIMIT).Page? && server(turn, turn * PAGE_LIMIT).items != []
    ensures var page := server(turn, turn * PAGE_LIMIT).items;
            && done + FlattenPages(rest.pages) == (done + InWindow(page, after)) + FlattenPages(later.pages)
            && later.ending == rest.ending && later.requests < rest.requests
            && if !GoesOn(page, after) then later.pages == [] && later.ending == Complete
               else if turn > 0 && Oldest(page) >= previous then later.pages == [] && later.ending == NoProgress
               else Underway(server, after, turn + 1, Oldest(page), later)
  {
    WalkStep(server, after, turn, previous);
    var page := server(turn, turn * PAGE_LIMIT).items;
    later := if !GoesOn(page, after) || (turn > 0 && Oldest(page) >= previous) then Walk([], rest.ending, 0)
             else WalkFrom(server, after, turn + 1, Oldest(page));
  }

  // How a run's walk ended and what its callback is done with, against the walk nothing stops: pages is
  // all that one hands over.
  ghost predicate EndsAs(r: Outcome, done: seq<Checkin>, pages: seq<Checkin>, ending: Ending) {
    match r
    case Ok => ending == Complete && done == pages
    case Err(NoMoreProgress) => ending == NoProgress && done == pages
    case Err(Refusal) => ending == ServerFailed && done == pages
    case Err(StoreFailure) => done < pages
    case Err(Unlinked) => false
  }

  lemma ShortOf(done: seq<Checkin>, handed: seq<Checkin>, later: seq<Checkin>)
    requires done < handed
    ensures done < handed + later
  {
  }

  method HandOver(page: seq<Checkin>, after: int, run: Collector) returns (r: Outcome)
    requires run.Valid()
    modifies run, run.store`rows, run.store`log, run.store`statements
    ensures run.Valid()
    ensures r == Ok ==> run.done == old(run.done) + InWindow(page, after)
    ensures r != Ok ==> r == Err(StoreFailure) && old(run.done) <= run.done < old(run.done) + InWindow(page, after)
    ensures run.store.FaultsAnswered(r, old(run.store.statements))
  {
    var within := WindowOf(page, after);
    r := Ok;
    if |within| > 0 {
      r := run.Handle(within);
    }
  }

  // One turn of EachCheckinPage's loop. It goes on, or it ends the walk.
  method Turn(server: Server, after: int, turn: nat, offset: nat, previous: int, run: Collector,
      ghost pages: seq<Checkin>, ghost rest: Walk)
      returns (r: Outcome, more: bool, oldest: int, ghost later: Walk)
    requires offset == turn * PAGE_LIMIT && run.Valid()
    requires Underway(server, after, turn, previous, rest) && pages == run.done + FlattenPages(rest.pages)
    modifies run, run.store`rows, run.store`log, run.store`statements
    ensures run.Valid()
    ensures later.requests < rest.requests && later.ending == rest.ending
    ensures more ==> Underway(server, after, turn + 1, oldest, later) && pages == run.done + FlattenPages(later.pages)
    ensures !more ==> EndsAs(r, run.done, pages, rest.ending)
    ensures run.store.FaultsAnswered(r, old(run.store.statements))
  {
    r, more, oldest, later := Ok, false, previous, Walk([], rest.ending, 0);
    var response := server(turn, offset);
    if response.Refused? {
      r := Err(Refusal);
    } else if response.items != [] {
      var page := response.items;
      later := NextPage(server, after, turn, previous, rest, run.done);
      oldest := OldestCreatedAt(page);
      r := HandOver(page, after, run);
      if r != Ok {
        ShortOf(run.done, old(run.done) + InWindow(page, after), FlattenPages(later.pages));
      } else if |page| >= PAGE_LIMIT && oldest * SECOND >= after {
        if offset > 0 && oldest >= previous {
          r := Err(NoMoreProgress);
        } else {
          more := true;
        }
      }
    }
  }

  // EachCheckinPage, handing each page's check-ins of the window to the run's callback. Unless the
  // callback stops it, it ends as the walk does and has handed over all the walk does.
  method EachCheckinPage(server: Server, after: int, run: Collector) returns (r: Outcome)
    requires run.Valid() && run.done == []
    modifies run, run.store`rows, run.store`log, run.store`statements
    ensures run.Valid()
    ensures EndsAs(r, run.done, FlattenPages(WholeWalk(server, after).pages), WholeWalk(server, after).ending)
    ensures run.store.FaultsAnswered(r, old(run.store.statements))
  {
    var turn, offset, previous, more := 0, 0, 0, true;
    ghost var rest := WholeWalk(server, after);
    ghost var pages, ending := FlattenPages(rest.pages), rest.ending;
    r := Ok;
    while more
      invariant run.Valid() && ending == rest.ending
      invariant more ==> offset == turn * PAGE_LIMIT && Underway(server, after, turn, previous, rest)
                         && pages == run.done + FlattenPages(rest.pages)
      invariant !more ==> EndsAs(r, run.done, pages, ending)
      invariant run.store.FaultsAnswered(r, old(run.store.statements))
      decreases rest.requests
    {
      r, more, previous, rest := Turn(server, after, turn, offset, previous, run, pages, rest);
      turn, offset := turn + 1, offset + PAGE_LIMIT;
    }
  }

  // The walk a run starting at an instant of the clock makes.
  function SyncWalk(server: Server, clock: int, lookback: Duration): Walk {
    WholeWalk(server, WindowStart(clock, lookback))
  }

  // Every request of the walk was answered with a page, the last with one the walk completes at.
  ghost predicate AllAnswered(server: Server, after: int) {
    var n := WholeWalk(server, after).requests;
    && n >= 1 && EndsAt(server, after, n - 1, Complete)
    && forall k: nat :: k < n ==> Answer(server, k).Page?
  }

  lemma CompleteMeansAnswered(server: Server, after: int)
    requires WholeWalk(server, after).ending == Complete
    ensures AllAnswered(server, after)
  {
    WalkEndsAsAnswered(server, after);
    var n := WholeWalk(server, after).requests;
    forall k: nat | k < n
      ensures Answer(server, k).Page?
    {
      assert k < n - 1 ==> Continues(server, after, k);
    }
  }

  // Sync. Only a walk that ran to its end, every check-in of it stored, moves the account forward; an
  // account unlinked meanwhile, or a store that fails there, leaves the check-ins stored all the same.
  // run names it, and meanwhile is what others have made of the accounts by the end of the walk; walked
  // is how its walk ended and done what it dealt with, in the order it came.
  method Sync(store: CheckinStore, server: Server, user: int, clock: int, lookback: Duration, run: int,
      meanwhile: map<int, Option<int>>)
      returns (count: nat, r: Outcome, ghost walked: Outcome, ghost done: seq<Checkin>)
    requires store.Valid() && OwnWrites(store.log, run, user) == []
    modifies store
    ensures store.Valid() && old(store.log) <= store.log
    ensures OwnWrites(store.log, run, user) == FirstOfEach(done) && Ids(done) <= store.rows.Keys
    ensures count == |Ids(done)|
    ensures EndsAs(walked, done, FlattenPages(SyncWalk(server, clock, lookback).pages),
                   SyncWalk(server, clock, lookback).ending)
    ensures if walked == Ok then Recorded(r, user, Unix(clock), meanwhile, store.accounts)
            else r == walked && store.accounts == meanwhile
    ensures r == Err(StoreFailure) ==> store.FaultSince(old(store.statements))
    ensures r == Ok || store.accounts != meanwhile ==> AllAnswered(server, WindowStart(clock, lookback))
  {
    var now := Unix(clock) * SECOND;
    var collector := new Collector(store, user, run);
    r := EachCheckinPage(server, WindowStart(clock, lookback), collector);
    count, walked, done := |collector.seen|, r, collector.done;
    RunStored(store.log, run, user, done);
    if walked == Ok {
      CompleteMeansAnswered(server, WindowStart(clock, lookback));
    }
    store.OthersChangeAccounts(meanwhile);
    if r == Ok {
      r := store.UpdateSyncedThrough(user, Unix(now));
    }
  }

  lemma RunStored(log: seq<Write>, run: int, user: int, done: seq<Checkin>)
    requires OwnWrites(log, run, user) == FirstOfEach(done)
    ensures Ids(done) <= UpsertAll(log).Keys
  {
    OwnWritesStored(log, run, user);
    FirstOfEachIsOnePerId(done);
  }

  // What a run has of the pages of a complete walk, it has of every check-in of the window that was there
  // at its first request, if the server's list only grew while the run walked it.
  lemma SyncedIsStored(lists: nat -> seq<Checkin>, after: int, rows: Rows)
    requires GrowingList(lists) && WholeWalk(Honest(lists), after).ending == Complete
    requires Ids(FlattenPages(WholeWalk(Honest(lists), after).pages)) <= rows.Keys
    ensures forall c :: c in lists(0) && AtOrAfter(c, after) ==> c.id in rows
  {
    forall c | c in lists(0) && AtOrAfter(c, after)
      ensures c.id in rows
    {
      Coverage(lists, after, c);
      assert c.id in Ids(FlattenPages(WholeWalk(Honest(lists), after).pages));
    }
  }

  // What a run is for, from the configured days to the rows: over a list that only grows while it is
  // walked, a run that succeeds leaves a row for every check-in of those days that was there at its first
  // request.
  method SyncDays(store: CheckinStore, lists: nat -> seq<Checkin>, user: int, clock: int, days: int, run: int,
      meanwhile: map<int, Option<int>>) returns (count: nat, r: Outcome)
    requires store.Valid() && OwnWrites(store.log, run, user) == []
    requires GrowingList(lists) && days >= 1
    modifies store
    ensures store.Valid()
    ensures r == Ok ==>
              forall c :: c in lists(0) && AtOrAfter(c, WindowStart(clock, Lookback(days))) ==> c.id in store.rows
    ensures r == Ok && days <= MAX_DAYS ==>
              forall c :: c in lists(0) && c.createdAt >= Unix(clock) - days * DAY_SECONDS ==> c.id in store.rows
  {
    ghost var walked, done;
    count, r, walked, done := Sync(store, Honest(lists), user, clock, Lookback(days), run, meanwhile);
    if r == Ok {
      SyncedIsStored(lists, WindowStart(clock, Lookback(days)), store.rows);
    }
    if days <= MAX_DAYS {
      WindowOfDaysIsExact(clock, days);
    }
  }
}
