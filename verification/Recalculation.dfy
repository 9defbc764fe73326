// The recalculate command as a state machine of its own, run while the server of the Server module
// keeps committing and aborting transactions between the command's transactions.

module Recalculation {
  import opened Options
  import opened Clock
  import opened Histories
  import opened DailyStats
  import opened TrackSplitting
  import opened Tables
  import opened Server

  // Where the command stands: what it still has to do.
  datatype Phase =
    | Start                       // nothing done
    | Wiped                       // daily_stats deleted
    | DailyTodo(users: seq<int>)  // users listed; daily_stats of these still to rebuild
    | TracksTodo(users: seq<int>) // users listed again; tracks of these still to rebuild

  ghost predicate HasPointOn(cfg: Config, h: seq<Point>, day: int) {
    exists i :: 0 <= i < |h| && cfg.zone.dayOf(h[i].ts) == day
  }

  // One user's transaction: every day with a point is rebuilt, and nothing else is written.
  ghost predicate DailyRebuiltFor(cfg: Config, s: Tables, user: int, s2: Tables) {
    && s2 == s.(daily := s2.daily)
    && forall u, d :: StoredRow(s2.daily, u, d) ==
         if u == user && HasPointOn(cfg, History(s.points, u), d)
         then DayRow(cfg, History(s.points, u), d)
         else StoredRow(s.daily, u, d)
  }

  // The command's own steps, in order.
  ghost predicate CommandStep(cfg: Config, s: Tables, at: Phase, s2: Tables, next: Phase) {
    match at
    case Start => s2 == s.(daily := map[]) && next == Wiped
    case Wiped => s2 == s && next.DailyTodo? && ListsUsers(s.points, next.users)
    case DailyTodo(users) =>
      if users == [] then s2 == s && next.TracksTodo? && ListsUsers(s.points, next.users)
      else DailyRebuiltFor(cfg, s, users[0], s2) && next == DailyTodo(users[1..])
    case TracksTodo(users) =>
      users != [] && s2 == WithTracks(cfg, s, users[0]) && next == TracksTodo(users[1..])
  }

  // A step of the command, or a transaction of anyone else.
  datatype Move = Command | Other(event: Event)

  ghost predicate MoveStep(cfg: Config, s: Tables, at: Phase, move: Move, s2: Tables, next: Phase) {
    match move
    case Command => CommandStep(cfg, s, at, s2, next)
    case Other(e) => Step(cfg, s, e, s2) && next == at
  }

  ghost predicate IsInterleaving(cfg: Config, states: seq<Tables>, phases: seq<Phase>, moves: seq<Move>) {
    && |states| == |phases| == |moves| + 1
    && phases[0] == Start
    && forall i :: 0 <= i < |moves| ==> MoveStep(cfg, states[i], phases[i], moves[i], states[i + 1], phases[i + 1])
  }

  // A stored row may be missing, but is never wrong.
  ghost predicate RowSound(cfg: Config, s: Tables, user: int, day: int) {
    StoredRow(s.daily, user, day).None? || RowCorrect(cfg, s, user, day)
  }

  ghost predicate DailySound(cfg: Config, s: Tables) {
    forall u, d :: RowSound(cfg, s, u, d)
  }

  ghost predicate UserDailyCorrect(cfg: Config, s: Tables, user: int) {
    forall d :: RowCorrect(cfg, s, user, d)
  }

  // A user left without points has no tracks, or a job that will drop them.
  ghost predicate PointlessClear(s: Tables, user: int) {
    History(s.points, user) == [] ==> StoredTracks(s, user) == [] || Pending(s.queue, user)
  }

  // What holds of daily_stats at each phase.
  ghost predicate DailyProgress(cfg: Config, s: Tables, at: Phase) {
    && WellFormed(s)
    && match at
       case Start => true
       case Wiped => DailySound(cfg, s)
       case DailyTodo(users) => DailySound(cfg, s) && forall u :: u !in users ==> UserDailyCorrect(cfg, s, u)
       case TracksTodo(_) => DailyCorrect(cfg, s)
  }

  // What holds of tracks at each phase.
  ghost predicate TracksProgress(cfg: Config, s: Tables, at: Phase) {
    && WellFormed(s)
    && (forall u :: PointlessClear(s, u))
    && (at.TracksTodo? ==> forall u :: u !in at.users ==> FreshOrPending(cfg, s, u))
  }

  lemma EmptyDayRow(cfg: Config, h: seq<Point>, day: int)
    requires cfg.zone.Valid() && Sorted(h)
    ensures DayRow(cfg, h, day).Some? <==> HasPointOn(cfg, h, day)
  {
    var from, before := cfg.zone.start(day), cfg.zone.start(day + 1);
    CountIsRange(h, from, before);
    RangeMembers(h, from, before);
    var r := Range(h, from, before);
    if r != [] {
      assert r[0] in h;
      var i :| 0 <= i < |h| && h[i] == r[0];
      cfg.zone.DayUnique(h[i].ts, day);
    } else {
      forall i | 0 <= i < |h| ensures cfg.zone.dayOf(h[i].ts) != day {
        cfg.zone.DayUnique(h[i].ts, day);
        assert h[i] in h && h[i] !in r;
      }
    }
  }

  // Rebuilding the days that have points makes every row of a sound user right: a day without points
  // has no row to begin with.
  lemma RebuiltUserCorrect(cfg: Config, s: Tables, user: int, s2: Tables, u: int, d: int)
    requires cfg.zone.Valid() && WellFormed(s) && DailyRebuiltFor(cfg, s, user, s2)
    ensures RowSound(cfg, s, u, d) ==> RowSound(cfg, s2, u, d)
    ensures RowCorrect(cfg, s, u, d) ==> RowCorrect(cfg, s2, u, d)
    ensures RowSound(cfg, s, user, d) ==> RowCorrect(cfg, s2, user, d)
  {
    EmptyDayRow(cfg, History(s.points, user), d);
  }

  lemma OtherKeepsDaily(cfg: Config, s: Tables, e: Event, s2: Tables)
    requires cfg.zone.Valid() && Step(cfg, s, e, s2)
    ensures DailySound(cfg, s) ==> DailySound(cfg, s2)
    ensures forall u :: UserDailyCorrect(cfg, s, u) ==> UserDailyCorrect(cfg, s2, u)
  {
    forall u, d
      ensures RowSound(cfg, s, u, d) ==> RowSound(cfg, s2, u, d)
      ensures RowCorrect(cfg, s, u, d) ==> RowCorrect(cfg, s2, u, d)
    {
      StepRow(cfg, s, e, s2, u, d);
    }
  }

  lemma FreshMeansClear(cfg: Config, s: Tables, user: int)
    requires FreshOrPending(cfg, s, user)
    ensures PointlessClear(s, user)
  {
    assert TracksOf(cfg, []) == [];
  }

  lemma OtherKeepsTracks(cfg: Config, s: Tables, e: Event, s2: Tables, user: int)
    requires Step(cfg, s, e, s2)
    ensures PointlessClear(s, user) ==> PointlessClear(s2, user)
    ensures FreshOrPending(cfg, s, user) ==> FreshOrPending(cfg, s2, user)
  {
    StepTracks(cfg, s, e, s2, user);
    if FreshOrPending(cfg, s2, user) {
      FreshMeansClear(cfg, s2, user);
    }
  }

  lemma OtherKeepsProgress(cfg: Config, s: Tables, at: Phase, e: Event, s2: Tables)
    requires cfg.zone.Valid() && Step(cfg, s, e, s2)
    ensures DailyProgress(cfg, s, at) ==> DailyProgress(cfg, s2, at)
    ensures TracksProgress(cfg, s, at) ==> TracksProgress(cfg, s2, at)
  {
    StepWellFormed(cfg, s, e, s2);
    OtherKeepsDaily(cfg, s, e, s2);
    if DailyCorrect(cfg, s) {
      StepDaily(cfg, s, e, s2);
    }
    forall u
      ensures PointlessClear(s, u) ==> PointlessClear(s2, u)
      ensures FreshOrPending(cfg, s, u) ==> FreshOrPending(cfg, s2, u)
    {
      OtherKeepsTracks(cfg, s, e, s2, u);
    }
  }

  lemma WipeIsSound(cfg: Config, s: Tables)
    ensures DailySound(cfg, s.(daily := map[]))
  {
    var s2 := s.(daily := map[]);
    assert forall u, d :: StoredRow(s2.daily, u, d).None?;
  }

  // Users the listing leaves out have no points, so no rows and no tracks of their own are owed.
  lemma UnlistedDaily(cfg: Config, s: Tables, user: int)
    requires cfg.zone.Valid() && WellFormed(s) && DailySound(cfg, s) && History(s.points, user) == []
    ensures UserDailyCorrect(cfg, s, user)
  {
    forall d ensures RowCorrect(cfg, s, user, d) {
      assert RowSound(cfg, s, user, d);
      EmptyDayRow(cfg, [], d);
    }
  }

  lemma DailyTodoStep(cfg: Config, s: Tables, users: seq<int>, s2: Tables)
    requires cfg.zone.Valid() && users != [] && DailyProgress(cfg, s, DailyTodo(users))
    requires DailyRebuiltFor(cfg, s, users[0], s2)
    ensures DailyProgress(cfg, s2, DailyTodo(users[1..]))
  {
    forall u, d
      ensures RowSound(cfg, s2, u, d)
      ensures u !in users[1..] ==> RowCorrect(cfg, s2, u, d)
    {
      assert RowSound(cfg, s, u, d);
      assert u in users ==> u == users[0] || u in users[1..];
      assert u !in users ==> UserDailyCorrect(cfg, s, u);
      RebuiltUserCorrect(cfg, s, users[0], s2, u, d);
    }
  }

  lemma DailyListedStep(cfg: Config, s: Tables, users: seq<int>)
    requires cfg.zone.Valid() && DailyProgress(cfg, s, Wiped) && ListsUsers(s.points, users)
    ensures DailyProgress(cfg, s, DailyTodo(users))
  {
    forall u | u !in users ensures UserDailyCorrect(cfg, s, u) {
      UnlistedDaily(cfg, s, u);
    }
  }

  lemma DailyDone(cfg: Config, s: Tables)
    requires DailyProgress(cfg, s, DailyTodo([]))
    ensures DailyCorrect(cfg, s)
  {
    forall u, d ensures RowCorrect(cfg, s, u, d) {
      assert UserDailyCorrect(cfg, s, u);
    }
  }

  lemma TracksListedStep(cfg: Config, s: Tables, at: Phase, users: seq<int>)
    requires TracksProgress(cfg, s, at) && ListsUsers(s.points, users)
    ensures TracksProgress(cfg, s, TracksTodo(users))
  {
    forall u | u !in users ensures FreshOrPending(cfg, s, u) {
      assert PointlessClear(s, u);
      assert TracksOf(cfg, []) == [];
    }
  }

  lemma TracksTodoStep(cfg: Config, s: Tables, users: seq<int>)
    requires users != [] && TracksProgress(cfg, s, TracksTodo(users))
    ensures TracksProgress(cfg, WithTracks(cfg, s, users[0]), TracksTodo(users[1..]))
  {
    var s2 := WithTracks(cfg, s, users[0]);
    forall u
      ensures u !in users[1..] ==> FreshOrPending(cfg, s2, u)
      ensures PointlessClear(s2, u)
    {
      assert u in users ==> u == users[0] || u in users[1..];
      assert PointlessClear(s, u);
      if u == users[0] {
        FreshMeansClear(cfg, s2, u);
      } else if u !in users {
        assert FreshOrPending(cfg, s, u);
      }
    }
  }

  lemma MoveKeepsDaily(cfg: Config, s: Tables, at: Phase, move: Move, s2: Tables, next: Phase)
    requires cfg.zone.Valid() && MoveStep(cfg, s, at, move, s2, next) && DailyProgress(cfg, s, at)
    ensures DailyProgress(cfg, s2, next)
  {
    match move
    case Other(e) => OtherKeepsProgress(cfg, s, at, e, s2);
    case Command =>
      match at
      case Start => WipeIsSound(cfg, s);
      case Wiped => DailyListedStep(cfg, s, next.users);
      case DailyTodo(users) =>
        if users == [] {
          DailyDone(cfg, s);
        } else {
          DailyTodoStep(cfg, s, users, s2);
        }
      case TracksTodo(users) =>
        forall u, d ensures RowCorrect(cfg, s2, u, d) { assert RowCorrect(cfg, s, u, d); }
  }

  lemma MoveKeepsTracks(cfg: Config, s: Tables, at: Phase, move: Move, s2: Tables, next: Phase)
    requires cfg.zone.Valid() && MoveStep(cfg, s, at, move, s2, next) && TracksProgress(cfg, s, at)
    ensures TracksProgress(cfg, s2, next)
  {
    match move
    case Other(e) => OtherKeepsProgress(cfg, s, at, e, s2);
    case Command =>
      if at.TracksTodo? {
        TracksTodoStep(cfg, s, at.users);
      } else {
        forall u ensures PointlessClear(s2, u) { assert PointlessClear(s, u); }
        if next.TracksTodo? {
          TracksListedStep(cfg, s, at, next.users);
        }
      }
  }

  // From any starting daily_stats table, and whatever else commits or aborts in between: at every
  // moment after the wipe no stored row is wrong, and once the command has been through its users
  // every row is right or rightly absent, and stays so.
  lemma {:induction false} RecalculateInterleaved(
      cfg: Config, states: seq<Tables>, phases: seq<Phase>, moves: seq<Move>, i: nat)
    requires cfg.zone.Valid() && IsInterleaving(cfg, states, phases, moves) && i < |states|
    requires WellFormed(states[0])
    ensures DailyProgress(cfg, states[i], phases[i])
    ensures phases[i] != Start ==> DailySound(cfg, states[i])
    ensures phases[i] == DailyTodo([]) || phases[i].TracksTodo? ==> DailyCorrect(cfg, states[i])
  {
    if i > 0 {
      RecalculateInterleaved(cfg, states, phases, moves, i - 1);
      MoveKeepsDaily(cfg, states[i - 1], phases[i - 1], moves[i - 1], states[i], phases[i]);
    }
    if phases[i] == DailyTodo([]) {
      DailyDone(cfg, states[i]);
    }
    if phases[i].TracksTodo? {
      forall u, d ensures RowSound(cfg, states[i], u, d) {
        assert RowCorrect(cfg, states[i], u, d);
      }
    }
  }

  // If users without points start with no stale tracks, the command ends with every user's tracks
  // being what the points say under the new settings, or a job pending.
  lemma {:induction false} RecalculateTracksInterleaved(
      cfg: Config, states: seq<Tables>, phases: seq<Phase>, moves: seq<Move>, i: nat)
    requires cfg.zone.Valid() && IsInterleaving(cfg, states, phases, moves) && i < |states|
    requires WellFormed(states[0]) && forall u :: PointlessClear(states[0], u)
    ensures TracksProgress(cfg, states[i], phases[i])
    ensures phases[i] == TracksTodo([]) ==> TracksAccounted(cfg, states[i])
  {
    if i > 0 {
      RecalculateTracksInterleaved(cfg, states, phases, moves, i - 1);
      MoveKeepsTracks(cfg, states[i - 1], phases[i - 1], moves[i - 1], states[i], phases[i]);
    }
  }

  // After a change of break (or zone) the starting condition holds: tracks that were accounted for
  // under the old settings leave nothing behind for a user without points.
  lemma OldSettingsAreClear(before: Config, s: Tables)
    requires TracksAccounted(before, s)
    ensures forall u :: PointlessClear(s, u)
  {
    forall u ensures PointlessClear(s, u) {
      assert FreshOrPending(before, s, u);
      FreshMeansClear(before, s, u);
    }
  }

  // What RecalculateAll leaves behind when nothing else runs: it visits the users that have points.
  ghost predicate AllTracksRebuilt(cfg: Config, s: Tables, s2: Tables) {
    && s2 == s.(tracks := s2.tracks)
    && forall u :: StoredTracks(s2, u) ==
         if History(s.points, u) != [] then TracksOf(cfg, History(s.points, u)) else StoredTracks(s, u)
  }

  // It therefore repairs every inconsistency exactly when no user without points has stale tracks
  // and no pending job.
  lemma RecalculateAllRepairsIff(cfg: Config, s: Tables, s2: Tables)
    requires AllTracksRebuilt(cfg, s, s2)
    ensures TracksAccounted(cfg, s2) <==> forall u :: PointlessClear(s, u)
  {
    assert TracksOf(cfg, []) == [];
    if TracksAccounted(cfg, s2) {
      forall u ensures PointlessClear(s, u) {
        assert FreshOrPending(cfg, s2, u);
      }
    } else {
      var u :| !FreshOrPending(cfg, s2, u);
      assert !PointlessClear(s, u);
    }
  }

  // Such a table: user 7 has a track and no points, and the track survives.
  lemma RecalculateAllLeavesStaleTracks(cfg: Config, stale: Track)
    ensures var s := EMPTY.(tracks := map[7 := [stale]]);
            && WellFormed(s)
            && AllTracksRebuilt(cfg, s, s)
            && !TracksAccounted(cfg, s)
  {
    var s := EMPTY.(tracks := map[7 := [stale]]);
    assert !PointlessClear(s, 7);
    RecalculateAllRepairsIff(cfg, s, s);
  }
}
