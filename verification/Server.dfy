// The server as a state machine over its tables: one step is one committed transaction of some
// process, or one that was rolled back. The theorems are about every interleaving.

module Server {
  import opened Options
  import opened Clock
  import opened Histories
  import opened DailyStats
  import opened TrackSplitting
  import opened Tables

  // The daily_stats table after a mutation: the owed days are recomputed, the others are left alone.
  ghost predicate OwedRebuilt(cfg: Config, daily: map<DayKey, DailyStat>, c: Change, daily2: map<DayKey, DailyStat>) {
    && GoodPoints(c.points, c.nextPoint)
    && forall u, d :: StoredRow(daily2, u, d) ==
         if Owed(cfg.zone, History(c.points, u), TouchedTimes(c.touched, u), d)
         then DayRow(cfg, History(c.points, u), d)
         else StoredRow(daily, u, d)
  }

  // A mutation's transaction committed.
  ghost predicate Committed(cfg: Config, s: Tables, m: Mutation, s2: Tables)
    requires WellFormed(s)
  {
    var change := Apply(s.points, s.nextPoint, m);
    && change.Some?
    && s2.points == change.value.points
    && s2.nextPoint == change.value.nextPoint
    && s2.tracks == s.tracks
    && s2.queue == EnqueueAll(s.queue, change.value.touched)
    && OwedRebuilt(cfg, s.daily, change.value, s2.daily)
  }

  function WithTracks(cfg: Config, s: Tables, user: int): Tables {
    s.(tracks := s.tracks[user := TracksOf(cfg, History(s.points, user))])
  }

  /** One transaction of the running server: an ingest mutation; the track worker claiming the head
      of the queue and rebuilding that user; a user's tracks rebuilt on their own; or one that
      failed, was rolled back or died with its process. */
  datatype Event = Ingested(mutation: Mutation) | Claimed | Rebuilt(user: int) | Aborted

  ghost predicate Step(cfg: Config, s: Tables, e: Event, s2: Tables) {
    && WellFormed(s)
    && match e
       case Ingested(m) => Committed(cfg, s, m, s2)
       case Claimed =>
         && s.queue.jobs != []
         && s2 == WithTracks(cfg, s, s.queue.jobs[0].user).(queue := s.queue.(jobs := s.queue.jobs[1..]))
       case Rebuilt(user) => s2 == WithTracks(cfg, s, user)
       case Aborted => s2 == s
  }

  ghost predicate IsRun(cfg: Config, states: seq<Tables>, events: seq<Event>) {
    && |states| == |events| + 1
    && forall i :: 0 <= i < |events| ==> Step(cfg, states[i], events[i], states[i + 1])
  }

  // The stored row is what the points say, or is rightly absent.
  ghost predicate RowCorrect(cfg: Config, s: Tables, user: int, day: int) {
    StoredRow(s.daily, user, day) == DayRow(cfg, History(s.points, user), day)
  }

  ghost predicate DailyCorrect(cfg: Config, s: Tables) {
    forall u, d :: RowCorrect(cfg, s, u, d)
  }

  ghost predicate Fresh(cfg: Config, s: Tables, user: int) {
    StoredTracks(s, user) == TracksOf(cfg, History(s.points, user))
  }

  ghost predicate FreshOrPending(cfg: Config, s: Tables, user: int) {
    Fresh(cfg, s, user) || Pending(s.queue, user)
  }

  ghost predicate TracksAccounted(cfg: Config, s: Tables) {
    forall u :: FreshOrPending(cfg, s, u)
  }

  lemma PointsOfCommit(cfg: Config, s: Tables, m: Mutation, s2: Tables, user: int)
    requires WellFormed(s) && Committed(cfg, s, m, s2)
    ensures WellFormed(s2)
    ensures Sorted(History(s.points, user)) && Sorted(History(s2.points, user))
    ensures AgreeOff(History(s.points, user), History(s2.points, user),
                     TouchedTimes(Apply(s.points, s.nextPoint, m).value.touched, user))
  {
    ApplyReportsChanges(s.points, s.nextPoint, m, user);
  }

  lemma StepWellFormed(cfg: Config, s: Tables, e: Event, s2: Tables)
    requires Step(cfg, s, e, s2)
    ensures WellFormed(s2)
  {
    if e.Ingested? {
      PointsOfCommit(cfg, s, e.mutation, s2, 0);
    }
  }

  // Every step either makes a row right or disturbs neither the row nor what it should be.
  lemma StepRow(cfg: Config, s: Tables, e: Event, s2: Tables, user: int, day: int)
    requires cfg.zone.Valid() && Step(cfg, s, e, s2)
    ensures RowCorrect(cfg, s2, user, day)
            || (StoredRow(s2.daily, user, day) == StoredRow(s.daily, user, day)
                && DayRow(cfg, History(s2.points, user), day) == DayRow(cfg, History(s.points, user), day))
  {
    if e.Ingested? {
      PointsOfCommit(cfg, s, e.mutation, s2, user);
      var c := Apply(s.points, s.nextPoint, e.mutation).value;
      var times := TouchedTimes(c.touched, user);
      if !Owed(cfg.zone, History(s2.points, user), times, day) {
        UnowedRowUnchanged(cfg, History(s.points, user), History(s2.points, user), times, day);
      }
    }
  }

  lemma StepDaily(cfg: Config, s: Tables, e: Event, s2: Tables)
    requires cfg.zone.Valid() && Step(cfg, s, e, s2) && DailyCorrect(cfg, s)
    ensures DailyCorrect(cfg, s2)
  {
    forall u, d ensures RowCorrect(cfg, s2, u, d) {
      assert RowCorrect(cfg, s, u, d);
      StepRow(cfg, s, e, s2, u, d);
    }
  }

  lemma UntouchedHistory(cfg: Config, s: Tables, m: Mutation, s2: Tables, user: int)
    requires WellFormed(s) && Committed(cfg, s, m, s2)
    requires forall t :: t in Apply(s.points, s.nextPoint, m).value.touched ==> t.user != user
    ensures History(s.points, user) == History(s2.points, user)
  {
    PointsOfCommit(cfg, s, m, s2, user);
    assert TouchedTimes(Apply(s.points, s.nextPoint, m).value.touched, user) == {};
    SameMembersSameHistory(History(s.points, user), History(s2.points, user));
  }

  // Every step leaves a user's tracks fresh, or leaves a job pending, or touches neither that
  // user's points nor tracks nor place in the queue.
  lemma StepTracks(cfg: Config, s: Tables, e: Event, s2: Tables, user: int)
    requires Step(cfg, s, e, s2)
    ensures || FreshOrPending(cfg, s2, user)
            || (&& History(s2.points, user) == History(s.points, user)
                && StoredTracks(s2, user) == StoredTracks(s, user)
                && !Pending(s.queue, user))
  {
    match e
    case Ingested(m) =>
      var touched := Apply(s.points, s.nextPoint, m).value.touched;
      if !exists t :: t in touched && t.user == user {
        UntouchedHistory(cfg, s, m, s2, user);
      }
    case Claimed => ClaimKeepsPending(s.queue, user);
    case Rebuilt(_) =>
    case Aborted =>
  }

  lemma ClaimKeepsPending(q: Queue, user: int)
    requires GoodQueue(q) && q.jobs != []
    ensures Pending(q.(jobs := q.jobs[1..]), user) <==> Pending(q, user) && user != q.jobs[0].user
  {
    var rest := q.jobs[1..];
    assert forall i :: 0 < i < |q.jobs| ==> rest[i - 1] == q.jobs[i];
  }

  // A commit of the worker under these settings, or any other step of the server, keeps every
  // user's tracks fresh or promised.
  lemma StepTracksAccounted(cfg: Config, s: Tables, e: Event, s2: Tables)
    requires Step(cfg, s, e, s2) && TracksAccounted(cfg, s)
    ensures TracksAccounted(cfg, s2)
  {
    forall u ensures FreshOrPending(cfg, s2, u) {
      assert FreshOrPending(cfg, s, u);
      StepTracks(cfg, s, e, s2, u);
    }
  }

  // Both derived tables are accounted for.
  ghost predicate Correct(cfg: Config, s: Tables) {
    WellFormed(s) && DailyCorrect(cfg, s) && TracksAccounted(cfg, s)
  }

  lemma StepKeepsCorrect(cfg: Config, s: Tables, e: Event, s2: Tables)
    requires cfg.zone.Valid() && Step(cfg, s, e, s2) && Correct(cfg, s)
    ensures Correct(cfg, s2)
  {
    StepWellFormed(cfg, s, e, s2);
    StepDaily(cfg, s, e, s2);
    StepTracksAccounted(cfg, s, e, s2);
  }

  lemma NextIsCorrect(cfg: Config, states: seq<Tables>, events: seq<Event>, i: nat)
    requires cfg.zone.Valid() && IsRun(cfg, states, events) && i < |events| && Correct(cfg, states[i])
    ensures Correct(cfg, states[i + 1])
  {
    assert Step(cfg, states[i], events[i], states[i + 1]);
    StepKeepsCorrect(cfg, states[i], events[i], states[i + 1]);
  }

  // Over every run, at every moment: daily_stats is exactly what the points say, and every user's
  // tracks are what the points say or a rebuild is pending.
  lemma {:induction false} ServerInvariant(cfg: Config, states: seq<Tables>, events: seq<Event>, i: nat)
    requires cfg.zone.Valid() && IsRun(cfg, states, events) && i < |states| && Correct(cfg, states[0])
    ensures Correct(cfg, states[i])
  {
    if i > 0 {
      ServerInvariant(cfg, states, events, i - 1);
      NextIsCorrect(cfg, states, events, i - 1);
    }
  }

  // An empty database starts every run off right.
  lemma EmptyIsCorrect(cfg: Config)
    ensures Correct(cfg, EMPTY)
  {
    assert forall u, d :: RowCorrect(cfg, EMPTY, u, d);
    forall u ensures FreshOrPending(cfg, EMPTY, u) {
      assert TracksOf(cfg, []) == [];
    }
  }

  function Claims(events: seq<Event>): nat {
    if events == [] then 0 else Claims(events[..|events| - 1]) + if events[|events| - 1].Claimed? then 1 else 0
  }

  // A claim takes the head of the queue; nothing else takes anything or reorders it.
  ghost predicate QueueStep(q: Queue, e: Event, q2: Queue) {
    if e.Claimed? then q.jobs != [] && q2.jobs == q.jobs[1..] else q.jobs <= q2.jobs
  }

  lemma StepMovesQueue(cfg: Config, s: Tables, e: Event, s2: Tables)
    requires Step(cfg, s, e, s2)
    ensures QueueStep(s.queue, e, s2.queue)
  {
  }

  // While a user waits, only claims move it: each claim by exactly one place towards the head.
  lemma {:induction false} PlaceInQueue(queues: seq<Queue>, events: seq<Event>, k: nat, n: nat)
    requires |queues| == |events| + 1
    requires forall i :: 0 <= i < |events| ==> QueueStep(queues[i], events[i], queues[i + 1])
    requires k < |queues[0].jobs| && n <= |events| && Claims(events[..n]) <= k
    ensures var place := k - Claims(events[..n]);
            place < |queues[n].jobs| && queues[n].jobs[place] == queues[0].jobs[k]
  {
    if n > 0 {
      assert events[..n][..n - 1] == events[..n - 1];
      PlaceInQueue(queues, events, k, n - 1);
      assert QueueStep(queues[n - 1], events[n - 1], queues[n]);
    }
  }

  // A user k places from the head is the one the (k + 1)-th successful claim rebuilds, however
  // many mutations, coalesced requests, other rebuilds and failures come in between.
  lemma ClaimedInTurn(cfg: Config, states: seq<Tables>, events: seq<Event>, k: nat, n: nat)
    requires IsRun(cfg, states, events) && k < |states[0].queue.jobs|
    requires n < |events| && events[n] == Claimed && Claims(events[..n]) == k
    ensures var user := states[0].queue.jobs[k].user;
            && states[n].queue.jobs != [] && states[n].queue.jobs[0].user == user
            && Fresh(cfg, states[n + 1], user)
  {
    var queues := seq(|states|, i requires 0 <= i < |states| => states[i].queue);
    forall i | 0 <= i < |events| ensures QueueStep(queues[i], events[i], queues[i + 1]) {
      StepMovesQueue(cfg, states[i], events[i], states[i + 1]);
    }
    PlaceInQueue(queues, events, k, n);
    assert Step(cfg, states[n], events[n], states[n + 1]);
  }
}
