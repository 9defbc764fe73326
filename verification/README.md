# A verified model of travelmap's derived data

travelmap keeps one source of truth, the `points` table, and keeps two tables derived from it up to date
as points come and go: `daily_stats`, one row per user and day, and `tracks`, one row per unbroken run of
points. Beside them it collects Foursquare check-ins by walking a paged list that may
change under the walk. This project models those three mechanisms in Dafny and proves that they keep
their promises in every run, not only in the runs someone thought of.

`dafny verify dfyconfig.toml` checks everything.

**Incremental days.** Every mutation of a point rebuilds only the days `affectedDays` returns, and each
rebuild reads only that day's points and the one before them. The specification of a row is LAG over the
whole history (`DailyStats.DayRow`). Proved: the one-day query computes that row; a day left out has the
same row before and after; so over every run the table equals the specification, absent rows included
(`Server.ServerInvariant`). The full rebuild reaches the same table from any table at all, while the
server's transactions commit and abort between its own (`Recalculation.RecalculateInterleaved`,
`Workers.Recalculate`).

**Tracks and their queue.** Proved: at every moment of every run each user's tracks are what the points
say or a rebuild is pending; a waiting user is served in turn; draining makes every user fresh; and the
two derived tables measure the same distance (`Conservation.DistanceConservedInRuns`).

**The check-in walk.** Proved: it ends against any server whatever; over a list that changes between
requests, exactly which check-ins it misses, and none if the list only grows; over a list that stands
still, exactly when it gives up and exactly what it hands over; and a run of `Sync` stores each check-in
once, counts them, and moves the account forward only after a walk every request of which was answered.

**What is answered from them.** Proved: the statistics and tracked months follow from the points, with
bounds on what truncation loses, and the pages of a listing are the listing.

## How it is laid out

| file | models |
|---|---|
| Clock | instants, durations, the two gap tests, calendar days between local midnights |
| Faults | which statements fail |
| Histories, Ordering | one user's rows of `points` and the statements on them |
| DailyStats | the meaning of a `daily_stats` row and the one-day query |
| TrackSplitting, TrackProperties | `build` and what its tracks are |
| Tables | the tables as values, the job queue, the four mutations, which days are owed |
| Server, Recalculation | state machines: one step is one committed or aborted transaction |
| Store | the database object: the repositories' statements and `Tx`, any of which may fail |
| Ingest, Workers | the Go functions, method by method, proved to take steps of those machines |
| Conservation | distance and counts across the derived tables |
| PageWalk, StableWalk, MovingList | the walk against any server, over a list that stands still, and over one that changes |
| SyncWindow | the bound of a walk, from the configured days |
| Checkins, CheckinSync | the check-ins table; the walk's loop, its callback and `Sync` |
| Stats, Paging | the statistics endpoints and the paged listings |

Go code that changes state is a class or a method with its loops; a `Tx` closure is the code between
`DB.Begin` and `DB.End`. Which statements fail is an arbitrary schedule of the store (`Faults.Schedule`), so
that anything may fail, but a method that answers with a failure must have met one; a crash is a transaction
that never commits. When the server is stopped is an input of `Workers.Drain`. Distances are exact reals from
an arbitrary formula, `Config.distance`.

## Where the code and its promises part

* Go's `Sub` saturates and SQL's subtraction does not, so the two gap tests disagree when the
  break is the largest `Duration` (`Clock.BreakTestsAgree`, both directions). No configured number of
  minutes gives that break (`Clock.ConfiguredBreakTestsAgree`).
* The `recalculate` command is documented for recovery after an inconsistency
  (`cmd/travelmap/recalculate.go:14-16`). It visits only users that have points, so tracks left behind
  for a user without any survive it. `Recalculation.RecalculateAllRepairsIff` says exactly when it does
  recover; states the server itself can reach always qualify.
* `inWindow` drops the fraction of its bound: a check-in of the second the window starts in is handed
  over although it may lie before the start. `StableWalk.WindowIsExact` says for which bounds the cut is
  the documented one.
* The look-back is turned from days into nanoseconds in 64 bits, and any positive number of days is
  accepted. Up to 106 751 days `Sync`'s window is the one asked for, and exact; from 106 752 on it never
  is (`SyncWindow.WindowLooksBackDays`, both directions). At 106 752 the bound lies in the future, and a
  run stores nothing and reports success (`SyncWindow.OneDayTooMany`,
  `SyncWindow.OneDayTooManySyncsNothing`).
* A removal between two requests can make a completed walk step over a check-in
  (`MovingList.RemovalStepsOver`); `MovingList.MissedIffSteppedOver` says exactly when one is missed.
* `X-Total-Pages` and the page offset are computed in 64 bits and may leave them for absurd arguments:
  `Paging.TotalPagesIsPageCount` and `Paging.LaterPagesAreEmpty` say exactly when they are right.
* A track's duration saturates at 292 years. `TrackProperties.TrackDuration` says exactly when it still
  is at least a second per gap: whenever a Duration can hold that many seconds.

## Model

| member | source | states |
|---|---|---|
| `Clock.UnixMonotone` | internal/store/sqlite/scan.go:15-32 | The column value of an instant is the last whole second not after it, so flooring keeps the order of instants and of bounds. |
| `Clock.BreakIsMinutes` | internal/config/config.go:378-382 | The break is the configured minutes if and only if they fit into a Duration. |
| `Clock.CountsWithinBreak` | internal/store/sqlite/dailystats.go:60-83 | SQL's test, which compares whole seconds, holds exactly when the gap is at most the break in nanoseconds. |
| `Clock.SplitsBeyondBreak` | internal/track/build.go:17-44 | Go's test holds exactly when the gap exceeds the break, and for the largest Duration never. |
| `Clock.BreakTestsAgree` | internal/store/sqlite/dailystats.go:100-105 | SQL's `gap <= trackBreak/time.Second` and Go's `Sub > trackBreak` are complementary on every pair of stored timestamps if and only if the break is not the largest Duration. |
| `Clock.ConfiguredBreakTestsAgree` | internal/config/config.go:378-382 | No configured number of minutes, wrap-around included, produces the one break on which the two tests part. |
| `Clock.Zone.DayUnique` | internal/ingest/recalculate.go:91-98 | A second falls on exactly one calendar day: the one whose local midnight is at or before it and whose next midnight is after it. |
| `Clock.Zone.DayMonotone` | internal/ingest/recalculate.go:91-98 | Later seconds fall on the same or later days. |
| `Clock.FixedOffsetIsZone` | internal/ingest/recalculate.go:91-98 | A fixed offset from UTC satisfies the day-boundary assumption everything else is proved under, every local midnight being a whole number of days on the shifted clock. |
| `Clock.MidnightsMakeZone` | internal/ingest/recalculate.go:91-98 | Any strictly increasing sequence of local midnights does, because it determines the day of every second. |
| `Clock.ShiftingOffsetIsZone` | internal/ingest/recalculate.go:91-98 | So does a zone whose offset changes from day to day, as with daylight saving, by less than a day at a time. |
| `Histories.InsertAdds` | internal/store/sqlite/points.go:34-67 | One INSERT … DO NOTHING keeps a history in strict timestamp order with distinct ids, adds exactly the point when its second was free, and changes nothing when it was not. |
| `Histories.NextIsNext` | internal/store/sqlite/points.go:134-151 | NextTimestamp's row is the first one strictly after the bound, and there is none exactly when nothing follows. |
| `Histories.LatestIsLatest` | internal/store/sqlite/dailystats.go:37-44 | The query's single preceding row is the last one strictly before the day, and is missing exactly when nothing precedes it. |
| `Histories.RangeMembers` | internal/store/sqlite/dailystats.go:45-47 | The day's rows are exactly the history's points from its first second up to, not including, the next day's. |
| `Histories.FindFinds` | internal/store/sqlite/points.go:200-230 | An id is found exactly when one of the user's points carries it, and the point found carries it. |
| `Histories.MoveAgrees` | internal/store/sqlite/points.go:200-216 | An update replaces one point's coordinates and leaves every other second of the history as it was. |
| `Histories.RemoveTakes` | internal/store/sqlite/points.go:219-267 | A delete leaves exactly the points whose id is not among the given ones, in order. |
| `Histories.RemovedTimes` | internal/store/sqlite/points.go:219-267 | RETURNING timestamp: the timestamps of exactly the points removed. |
| `DailyStats.CountIsRange` | internal/store/sqlite/dailystats.go:60-83 | COUNT(*) is the number of the user's points in the day. |
| `DailyStats.WindowQueryIsExact` | internal/store/sqlite/dailystats.go:36-83 | For any history and window, count and distance over the window's rows plus the single row before them equal those of LAG over the whole history restricted to the window. |
| `DailyStats.QueriedRowIsDayRow` | internal/store/sqlite/dailystats.go:91-136 | What Rebuild computes for a day from that window, an absent row included, is the row LAG over the whole history defines. |
| `DailyStats.RowDependsOnWindow` | internal/store/sqlite/dailystats.go:36-83 | Two histories with the same points in a day and, when there are any, the same predecessor of that day give the same row. |
| `DailyStats.RowsAreUngeocoded` | internal/store/sqlite/dailystats.go:120-130 | A rebuilt row counts no geocoded point and names no country or city. |
| `TrackSplitting.Build` | internal/track/build.go:17-44 | The loop's tracks are those of the maximal runs of the history, singles dropped, in order. |
| `TrackSplitting.Finish` | internal/track/build.go:48-77 | A run of two or more becomes one track with its own first and last timestamps, summed distance and coordinates; a shorter one none. |
| `TrackSplitting.RunsSplit` | internal/track/build.go:17-44 | The runs, dropped singles included, concatenate to the history; gaps inside a run are at most the break and gaps between runs exceed it. |
| `TrackSplitting.SplitIsUnique` | internal/track/build.go:17-44 | No other partition has that property, so the runs are determined by the gaps alone. |
| `TrackProperties.RangeIsRun` | internal/httpapi/tracks.go:136-139 | The points between a run's first and last timestamps, both included, are exactly that run. |
| `TrackProperties.TrackRangeIsGeometry` | internal/httpapi/tracks.go:136-182 | The points in a track's closed [StartAt, EndAt] range are one run of the history, and their coordinates in order are the track's geometry. |
| `TrackProperties.RunsApart` | internal/track/build.go:17-44 | From any run to any later one the gap is longer than the break. |
| `TrackProperties.TracksAscend` | internal/track/build.go:17-44 | Tracks are disjoint in time and ascending: each starts more than a break after the previous one's end. |
| `TrackProperties.InNoTrackIffAlone` | internal/track/build.go:17-51 | A point lies in no track exactly when the gap to each neighbour it has exceeds the break. |
| `TrackProperties.TrackSpan` | internal/httpapi/tracks.go:220-239 | A track of n points spans between n - 1 seconds and n - 1 breaks. |
| `TrackProperties.TrackDuration` | internal/httpapi/tracks.go:226-239 | The duration answered is at least one second, so the speed's divisor is never zero, and at most n - 1 breaks; it is at least n - 1 seconds if and only if a Duration can hold that many. |
| `TrackProperties.SpeedCoversTheTrack` | internal/httpapi/tracks.go:220-239 | The average speed is defined for every track, and at it the track's metres take exactly its duration. |
| `Tables.Enqueue` | internal/store/sqlite/tracks.go:144-157 | A request leaves the user pending, keeps one job per user in id order, and never moves a job already there. |
| `Tables.EnqueueAll` | internal/ingest/rebuild.go:109-130 | After a change exactly the users pending before and those touched are pending, and no job already there has moved. |
| `Tables.InsertOneAdds` | internal/store/sqlite/points.go:40-62 | An insertion adds, to that user's history alone, the one point of that second with those coordinates, or nothing when the second is taken. |
| `Tables.InsertAllInserts` | internal/store/sqlite/points.go:34-67 | A batch leaves every point that was there, takes every entry's second, adds only points with the coordinates of the first entry for a second that was free, and as many as there were distinct free seconds. |
| `Tables.UpdateMoves` | internal/store/sqlite/points.go:200-216 | An update puts the point with that id of that user at those coordinates and changes no other point of anyone. |
| `Tables.DeletionOfOne` | internal/store/sqlite/points.go:219-230 | A delete takes the point with that id from that user and changes no other point of anyone. |
| `Tables.DeletionDeletes` | internal/store/sqlite/points.go:233-267 | A bulk delete takes exactly the user's points whose id is in the list, every id of it, and nothing from anyone else. |
| `Tables.ApplyReportsChanges` | internal/store/sqlite/points.go:34-267 | Whatever the mutation, duplicates and sub-second timestamps included, every second at which the user's history changed is among the touches reported for it. |
| `Tables.UnowedPredecessor` | internal/ingest/rebuild.go:19-86 | If a non-empty day is not owed a rebuild, the point preceding it is the same before and after the change, although only each day's latest touch was looked up. |
| `Tables.UnowedRowUnchanged` | internal/ingest/rebuild.go:19-86 | affectedDays is sufficient: any day it leaves out ought to have the same row before and after. |
| `Server.StepRow` | internal/ingest/rebuild.go:94-107 | Every transaction of the server either makes a given row right or changes neither the row nor what it should be. |
| `Server.StepDaily` | internal/ingest/rebuild.go:94-107 | Every transaction keeps daily_stats equal to the rows the points define, absent rows included. |
| `Server.StepTracks` | internal/ingest/rebuild.go:106-130 | After any transaction a given user's tracks are fresh or a job is pending, or that user had no job and the transaction changed neither their points nor their tracks. |
| `Server.ServerInvariant` | internal/ingest/rebuild.go:94-130 | Over every run of ingest, worker and rebuild transactions, aborted ones among them, at every moment: daily_stats is exactly what the points say, and each user's stored tracks equal build(points) or a rebuild is pending. |
| `Server.EmptyIsCorrect` | internal/store/sqlite/sqlite.go:56-82 | A new database starts every run off in that state. |
| `Server.StepMovesQueue` | internal/store/sqlite/tracks.go:144-181 | Only a claim takes a job, and then the head; everything else leaves the queue a prefix of what it becomes. |
| `Server.PlaceInQueue` | internal/store/sqlite/tracks.go:144-181 | A waiting job moves towards the head by exactly one place per claim, whatever else happens. |
| `Server.ClaimedInTurn` | internal/track/worker.go:50-81 | The user k places from the head is the one the (k + 1)-th successful claim rebuilds, and its tracks are fresh then, with any mutations, coalesced requests and failures in between. |
| `Recalculation.EmptyDayRow` | internal/store/sqlite/dailystats.go:110-118 | A day ought to have a row exactly when one of the user's points falls on it. |
| `Recalculation.RecalculateInterleaved` | internal/ingest/recalculate.go:30-89 | From any starting table, with any transactions of the server between the command's: no stored row is wrong at any moment after the wipe, and every row is right or rightly absent from the last user on. |
| `Recalculation.RecalculateTracksInterleaved` | internal/track/recalculate.go:21-34 | With the same interference, once the users with points are visited every user's tracks are fresh or a job is pending, provided no user without points started with stale tracks and no job. |
| `Recalculation.OldSettingsAreClear` | internal/track/recalculate.go:13-34 | That proviso follows from the invariant under the previous break or zone, so a change of settings is always carried over to all users. |
| `Recalculation.RecalculateAllRepairsIff` | internal/track/recalculate.go:21-34 | Alone, RecalculateAll restores fresh-or-pending for every user if and only if no user without points has tracks and no pending job. |
| `Recalculation.RecalculateAllLeavesStaleTracks` | internal/track/recalculate.go:21-34 | A table with a track and no points for user 7, which it leaves as it was. |
| `Store.DB.Begin` | internal/store/sqlite/sqlite.go:139-155 | Tx, first half: a nested call joins the running transaction; an outer one remembers the tables as they were, or fails with nothing begun. |
| `Store.DB.End` | internal/store/sqlite/sqlite.go:158-169 | Tx, second half: the outermost call keeps the new tables only if the body succeeded and the commit did, and otherwise restores every table; a joined one decides nothing. |
| `Store.DB.InsertRow` | internal/store/sqlite/points.go:40-62 | One insertion: every old point stays, the entry's second is taken, a new point has the entry's coordinates, and the answer says whether that second was free. |
| `Store.DB.Create` | internal/store/sqlite/points.go:34-67 | On success every old point stays, each entry's second is taken, each new point has the coordinates of the first entry for its user and second, and the count is the number of distinct free seconds in the batch. |
| `Store.DB.UserIDs` | internal/store/sqlite/points.go:70-88 | Exactly the users with a point, ascending. |
| `Store.DB.Timestamps` | internal/store/sqlite/points.go:91-110 | The user's timestamps, all of them, in order. |
| `Store.DB.AllOrdered` | internal/store/sqlite/points.go:113-126 | The user's whole history in timestamp order. |
| `Store.DB.NextTimestamp` | internal/store/sqlite/points.go:134-151 | The first stored timestamp after the floored bound, or none. |
| `Store.DB.Update` | internal/store/sqlite/points.go:200-216 | Moves the one point with that id and user and returns the updated row, its timestamp unchanged; not found only for an unknown id, with the table left alone on any error. |
| `Store.DB.Delete` | internal/store/sqlite/points.go:219-230 | Removes that one point and returns its timestamp; not found only for an unknown id. |
| `Store.DB.DeleteBulk` | internal/store/sqlite/points.go:233-267 | Removes those of the ids the user has and returns their timestamps; no ids, no statement. |
| `Store.DB.Rebuild` | internal/store/sqlite/dailystats.go:91-136 | Leaves the day's row as LAG over the user's whole history defines it, or no row for an emptied day, and every other row untouched. |
| `Store.DB.DeleteAll` | internal/store/sqlite/dailystats.go:139-145 | Empties daily_stats or leaves it alone. |
| `Store.DB.ReplaceAll` | internal/store/sqlite/tracks.go:68-88 | Replaces one user's tracks by the given ones and never touches another user's, even when it fails half-way. |
| `Store.DB.EnqueueRebuild` | internal/store/sqlite/tracks.go:144-157 | Coalesces the request with a pending one, or appends it. |
| `Store.DB.NextPending` | internal/store/sqlite/tracks.go:160-181 | Claims the job with the smallest id by deleting it; none exactly when the queue is empty. |
| `Ingest.LatestTouches` | internal/ingest/rebuild.go:35-48 | Every touched day once, in the order first touched, with a touch no other touch of that day is after. |
| `Ingest.AffectedDays` | internal/ingest/rebuild.go:34-86 | Exactly the owed days, each once, ordered by user and day: those of the touches, and those of the point now following some day's latest touch. |
| `Ingest.EnqueueTrackRebuilds` | internal/ingest/rebuild.go:109-130 | One request per distinct user leaves the queue as one request per touch would. |
| `Ingest.RebuildAffectedDays` | internal/ingest/rebuild.go:94-107 | Every owed day has the row the points define, no other row changed, and every touched user is pending. |
| `Ingest.FinishMutation` | internal/ingest/mutate.go:27-40 | The rest of a mutation's transaction: the rebuild and the commit make one step of the server's machine, or everything is as it was before the transaction. |
| `Ingest.CreatePoints` | internal/ingest/create.go:26-44 | All or nothing: on success one commit of points, owed rows and requests together, the points being the old ones and the first entry for each second that was free, and their number the answer; on any failure, which takes a failing statement, the tables are as before. |
| `Ingest.UpdatePoint` | internal/ingest/mutate.go:21-41 | All or nothing: on success that point is at the new coordinates, no other point has changed, and the answer is the row as now stored; not found only for a point that is not the user's; a store failure only if a statement failed. |
| `Ingest.DeletePoint` | internal/ingest/mutate.go:52-66 | All or nothing: on success that point is gone and no other; not found only for a point that is not the user's; a store failure only if a statement failed. |
| `Ingest.DeletePoints` | internal/ingest/mutate.go:74-99 | All or nothing: on success exactly the user's points with one of the ids are gone, and the answer is how many; it fails only if a statement failed. |
| `Workers.RebuildUser` | internal/track/rebuild.go:13-27 | The user's tracks become build(points), or, outside a running transaction, nothing changed at all. |
| `Workers.ClaimAndRebuild` | internal/track/worker.go:57-69 | The claim and the rebuild commit together or not at all; no job only when the queue is empty, an error only when a statement failed. |
| `Workers.Drain` | internal/track/worker.go:50-81 | Others' transactions committing and aborting between rounds: it ends if they are finitely many, with no more claims than jobs pending at first or enqueued since, and for one of three reasons only: it was cancelled before the round it did not make, a statement failed, or the queue is empty. Fresh-or-pending is kept, and ending on an empty queue means every user fresh; with nothing in between, exactly the first `served` jobs were served, in order. |
| `Workers.DrainAlone` | internal/track/worker.go:50-81 | Not cancelled, no statement failing and nothing in between, it serves every job and leaves every user's tracks fresh. |
| `Workers.DrainMakesFresh` | internal/track/worker.go:50-81 | Serving all of a queue from a state of the invariant leaves it empty and every user's tracks fresh. |
| `Workers.OneTransaction` | internal/store/sqlite/sqlite.go:139-169 | Whichever operation runs, with whatever arguments and failures, its effect on the tables is one step of the server's state machine. |
| `Workers.OtherTransactions` | internal/store/sqlite/sqlite.go:139-169 | Any number of them, one after the other, make a run of that machine. |
| `Workers.RecalculateUser` | internal/ingest/recalculate.go:68-89 | Rebuilding where the ascending timestamps move on to another day rebuilds exactly the days that have points. |
| `Workers.Recalculate` | internal/ingest/recalculate.go:30-56 | With others' transactions in between: success means every row right; wherever it stops after the wipe, no stored row is wrong; before it, nothing changed. |
| `Workers.RecalculateAll` | internal/track/recalculate.go:21-34 | With others' transactions in between, success means fresh or pending for every user, if users without points started clear. |
| `Conservation.AllRows` | internal/store/sqlite/dailystats.go:175-213 | A user's stored rows, one per stored day, by ascending day. |
| `Conservation.TravelExtends` | internal/store/sqlite/dailystats.go:60-83 | A point that follows within the break adds the distance from the last one, and any other adds none. |
| `Conservation.OneDayGrows` | internal/store/sqlite/dailystats.go:36-83 | A further point adds its segment and one point to exactly the day it falls on. |
| `Conservation.DaysHoldEverything` | internal/store/sqlite/dailystats.go:36-83 | Distinct days that cover a history hold all of its counting segments and all of its points, each once. |
| `Conservation.StoredDaysAreDaysWithPoints` | internal/store/sqlite/dailystats.go:110-118 | In a right table the stored days are exactly the days with points. |
| `Conservation.DailyTotals` | internal/store/sqlite/dailystats.go:175-213 | In a right table the rows' counts add up to the number of the user's points and their kilometres to the distance of all segments within the break. |
| `Conservation.TracksMeasureTravel` | internal/track/build.go:48-77 | The tracks' metres add up to 1000 times the distance of the unsplit segments; dropped single points lose nothing. |
| `Conservation.DistanceConserved` | internal/store/sqlite/dailystats.go:91-136 | 1000 times the sum of a user's daily kilometres is the sum of that user's track distances, whenever the rows are right and the tracks fresh. |
| `Conservation.DistanceConservedInRuns` | internal/track/worker.go:50-81 | So it is at every moment of every run, for every user without a pending rebuild. |
| `Conservation.LargestBreakLosesConservation` | internal/track/build.go:17-44 | A history of two points on which the two measures part when the break is the largest Duration. |
| `PageWalk.OldestCreatedAt` | internal/foursquare/client.go:333-343 | The loop's minimum over a page. |
| `PageWalk.OldestIsOldest` | internal/foursquare/client.go:328-343 | It is a time of the page, whatever the page's order, and no check-in of the page is older. |
| `PageWalk.WindowOf` | internal/foursquare/client.go:311-326 | The page's check-ins in the window, in the page's order; the whole page for the zero time. |
| `PageWalk.WindowOfOne` | internal/foursquare/client.go:311-326 | A single check-in is kept exactly when its second ends after the window's start, or the start is the zero time. |
| `PageWalk.InWindowMembers` | internal/foursquare/client.go:311-326 | A check-in is handed over exactly when the page has it and its second is not before the window's first. |
| `PageWalk.WalkTerminates` | internal/foursquare/client.go:268-307 | Against an arbitrary server the walk makes at most two requests more than there are whole seconds from the window's start to the first page's oldest check-in, and one if that page ends the window. |
| `PageWalk.RequestsLeft` | internal/foursquare/client.go:284-306 | After the first page the oldest time strictly falls on every continuing page and stays in the window, which bounds the requests left. |
| `PageWalk.WalkStep` | internal/foursquare/client.go:274-306 | Of a page that was got: it is handed over cut down to the window, and then the walk ends complete, ends without progress, or goes on, by the page's length, its oldest time and the previous one. |
| `PageWalk.GoesOnIffFullAndWithin` | internal/foursquare/client.go:284-297 | The test by length and oldest time is that the page is full and every check-in of it is in the window. |
| `PageWalk.WalkEndsAsAnswered` | internal/foursquare/client.go:268-307 | Against any server: every request of a walk but the last was answered with a full page of the window that reaches further back than the one before; the walk ends with the server's failure if and only if the last request was refused, complete if and only if it was answered with a page that is not full or leaves the window, and without progress if and only if with a full page of the window that reaches no further back. |
| `StableWalk.StableWalkEnds` | internal/foursquare/client.go:284-306 | Over an unchanging newest-first list the walk gives up if and only if some full page after the first ends, inside the window, in the very second the page before it ended in; otherwise it completes. |
| `StableWalk.StableWalkHandsOver` | internal/foursquare/client.go:284-326 | When it completes, the pages handed over put together are exactly the list's check-ins of the window, each once and in order. |
| `StableWalk.StableWalkIsExact` | internal/foursquare/client.go:284-326 | Both hold whenever no 251 consecutive check-ins share a second. |
| `StableWalk.WindowIsExact` | internal/foursquare/client.go:309-326 | The cut agrees with 'created at or after' for every check-in if and only if the window starts on a whole second and is not the zero time. |
| `MovingList.HandedIffAnswered` | internal/foursquare/client.go:268-307 | Against any server, a check-in is handed over if and only if one of the requests the walk makes is answered with it and it lies in the window. |
| `MovingList.CoverageUnlessSteppedOver` | internal/foursquare/client.go:252-307 | However the list changes, as long as it is newest first at every request: a walk that returns nil hands over every check-in of the window that is there at each request, unless it steps over it - standing behind every page asked for so far, and ahead of the page at the next request. |
| `MovingList.SteppedOverIsMissed` | internal/foursquare/client.go:263-267 | However the walk ends, a check-in stepped over and not come upon again is missed. |
| `MovingList.MissedIffSteppedOver` | internal/foursquare/client.go:263-267 | A completed walk misses a check-in of the window that is there once at each request if and only if it steps over it and does not come upon it again. |
| `MovingList.Coverage` | internal/foursquare/client.go:252-307 | In particular, if the list changes only by insertions and stays newest first, a walk that returns nil has handed over every check-in of the window that was there at its first request. |
| `MovingList.RemovalStepsOver` | internal/foursquare/client.go:263-267 | Removing any entry of the first page once it has been read makes the walk miss the first check-in of the second, if that stands in the list once. |
| `MovingList.CompletedWalkMisses` | internal/foursquare/client.go:263-267 | Such a walk can complete: over 251 check-ins a second apart it does, and misses the last. |
| `SyncWindow.WindowLooksBackDays` | internal/config/config.go:357-361 | Sync's bound is the run's start less the configured days if and only if the days fit into a Duration, which is up to 106 751 of them; every larger number wraps to something else. |
| `SyncWindow.WindowOfDaysIsExact` | internal/checkin/sync.go:45-49 | For days that fit, the pages are cut to exactly the check-ins of those days, unless the bound is the zero time, which no clock past 1970 reaches. |
| `SyncWindow.OneDayTooMany` | internal/config/config.go:357-361 | At 106 752 days, with any clock, the look-back is negative, the bound lies in the future and off a whole second, and the cut is not the documented window. |
| `SyncWindow.NothingAfterTheWindow` | internal/foursquare/client.go:274-297 | A walk whose first page lies wholly before its bound completes at once and hands over nothing. |
| `SyncWindow.OneDayTooManySyncsNothing` | internal/checkin/sync.go:48-71 | So a run with that look-back makes one request, takes the walk for complete and stores nothing, whatever check-ins there are up to now. |
| `Checkins.FirstWriteKeptLastWriteWins` | internal/store/sqlite/checkins.go:30-69 | Over any sequence of pushes and syncs an id has one row, whose id, source and created_at are the first write's and every other column the last write's. |
| `Checkins.NeverWritten` | internal/store/sqlite/checkins.go:30-69 | An id nothing wrote has no row. |
| `CheckinSync.CheckinStore.Upsert` | internal/checkin/checkin.go:18-25 | One more write at the end of the log of all writes, after whatever others wrote meanwhile, with exactly the user, source, check-in and run it was called with, pushed or synced; or none, and only if a statement failed. |
| `CheckinSync.CheckinStore.UpdateSyncedThrough` | internal/store/sqlite/foursquareaccounts.go:90-114 | Sets the one account's column and nothing else, or reports exactly an account that is not linked, or fails with the accounts as they were. |
| `CheckinSync.FirstOfEachIsOnePerId` | internal/checkin/sync.go:47-59 | Skipping ids already seen leaves one check-in per id, and every id. |
| `CheckinSync.FirstOfEachIsFirst` | internal/checkin/sync.go:47-59 | And what is kept is the check-in that came first of its id. |
| `CheckinSync.Collector.Handle` | internal/checkin/sync.go:49-62 | The callback deals with a page in order, or stops short at a failed write; what the run wrote stays the first check-in of each id it dealt with, in that order. |
| `CheckinSync.EachCheckinPage` | internal/foursquare/client.go:268-307 | Returns nil, no progress or the server's failure exactly as the walk ends, with all of the walk's check-ins handed to the callback; stopped by the callback, with a strict prefix of them and only if a statement of the store failed. |
| `CheckinSync.CompleteMeansAnswered` | internal/foursquare/client.go:268-307 | A complete walk had a page for an answer to each of its requests, and its last was one the walk completes at. |
| `CheckinSync.Sync` | internal/checkin/sync.go:42-72 | The count is the number of distinct ids dealt with; the run wrote the first check-in of each, all of them stored; after a complete walk the accounts are what others made of them with this one moved to the run's start, or untouched by the run when it is not linked or the store fails; after any other walk the run touches none. Success, or any change of the accounts by the run, means that no request was refused; a store failure, that a statement failed. |
| `CheckinSync.SyncedIsStored` | internal/checkin/sync.go:47-67 | Rows for all that a complete walk over a growing list hands over are rows for every check-in of the window that was there at its first request. |
| `CheckinSync.SyncDays` | internal/checkin/sync.go:24-72 | End to end: over a list that only grows while it is walked, a run of Sync that returns nil leaves a row for every check-in in its window that was there at the first request; for up to 106 751 configured days that is every check-in of those days. |
| `Stats.KmToInt` | internal/httpapi/stats.go:212-217 | Truncates toward zero. |
| `Stats.Descending` | internal/httpapi/stats.go:71-80 | Every year once, the latest first. |
| `Stats.StatsToDTO` | internal/httpapi/stats.go:130-210 | The loop's totals of points, geocoded points and kilometres, the numbers of different countries and cities, and one entry per year that has a row, the latest first, with that year's countries, cities and truncated distance, and its twelve months'. |
| `Stats.MonthGrows` | internal/httpapi/stats.go:161-162 | A row adds its distance to exactly the month of exactly the year it is in. |
| `Stats.YearGrows` | internal/httpapi/stats.go:161-162 | And to exactly the year. |
| `Stats.OneMonthReported` | internal/httpapi/stats.go:178-203 | A year whose rows all lie in one month is answered with its whole distance in that month and nothing in the other eleven. |
| `Stats.PlacesOfRows` | internal/httpapi/stats.go:140-160 | Countries are counted from the rows' countries and cities from their cities. |
| `Stats.YearPlacesOfRows` | internal/httpapi/stats.go:164-170 | And a year's from the rows of that year. |
| `Stats.TotalsAdd` | internal/httpapi/stats.go:140-160 | Points, geocoded points and kilometres over two lists of rows put together are the sums of those over each. |
| `Stats.YearsHaveRows` | internal/httpapi/stats.go:140-160 | The years answered are exactly those with a row. |
| `Stats.YearIsItsMonths` | internal/httpapi/stats.go:161-162 | A year's distance is the sum of its twelve months'. |
| `Stats.TotalIsItsYears` | internal/httpapi/stats.go:140-162 | All of the distance is in the years that have rows. |
| `Stats.TruncationLoses` | internal/httpapi/stats.go:212-217 | Truncating each of n non-negative parts loses at least 0 and at most n - 1 against truncating their sum. |
| `Stats.MonthsLoseAtMostEleven` | internal/httpapi/stats.go:178-203 | A year's figure minus the sum of its months' lies between 0 and 11. |
| `Stats.YearsLoseLessThanTheirNumber` | internal/httpapi/stats.go:178-209 | The grand total minus the sum of the years' figures lies between 0 and the number of years less one. |
| `Stats.NamedIffSeen` | internal/httpapi/stats.go:105-111 | A month's first three letters are in a year's list exactly when the month was seen. |
| `Stats.MonthsAreNamed` | internal/httpapi/stats.go:105-111 | Which three letters stand for which month. |
| `Stats.NamesInCalendarOrder` | internal/httpapi/stats.go:105-111 | The list is the names of the months seen in the order of the calendar, each once. |
| `Stats.TrackedMonthsToDTO` | internal/httpapi/stats.go:86-116 | Years with a row, the latest first, each with the three-letter names of the months that have one, in calendar order. |
| `Stats.TrackedMonthsHoldPoints` | internal/httpapi/stats.go:82-116 | When the daily rows are right, the months listed are exactly those holding one of the user's points. |
| `Stats.StatsOfPoints` | internal/httpapi/stats.go:127-210 | When the daily rows are right, the points counted are the points stored, the distance is all distance travelled cut to whole kilometres, and both truncation bounds hold. |
| `Paging.PageCount` | internal/httpapi/points.go:220-222 | The fewest pages with room for the list. |
| `Paging.TotalPagesIsPageCount` | internal/httpapi/points.go:220-222 | The header is that number if and only if total + perPage - 1 does not leave 64 bits. |
| `Paging.PagesMakeTheList` | internal/store/sqlite/points.go:171-181 | Pages 1 to the page count concatenate to the list, all but the last full and the last not empty. |
| `Paging.LaterPagesAreEmpty` | internal/store/sqlite/points.go:171-181 | A later page is empty exactly when its offset as computed is past the list: always, when the product fits in 64 bits. |
| `Paging.WrappedPageIsTheFirst` | internal/store/sqlite/points.go:171-181 | Page 2^62 + 1 of four points each is the first page over again. |
| `Paging.ListingHoldsTheRange` | internal/store/sqlite/points.go:154-192 | The pages answered, as many as the total answered with them calls for, put together hold exactly the points with a timestamp in the range, each once, oldest or latest first as asked for; and the total is how many those are. |
| `Paging.MatchingIsRange` | internal/httpapi/tracks.go:182 | The closed range of a listing selects what the half-open range up to the next second does. |
| `Paging.TrackPagesAreItsRun` | internal/httpapi/tracks.go:136-201 | Whatever the page size, the pages answered for a track's points put together are one run of the history, coordinate by coordinate the track's geometry. |

## Left out

- HTTP routing, middleware, JSON shapes, templates and the React frontend: plumbing around the functions modelled.
- SQLite itself, its driver, DSN and migrations: tables are maps and ordered sequences with the statement semantics the code relies on, and a transaction is atomic and isolated, as one connection makes it.
- The columns nothing here depends on: `requested_at` of a job, `created_at` and `updated_at` of points, tracks and accounts.
- A track row's own id and `ByID`: a track is identified by its place in the user's list.
- The haversine formula and floating-point rounding: distance is any function into the reals, assumed non-negative only for the truncation bounds.
- The time-zone database and Go's choice of instant where local midnight does not exist: days are cut by an assumed strictly increasing sequence of midnights; a zone that skips a whole date falls outside it.
- The civil calendar: a day's year and month are arbitrary functions, the month between 1 and 12.
- Tickers, contexts, goroutines and logging: cancellation is an input read before each round of a drain, and whichever process runs next is arbitrary at transaction boundaries.
- Changing the zone or the break while ingest transactions under the old settings are still running: every interleaving proved is under one configuration.
- 64-bit overflow of row ids, timestamps and kilometre totals: unbounded integers, except where a Duration or a page number is computed.
- Resolving a push to an account, and decoding what Foursquare sends: a push is a write like any other that may arrive at any time.
- `syncAll`'s loop over accounts: one account's failure does not reach another's run.
- `positiveInt` and the parsing of query times: page numbers start out as positive 64-bit integers.
- Users, sessions, API keys, settings, trips and places: single-table operations without a property that spans them.
