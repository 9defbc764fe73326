// The check-ins table: one row per Foursquare id, whichever collection path writes it and however often.

module Checkins {
  import opened PageWalk

  datatype Source = FromPush | FromSync

  // One run of Upsert: the row id an insert would take, the columns given, and the second of the write.
  // run tells apart the collection runs and pushes that write; it is no column.
  datatype Write = Write(rowId: int, user: int, source: Source, checkin: Checkin, at: int, run: int)

  // A row, keyed by the check-in's id.
  datatype Row = Row(rowId: int, user: int, source: Source, checkin: Checkin, createdAt: int, updatedAt: int)

  type Rows = map<CheckinId, Row>

  // INSERT … ON CONFLICT (foursquare_checkin_id) DO UPDATE: the conflict leaves id, source and created_at.
  function Upserted(rows: Rows, w: Write): Rows {
    var inserted := Row(w.rowId, w.user, w.source, w.checkin, w.at, w.at);
    var id := w.checkin.id;
    if id in rows then
      var kept := rows[id];
      rows[id := inserted.(rowId := kept.rowId, source := kept.source, createdAt := kept.createdAt)]
    else rows[id := inserted]
  }

  function UpsertAll(log: seq<Write>): Rows {
    if log == [] then map[] else Upserted(UpsertAll(log[..|log| - 1]), log[|log| - 1])
  }

  predicate Writes(w: Write, id: CheckinId) {
    w.checkin.id == id
  }

  ghost predicate IsFirst(log: seq<Write>, id: CheckinId, k: nat) {
    k < |log| && Writes(log[k], id) && forall i :: 0 <= i < k ==> !Writes(log[i], id)
  }

  ghost predicate IsLast(log: seq<Write>, id: CheckinId, k: nat) {
    k < |log| && Writes(log[k], id) && forall i :: k < i < |log| ==> !Writes(log[i], id)
  }

  // The row is as the first of the writes made it and as the last of them left it.
  ghost predicate FirstAndLast(row: Row, first: Write, last: Write) {
    row == Row(first.rowId, last.user, first.source, last.checkin, first.at, last.at)
  }

  lemma HasLast(log: seq<Write>, id: CheckinId, f: nat) returns (l: nat)
    requires IsFirst(log, id, f)
    ensures IsLast(log, id, l) && f <= l
  {
    l := |log| - 1;
    while !Writes(log[l], id)
      invariant f <= l < |log|
      invariant forall i :: l < i < |log| ==> !Writes(log[i], id)
      decreases l
    {
      l := l - 1;
    }
  }

  // No other id has a row.
  lemma {:induction false} NeverWritten(log: seq<Write>, id: CheckinId)
    requires forall i :: 0 <= i < |log| ==> !Writes(log[i], id)
    ensures id !in UpsertAll(log)
  {
    if log != [] {
      NeverWritten(log[..|log| - 1], id);
      assert !Writes(log[|log| - 1], id);
    }
  }

  // Over any run of pushes and syncs, in the order the store took them: an id written at all has one
  // row, whose own id, source and created_at are the first write's and everything else the last one's.
  lemma {:induction false} FirstWriteKeptLastWriteWins(log: seq<Write>, id: CheckinId, f: nat, l: nat)
    requires IsFirst(log, id, f) && IsLast(log, id, l)
    ensures id in UpsertAll(log) && FirstAndLast(UpsertAll(log)[id], log[f], log[l])
  {
    var n := |log| - 1;
    var before := log[..n];
    assert forall i :: 0 <= i < n ==> before[i] == log[i];
    if f == n {
      NeverWritten(before, id);
    } else if l == n {
      var earlier := HasLast(before, id, f);
      FirstWriteKeptLastWriteWins(before, id, f, earlier);
    } else {
      assert !Writes(log[n], id);
      FirstWriteKeptLastWriteWins(before, id, f, l);
    }
  }
}
