/**
 * TrySyncDayByDayAsync: cut the interval from the last synced instant up to now into
 * windows of at most one day and synchronise a table pair window by window with
 * OverrideOld, recording each window's end as the new last synced instant.
 */
module DayByDay {
  import opened Wrappers
  import opened Entities
  import opened Tables
  import opened Selection
  import opened Resolution
  import opened Sync
  import opened SyncProperties

  /** One synchronisation window (from, to]. */
  datatype Window = Window(from: Ticks, to: Ticks)

  /**
   * The windows run contiguously from `start` to `end`, each non-empty and at most one
   * day long (nothing when start == end).
   */
  predicate Tiles(ws: seq<Window>, start: int, end: int)
  {
    && (ws == [] ==> start == end)
    && (ws != [] ==> ws[0].from == start && ws[|ws| - 1].to == end)
    && (forall i :: 0 <= i < |ws| ==> ws[i].from < ws[i].to <= ws[i].from + TicksPerDay)
    && (forall i :: 0 <= i < |ws| - 1 ==> ws[i].to == ws[i + 1].from)
  }

  /** Every window is exactly one day long. */
  predicate FullDays(ws: seq<Window>)
  {
    forall i :: 0 <= i < |ws| ==> ws[i].to == ws[i].from + TicksPerDay
  }

  /** The two tables' rows after synchronising one window with OverrideOld at clock reading utcNow. */
  function SyncWindow(w: Window, rows: (seq<Record>, seq<Record>), utcNow: Ticks): (seq<Record>, seq<Record>)
  {
    match SyncPlan(OverrideOld, w.from, w.to, rows.0, rows.1, utcNow)
    case Ok(p) => (UpsertAll(rows.0, p.there), UpsertAll(rows.1, p.here))
    case Err(_) => rows
  }

  /** The two tables' rows after synchronising every window in order, the k-th at clock(k). */
  function SyncedThrough(windows: seq<Window>, hereRows: seq<Record>, thereRows: seq<Record>,
                         clock: nat -> Ticks): (seq<Record>, seq<Record>)
  {
    if windows == [] then (hereRows, thereRows)
    else
      var n := |windows| - 1;
      SyncWindow(windows[n], SyncedThrough(windows[..n], hereRows, thereRows, clock), clock(n))
  }

  /**
   * The loop of TrySyncDayByDayAsync for one table pair. `clock(k)` is the UtcNow that
   * the k-th window's sync reads. `failed` is the caught exception. In this model only
   * AddDays can raise it, because the OverrideOld strategy switch never fails and
   * change-tracking faults are not modelled.
   */
  method TrySyncDayByDay(lastSyncedAt: Ticks, now: Ticks, hereTable: Table, thereTable: Table,
                         clock: nat -> Ticks)
    returns (windows: seq<Window>, syncedUpTo: Ticks, failed: bool)
    requires hereTable != thereTable
    requires hereTable.Valid() && thereTable.Valid()
    modifies hereTable, thereTable
    ensures hereTable.Valid() && thereTable.Valid()
    ensures Tiles(windows, lastSyncedAt, syncedUpTo)
    ensures windows != [] ==> FullDays(windows[..|windows| - 1])
    ensures syncedUpTo < now ==> FullDays(windows)
    ensures now <= lastSyncedAt ==> windows == [] && syncedUpTo == lastSyncedAt && !failed
    ensures lastSyncedAt < now ==> syncedUpTo <= now
    ensures !failed && lastSyncedAt < now ==> syncedUpTo == now
    ensures failed ==> syncedUpTo < now && syncedUpTo + TicksPerDay > MaxTicks
    ensures (hereTable.rows, thereTable.rows) == SyncedThrough(windows, old(hereTable.rows), old(thereTable.rows), clock)
  {
    var last := lastSyncedAt;
    windows, failed := [], false;
    while last < now
      invariant lastSyncedAt < now ==> lastSyncedAt <= last <= now
      invariant now <= lastSyncedAt ==> last == lastSyncedAt && windows == []
      invariant Tiles(windows, lastSyncedAt, last)
      invariant windows != [] ==> FullDays(windows[..|windows| - 1])
      invariant last < now ==> FullDays(windows)
      invariant !failed
      invariant hereTable.Valid() && thereTable.Valid()
      invariant (hereTable.rows, thereTable.rows) == SyncedThrough(windows, old(hereTable.rows), old(thereTable.rows), clock)
      decreases now - last
    {
      var syncFrom := last;
      if last + TicksPerDay > MaxTicks {
        // DateTime.AddDays throws beyond DateTime.MaxValue; the catch ends the loop
        failed := true;
        break;
      }
      var tomorrow: Ticks := last + TicksPerDay;
      var syncTo := if tomorrow > now then now else tomorrow;
      var w := Window(syncFrom, syncTo);
      SyncOneWindow(w, hereTable, thereTable, clock(|windows|));
      TilesSnoc(windows, lastSyncedAt, last, w);
      FullDaysSnoc(windows, w);
      SyncedThroughSnoc(windows, w, old(hereTable.rows), old(thereTable.rows), clock);
      windows := windows + [w];
      last := syncTo;
    }
    syncedUpTo := last;
  }

  /** One iteration's sync: SyncTablesAsync with OverrideOld over the window, whose strategy switch never fails. */
  method SyncOneWindow(w: Window, hereTable: Table, thereTable: Table, utcNow: Ticks)
    requires hereTable != thereTable
    requires hereTable.Valid() && thereTable.Valid()
    modifies hereTable, thereTable
    ensures hereTable.Valid() && thereTable.Valid()
    ensures (hereTable.rows, thereTable.rows) == SyncWindow(w, (old(hereTable.rows), old(thereTable.rows)), utcNow)
  {
    OverrideOldNeverStops(w.from, w.to, hereTable.rows, thereTable.rows, utcNow);
    var r := SyncTables(OverrideOld, w.from, w.to, hereTable, thereTable, utcNow);
  }

  /** Under OverrideOld the strategy switch never fails: only Stop throws on conflicts. */
  lemma OverrideOldNeverStops(from: Ticks, to: Ticks, hereRows: seq<Record>, thereRows: seq<Record>, utcNow: Ticks)
    ensures SyncPlan(OverrideOld, from, to, hereRows, thereRows, utcNow).Ok?
  {
    DecideFailsIffStopWithConflicts(OverrideOld, Candidates(from, to, hereRows, thereRows), utcNow);
  }

  /** Appending a window that starts where the tiling ends extends the tiling. */
  lemma TilesSnoc(ws: seq<Window>, start: int, end: int, w: Window)
    requires Tiles(ws, start, end)
    requires w.from == end && w.from < w.to <= w.from + TicksPerDay
    ensures Tiles(ws + [w], start, w.to)
  {
  }

  /** Appending a window keeps every window a full day exactly when the new one is. */
  lemma FullDaysSnoc(ws: seq<Window>, w: Window)
    requires FullDays(ws)
    ensures (ws + [w])[..|ws|] == ws
    ensures FullDays(ws + [w]) <==> w.to == w.from + TicksPerDay
  {
    assert (ws + [w])[|ws|] == w;
  }

  /** Synchronising one more window applies SyncWindow to the state so far. */
  lemma SyncedThroughSnoc(ws: seq<Window>, w: Window, hereRows: seq<Record>, thereRows: seq<Record>,
                          clock: nat -> Ticks)
    ensures SyncedThrough(ws + [w], hereRows, thereRows, clock)
            == SyncWindow(w, SyncedThrough(ws, hereRows, thereRows, clock), clock(|ws|))
  {
    assert (ws + [w])[..|ws|] == ws;
  }

  /**
   * Windows do not overlap: an earlier window ends before a later one starts, so the
   * successive last-synced instants (the window ends) strictly increase.
   */
  lemma {:induction false} TilesOrdered(ws: seq<Window>, start: int, end: int, i: nat, j: nat)
    requires Tiles(ws, start, end)
    requires i < j < |ws|
    ensures ws[i].to <= ws[j].from
    ensures ws[i].to < ws[j].to
    decreases j - i
  {
    if i + 1 < j {
      TilesOrdered(ws, start, end, i + 1, j);
    }
  }

  /**
   * The windows cover the interval exactly: every instant t with start < t <= end lies
   * in one and only one window, so every change in the interval is picked up once.
   */
  lemma TilesCover(ws: seq<Window>, start: int, end: int, t: int)
    requires Tiles(ws, start, end)
    requires start < t <= end
    ensures exists i :: 0 <= i < |ws| && ws[i].from < t <= ws[i].to
    ensures forall i, j :: 0 <= i < |ws| && 0 <= j < |ws| && ws[i].from < t <= ws[i].to && ws[j].from < t <= ws[j].to ==> i == j
  {
    TilesReach(ws, start, end, t);
    forall i, j | 0 <= i < |ws| && 0 <= j < |ws| && ws[i].from < t <= ws[i].to && ws[j].from < t <= ws[j].to
      ensures i == j
    {
      if i < j {
        TilesOrdered(ws, start, end, i, j);
      } else if j < i {
        TilesOrdered(ws, start, end, j, i);
      }
    }
  }

  /** Some window holds each instant of the tiled interval. */
  lemma {:induction false} TilesReach(ws: seq<Window>, start: int, end: int, t: int)
    requires Tiles(ws, start, end)
    requires start < t <= end
    ensures exists i :: 0 <= i < |ws| && ws[i].from < t <= ws[i].to
  {
    if t > ws[0].to {
      var tail := ws[1..];
      assert Tiles(tail, ws[0].to, end) by {
        assert forall i :: 0 <= i < |tail| ==> tail[i] == ws[i + 1];
      }
      TilesReach(tail, ws[0].to, end, t);
      var k :| 0 <= k < |tail| && tail[k].from < t <= tail[k].to;
      assert ws[k + 1] == tail[k];
    }
  }
}
