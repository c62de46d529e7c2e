/**
 * SyncTablesAsync: select the window's changes on both sides, skip what changed at the
 * same instant on both, resolve conflicts, stamp the local survivors with one synced
 * time and upsert each list into the opposite table.
 */
module Sync {
  import opened Wrappers
  import opened Entities
  import opened Tables
  import opened Selection
  import opened Resolution

  /** Every record of the list with SyncedAt set to `utcNow`. */
  function WithSyncedAt(s: seq<Record>, utcNow: Ticks): (r: seq<Record>)
    ensures |r| == |s|
    ensures forall x :: x in r ==> x.syncedAt == Some(utcNow)
    ensures forall x :: x in r <==> exists y :: y in s && x == y.(syncedAt := Some(utcNow))
    ensures IdsOf(r) == IdsOf(s)
    ensures UniqueIds(s) ==> UniqueIds(r)
  {
    var r := seq(|s|, i requires 0 <= i < |s| => s[i].(syncedAt := Some(utcNow)));
    assert forall y :: y in s ==> y.(syncedAt := Some(utcNow)) in r by {
      forall y | y in s ensures y.(syncedAt := Some(utcNow)) in r {
        var i :| 0 <= i < |s| && s[i] == y;
        assert r[i] == y.(syncedAt := Some(utcNow));
      }
    }
    r
  }

  /** Sets SyncedAt to utcNow on every local change, one record at a time. */
  method StampSynced(list: seq<Record>, utcNow: Ticks) returns (stamped: seq<Record>)
    ensures stamped == WithSyncedAt(list, utcNow)
  {
    stamped := list;
    for i := 0 to |list|
      invariant |stamped| == |list|
      invariant forall j :: 0 <= j < i ==> stamped[j] == list[j].(syncedAt := Some(utcNow))
      invariant forall j :: i <= j < |list| ==> stamped[j] == list[j]
    {
      stamped := stamped[i := stamped[i].(syncedAt := Some(utcNow))];
    }
  }

  /**
   * What the decision step makes of the window's changes `c`: the strategy resolves the
   * conflicts, then the surviving local records are stamped with SyncedAt = utcNow.
   */
  function Decide(strategy: SyncStrategy, c: Changes, utcNow: Ticks): Result<Changes, SyncError>
  {
    match Resolve(strategy, c, ConflictIds(c.here, c.there))
    case Err(e) => Err(e)
    case Ok(w) => Ok(Changes(WithSyncedAt(w.here, utcNow), w.there))
  }

  /**
   * What one call of SyncTablesAsync writes: `here` is the list upserted into the
   * remote table, `there` the list upserted into the local table; or the error it throws.
   */
  function SyncPlan(strategy: SyncStrategy, from: Ticks, to: Ticks,
                    hereRows: seq<Record>, thereRows: seq<Record>, utcNow: Ticks): Result<Changes, SyncError>
  {
    Decide(strategy, Candidates(from, to, hereRows, thereRows), utcNow)
  }

  /** Upserts every record of the list into the destination table, in order. */
  method AddOrUpdateEntities(destination: Table, entities: seq<Record>)
    requires destination.Valid()
    modifies destination
    ensures destination.Valid()
    ensures destination.rows == UpsertAll(old(destination.rows), entities)
  {
    for i := 0 to |entities|
      invariant destination.Valid()
      invariant destination.rows == UpsertAll(old(destination.rows), entities[..i])
    {
      assert entities[..i + 1][..i] == entities[..i];
      destination.AddOrUpdate(entities[i]);
    }
    assert entities[..|entities|] == entities;
  }

  /**
   * Synchronises one pair of tables over the window (from, to]. On a conflict under
   * Stop it fails and neither table changes; otherwise each table receives the other
   * side's surviving changes.
   */
  method SyncTables(strategy: SyncStrategy, from: Ticks, to: Ticks,
                    hereTable: Table, thereTable: Table, utcNow: Ticks)
    returns (r: Result<Changes, SyncError>)
    requires hereTable != thereTable
    requires hereTable.Valid() && thereTable.Valid()
    modifies hereTable, thereTable
    ensures hereTable.Valid() && thereTable.Valid()
    ensures r == SyncPlan(strategy, from, to, old(hereTable.rows), old(thereTable.rows), utcNow)
    ensures r.Err? ==> hereTable.rows == old(hereTable.rows) && thereTable.rows == old(thereTable.rows)
    ensures r.Ok? ==> thereTable.rows == UpsertAll(old(thereTable.rows), r.value.here)
    ensures r.Ok? ==> hereTable.rows == UpsertAll(old(hereTable.rows), r.value.there)
  {
    var changedHere := SelectHere(hereTable.rows, from, to);
    var changedThere := SelectThere(thereTable.rows, from, to);
    var same := Elements(SameInstantIds(changedHere, changedThere));
    changedHere := Drop(changedHere, same);
    changedThere := Drop(changedThere, same);
    var conflicts := ConflictIds(changedHere, changedThere);
    var resolved := ResolveConflicts(strategy, Changes(changedHere, changedThere), conflicts);
    if resolved.Err? {
      return Err(resolved.error);
    }
    var stamped := StampSynced(resolved.value.here, utcNow);
    AddOrUpdateEntities(thereTable, stamped);
    AddOrUpdateEntities(hereTable, resolved.value.there);
    r := Ok(Changes(stamped, resolved.value.there));
  }
}
