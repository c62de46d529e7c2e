/**
 * LogTimeStamps, run by every SaveChanges override: unless the context keeps the
 * timestamps it was given, every added syncable entity gets CreatedAt and ChangedAt set
 * to one reading of the clock, and every modified one gets ChangedAt set to it.
 */
module TimeStamps {
  import opened Entities

  /** The change tracker's entity states. */
  datatype EntityState = Detached | Unchanged | Deleted | Modified | Added

  /** A tracked entity: one carrying the sync timestamps, or any other entity. */
  datatype Entity = Syncable(record: Record) | Other(name: string)

  /** One change-tracker entry. */
  datatype Entry = Entry(state: EntityState, entity: Entity)

  predicate IsAddedSyncable(e: Entry)
  {
    e.state == Added && e.entity.Syncable?
  }

  predicate IsModifiedSyncable(e: Entry)
  {
    e.state == Modified && e.entity.Syncable?
  }

  /** The entry as the first loop leaves it. */
  function StampAdded(e: Entry, now: Ticks): Entry
  {
    if IsAddedSyncable(e) then e.(entity := Syncable(e.entity.record.(createdAt := now, changedAt := now))) else e
  }

  /** The entry as the second loop leaves it. */
  function StampModified(e: Entry, now: Ticks): Entry
  {
    if IsModifiedSyncable(e) then e.(entity := Syncable(e.entity.record.(changedAt := now))) else e
  }

  /**
   * The entries after both loops. The states never change; an added syncable entity is
   * created and changed at `now`; a modified one is changed at `now` and keeps its
   * creation time; nobody's id, sync time or deletion flag changes; every other entry
   * stays as it was.
   */
  function StampAll(es: seq<Entry>, now: Ticks): (r: seq<Entry>)
    ensures |r| == |es|
    ensures forall i :: 0 <= i < |es| ==> r[i].state == es[i].state
    ensures forall i :: 0 <= i < |es| && IsAddedSyncable(es[i]) ==>
              r[i].entity == Syncable(es[i].entity.record.(createdAt := now, changedAt := now))
    ensures forall i :: 0 <= i < |es| && IsModifiedSyncable(es[i]) ==>
              r[i].entity == Syncable(es[i].entity.record.(changedAt := now))
    ensures forall i :: 0 <= i < |es| && !IsAddedSyncable(es[i]) && !IsModifiedSyncable(es[i]) ==> r[i] == es[i]
  {
    seq(|es|, i requires 0 <= i < |es| => StampModified(StampAdded(es[i], now), now))
  }

  /** The change tracker of a context, with its KeepTimeStamps flag. */
  class ChangeTracker {
    var keepTimeStamps: bool
    var entries: seq<Entry>

    constructor (keepTimeStamps: bool, entries: seq<Entry>)
      ensures this.keepTimeStamps == keepTimeStamps && this.entries == entries
    {
      this.keepTimeStamps := keepTimeStamps;
      this.entries := entries;
    }

    /** Stamps the added, then the modified syncable entries with the clock reading `now`. */
    method LogTimeStamps(now: Ticks)
      modifies this`entries
      ensures keepTimeStamps ==> entries == old(entries)
      ensures !keepTimeStamps ==> entries == StampAll(old(entries), now)
    {
      if keepTimeStamps {
        return;
      }
      ghost var original := entries;
      for i := 0 to |entries|
        invariant |entries| == |original|
        invariant forall j :: 0 <= j < i ==> entries[j] == StampAdded(original[j], now)
        invariant forall j :: i <= j < |entries| ==> entries[j] == original[j]
      {
        if IsAddedSyncable(entries[i]) {
          var e := entries[i];
          entries := entries[i := e.(entity := Syncable(e.entity.record.(createdAt := now, changedAt := now)))];
        }
      }
      for i := 0 to |entries|
        invariant |entries| == |original|
        invariant forall j :: 0 <= j < i ==> entries[j] == StampModified(StampAdded(original[j], now), now)
        invariant forall j :: i <= j < |entries| ==> entries[j] == StampAdded(original[j], now)
      {
        if IsModifiedSyncable(entries[i]) {
          var e := entries[i];
          entries := entries[i := e.(entity := Syncable(e.entity.record.(changedAt := now)))];
        }
      }
    }
  }

  /** All entries stamped by one call carry the same instant: the clock is read once. */
  lemma StampAllOneInstant(es: seq<Entry>, now: Ticks, i: nat, j: nat)
    requires i < |es| && j < |es|
    requires IsAddedSyncable(es[i]) || IsModifiedSyncable(es[i])
    requires IsAddedSyncable(es[j]) || IsModifiedSyncable(es[j])
    ensures StampAll(es, now)[i].entity.record.changedAt == StampAll(es, now)[j].entity.record.changedAt == now
  {
  }

  /** After stamping, every added syncable entity was created when it last changed. */
  lemma StampedAddedCreatedWhenChanged(es: seq<Entry>, now: Ticks)
    ensures forall i :: 0 <= i < |es| && IsAddedSyncable(StampAll(es, now)[i]) ==>
              StampAll(es, now)[i].entity.record.createdAt == StampAll(es, now)[i].entity.record.changedAt
  {
  }

  /**
   * A later save overrides an earlier one's stamps, so stamping twice is stamping at the
   * later instant; at the same instant stamping is idempotent.
   */
  lemma {:induction false} StampAllLastWins(es: seq<Entry>, earlier: Ticks, later: Ticks)
    ensures StampAll(StampAll(es, earlier), later) == StampAll(es, later)
  {
    var once := StampAll(es, earlier);
    forall i | 0 <= i < |es|
      ensures StampAll(once, later)[i] == StampAll(es, later)[i]
    {
      assert once[i] == StampModified(StampAdded(es[i], earlier), earlier);
    }
  }
}
