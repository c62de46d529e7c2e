/**
 * The second half of SyncTablesAsync's decision: what to do with the keys that
 * changed on both sides, by one of four strategies.
 */
module Resolution {
  import opened Wrappers
  import opened Entities
  import opened Selection

  /** OverrideAzure: the local copy wins; OverrideLocal: the remote copy wins; OverrideOld: the newer copy wins. */
  datatype SyncStrategy = Stop | OverrideAzure | OverrideLocal | OverrideOld

  /** The ApplicationException "Sync failed, nothing changed in either DB". */
  datatype SyncError = ConflictsStopSync

  /** The remote copy of a conflicting key was changed strictly later than the local one. */
  predicate ThereNewer(c: Changes, id: Guid)
    requires id in IdsOf(c.here) && id in IdsOf(c.there)
  {
    FirstWithId(c.there, id).changedAt > FirstWithId(c.here, id).changedAt
  }

  /** The conflicting keys whose local change is discarded. */
  function HereLosers(strategy: SyncStrategy, c: Changes, conflicts: set<Guid>): set<Guid>
    requires conflicts <= IdsOf(c.here) && conflicts <= IdsOf(c.there)
  {
    match strategy
    case Stop => {}
    case OverrideAzure => {}
    case OverrideLocal => conflicts
    case OverrideOld => set id | id in conflicts && ThereNewer(c, id)
  }

  /** The conflicting keys whose remote change is discarded. */
  function ThereLosers(strategy: SyncStrategy, c: Changes, conflicts: set<Guid>): set<Guid>
    requires conflicts <= IdsOf(c.here) && conflicts <= IdsOf(c.there)
  {
    match strategy
    case Stop => {}
    case OverrideAzure => conflicts
    case OverrideLocal => {}
    case OverrideOld => set id | id in conflicts && !ThereNewer(c, id)
  }

  /** The outcome of resolving `conflicts` in `c`: unchanged when there are none, else by the strategy. */
  function Resolve(strategy: SyncStrategy, c: Changes, conflicts: seq<Guid>): Result<Changes, SyncError>
    requires forall id :: id in conflicts ==> id in IdsOf(c.here) && id in IdsOf(c.there)
  {
    var ids := Elements(conflicts);
    if |conflicts| == 0 then Ok(c)
    else if strategy.Stop? then Err(ConflictsStopSync)
    else Ok(Changes(Drop(c.here, HereLosers(strategy, c, ids)), Drop(c.there, ThereLosers(strategy, c, ids))))
  }

  /** Every strategy but Stop discards exactly one side of every conflicting key. */
  lemma LosersPartition(strategy: SyncStrategy, c: Changes, conflicts: set<Guid>)
    requires conflicts <= IdsOf(c.here) && conflicts <= IdsOf(c.there)
    requires !strategy.Stop?
    ensures HereLosers(strategy, c, conflicts) + ThereLosers(strategy, c, conflicts) == conflicts
    ensures HereLosers(strategy, c, conflicts) !! ThereLosers(strategy, c, conflicts)
  {
  }

  /**
   * SyncTablesAsync's switch over the strategy: Stop throws before anything is written,
   * the other three remove conflicting records with List.Remove.
   */
  method ResolveConflicts(strategy: SyncStrategy, c: Changes, conflicts: seq<Guid>)
    returns (r: Result<Changes, SyncError>)
    requires UniqueIds(c.here) && UniqueIds(c.there) && Distinct(conflicts)
    requires forall id :: id in conflicts ==> id in IdsOf(c.here) && id in IdsOf(c.there)
    ensures r == Resolve(strategy, c, conflicts)
  {
    if |conflicts| == 0 {
      return Ok(c);
    }
    match strategy {
      case Stop =>
        r := Err(ConflictsStopSync);
      case OverrideAzure =>
        var there := RemoveConflicts(c.there, conflicts);
        DropNone(c.here);
        r := Ok(Changes(c.here, there));
      case OverrideLocal =>
        var here := RemoveConflicts(c.here, conflicts);
        DropNone(c.there);
        r := Ok(Changes(here, c.there));
      case OverrideOld =>
        r := RemoveOlder(c, conflicts);
    }
  }

  /** Removes, one conflicting key at a time, the first record of the list with that key. */
  method RemoveConflicts(list: seq<Record>, conflicts: seq<Guid>) returns (r: seq<Record>)
    requires UniqueIds(list) && Distinct(conflicts)
    requires forall id :: id in conflicts ==> id in IdsOf(list)
    ensures r == Drop(list, Elements(conflicts))
  {
    r := list;
    DropNone(list);
    assert Elements(conflicts[..0]) == {};
    for k := 0 to |conflicts|
      invariant r == Drop(list, Elements(conflicts[..k]))
    {
      PrefixStep(conflicts, k);
      RemoveIsDrop(list, Elements(conflicts[..k]), conflicts[k]);
      r := RemoveFirstWithId(r, conflicts[k]);
    }
    assert conflicts[..|conflicts|] == conflicts;
  }

  /** The OverrideOld loop: per conflicting key, remove the local copy if the remote one is newer, else the remote copy. */
  method RemoveOlder(c: Changes, conflicts: seq<Guid>) returns (r: Result<Changes, SyncError>)
    requires UniqueIds(c.here) && UniqueIds(c.there) && Distinct(conflicts)
    requires forall id :: id in conflicts ==> id in IdsOf(c.here) && id in IdsOf(c.there)
    ensures r == Ok(Changes(Drop(c.here, HereLosers(OverrideOld, c, Elements(conflicts))),
                            Drop(c.there, ThereLosers(OverrideOld, c, Elements(conflicts)))))
  {
    var here, there := c.here, c.there;
    DropNone(c.here);
    DropNone(c.there);
    assert Elements(conflicts[..0]) == {};
    assert HereLosers(OverrideOld, c, {}) == {} && ThereLosers(OverrideOld, c, {}) == {};
    for k := 0 to |conflicts|
      invariant Elements(conflicts[..k]) <= IdsOf(c.here) && Elements(conflicts[..k]) <= IdsOf(c.there)
      invariant here == Drop(c.here, HereLosers(OverrideOld, c, Elements(conflicts[..k])))
      invariant there == Drop(c.there, ThereLosers(OverrideOld, c, Elements(conflicts[..k])))
    {
      var id := conflicts[k];
      ghost var visited := Elements(conflicts[..k]);
      ghost var newer, notOlder := HereLosers(OverrideOld, c, visited), ThereLosers(OverrideOld, c, visited);
      OlderStep(c, conflicts, k);
      var h := FirstWithId(here, id);
      var t := FirstWithId(there, id);
      assert h == FirstWithId(c.here, id);
      assert t == FirstWithId(c.there, id);
      if t.changedAt > h.changedAt {
        RemoveIsDrop(c.here, newer, id);
        here := RemoveFirstWithId(here, id);
        assert here == Drop(c.here, HereLosers(OverrideOld, c, Elements(conflicts[..k + 1])));
      } else {
        RemoveIsDrop(c.there, notOlder, id);
        there := RemoveFirstWithId(there, id);
        assert there == Drop(c.there, ThereLosers(OverrideOld, c, Elements(conflicts[..k + 1])));
      }
    }
    assert conflicts[..|conflicts|] == conflicts;
    r := Ok(Changes(here, there));
  }

  /** One more conflicting key joins exactly one of the two loser sets, and neither held it before. */
  lemma OlderStep(c: Changes, ids: seq<Guid>, k: nat)
    requires Distinct(ids) && k < |ids|
    requires forall id :: id in ids ==> id in IdsOf(c.here) && id in IdsOf(c.there)
    ensures ids[k] in IdsOf(c.here) && ids[k] in IdsOf(c.there)
    ensures Elements(ids[..k + 1]) <= IdsOf(c.here) && Elements(ids[..k + 1]) <= IdsOf(c.there)
    ensures Elements(ids[..k]) <= IdsOf(c.here) && Elements(ids[..k]) <= IdsOf(c.there)
    ensures ids[k] !in HereLosers(OverrideOld, c, Elements(ids[..k]))
    ensures ids[k] !in ThereLosers(OverrideOld, c, Elements(ids[..k]))
    ensures ThereNewer(c, ids[k]) ==>
      && HereLosers(OverrideOld, c, Elements(ids[..k + 1])) == HereLosers(OverrideOld, c, Elements(ids[..k])) + {ids[k]}
      && ThereLosers(OverrideOld, c, Elements(ids[..k + 1])) == ThereLosers(OverrideOld, c, Elements(ids[..k]))
    ensures !ThereNewer(c, ids[k]) ==>
      && HereLosers(OverrideOld, c, Elements(ids[..k + 1])) == HereLosers(OverrideOld, c, Elements(ids[..k]))
      && ThereLosers(OverrideOld, c, Elements(ids[..k + 1])) == ThereLosers(OverrideOld, c, Elements(ids[..k])) + {ids[k]}
  {
    PrefixStep(ids, k);
    assert forall id :: id in ids[..k + 1] ==> id in ids;
  }

  /** Extending a prefix of distinct keys by one adds a key it did not yet contain. */
  lemma PrefixStep(ids: seq<Guid>, k: nat)
    requires Distinct(ids) && k < |ids|
    ensures Elements(ids[..k + 1]) == Elements(ids[..k]) + {ids[k]}
    ensures ids[k] !in ids[..k]
  {
    assert ids[..k + 1] == ids[..k] + [ids[k]];
  }
}
