/**
 * What one synchronisation call guarantees. The strategy's properties are stated over
 * Decide for any pair of change lists; the window's over SyncPlan.
 */
module SyncProperties {
  import opened Wrappers
  import opened Entities
  import opened Selection
  import opened Resolution
  import opened Sync

  /** The keys that both lists hold. */
  function ConflictSet(c: Changes): set<Guid>
  {
    IdsOf(c.here) * IdsOf(c.there)
  }

  /** Once the strategy has run, each side's written list is its changes less its losers. */
  lemma DecideDrops(strategy: SyncStrategy, c: Changes, utcNow: Ticks)
    requires !strategy.Stop?
    ensures Decide(strategy, c, utcNow) ==
      Ok(Changes(WithSyncedAt(Drop(c.here, HereLosers(strategy, c, ConflictSet(c))), utcNow),
                 Drop(c.there, ThereLosers(strategy, c, ConflictSet(c)))))
  {
    var conflicts := ConflictIds(c.here, c.there);
    assert Elements(conflicts) == ConflictSet(c);
    if |conflicts| == 0 {
      assert ConflictSet(c) == {};
      assert HereLosers(strategy, c, {}) == {} && ThereLosers(strategy, c, {}) == {};
      DropNone(c.here);
      DropNone(c.there);
    }
  }

  /**
   * The decision fails exactly when the strategy is Stop and some key is in both lists
   * (so nothing is written); otherwise, without conflicts, both lists go out whole.
   */
  lemma DecideFailsIffStopWithConflicts(strategy: SyncStrategy, c: Changes, utcNow: Ticks)
    ensures Decide(strategy, c, utcNow).Err? <==> strategy.Stop? && ConflictSet(c) != {}
    ensures ConflictSet(c) == {} ==> Decide(strategy, c, utcNow) == Ok(Changes(WithSyncedAt(c.here, utcNow), c.there))
  {
    var conflicts := ConflictIds(c.here, c.there);
    assert Elements(conflicts) == ConflictSet(c);
    assert conflicts != [] ==> conflicts[0] in ConflictSet(c);
    if ConflictSet(c) != {} {
      var id :| id in ConflictSet(c);
      assert id in conflicts;
    }
  }

  /** No key is ever written in both directions by one decision. */
  lemma DecideWritesNoIdBothWays(strategy: SyncStrategy, c: Changes, utcNow: Ticks)
    ensures var d := Decide(strategy, c, utcNow);
      d.Ok? ==> IdsOf(d.value.here) !! IdsOf(d.value.there)
  {
    if strategy.Stop? {
      DecideFailsIffStopWithConflicts(strategy, c, utcNow);
    } else {
      DecideDrops(strategy, c, utcNow);
      LosersPartition(strategy, c, ConflictSet(c));
    }
  }

  /** Only records of the two lists are written; local ones are stamped with SyncedAt = utcNow. */
  lemma DecideWritesOnlyChanges(strategy: SyncStrategy, c: Changes, utcNow: Ticks)
    ensures var d := Decide(strategy, c, utcNow);
      d.Ok? ==>
        && (forall x :: x in d.value.there ==> x in c.there)
        && (forall x :: x in d.value.here ==>
              x.syncedAt == Some(utcNow) && exists y :: y in c.here && x == y.(syncedAt := Some(utcNow)))
  {
    if strategy.Stop? {
      DecideFailsIffStopWithConflicts(strategy, c, utcNow);
    } else {
      DecideDrops(strategy, c, utcNow);
    }
  }

  /** Whatever the strategy, a change made on one side only is written to the other side. */
  lemma DecideKeepsOneSidedChanges(strategy: SyncStrategy, c: Changes, utcNow: Ticks)
    ensures var d := Decide(strategy, c, utcNow);
      d.Ok? ==>
        && (forall x :: x in c.here && x.id !in IdsOf(c.there) ==> x.(syncedAt := Some(utcNow)) in d.value.here)
        && (forall x :: x in c.there && x.id !in IdsOf(c.here) ==> x in d.value.there)
  {
    if strategy.Stop? {
      DecideFailsIffStopWithConflicts(strategy, c, utcNow);
    } else {
      var cs := ConflictSet(c);
      var hl, tl := HereLosers(strategy, c, cs), ThereLosers(strategy, c, cs);
      DecideDrops(strategy, c, utcNow);
      LosersPartition(strategy, c, cs);
      var keptHere := Drop(c.here, hl);
      assert forall x :: x in c.here && x.id !in IdsOf(c.there) ==> x.(syncedAt := Some(utcNow)) in WithSyncedAt(keptHere, utcNow) by {
        KeptOutsideLosers(c.here, IdsOf(c.there), hl);
        forall x | x in c.here && x.id !in IdsOf(c.there)
          ensures x.(syncedAt := Some(utcNow)) in WithSyncedAt(keptHere, utcNow)
        {
          StampedMember(keptHere, x, utcNow);
        }
      }
      KeptOutsideLosers(c.there, IdsOf(c.here), tl);
    }
  }

  /** A record whose key lies outside a set of losers survives dropping them. */
  lemma KeptOutsideLosers(s: seq<Record>, others: set<Guid>, losers: set<Guid>)
    requires losers <= IdsOf(s) * others
    ensures forall x :: x in s && x.id !in others ==> x in Drop(s, losers)
  {
  }

  /** OverrideAzure: every local change goes out; the remote copy of every conflicting key is discarded. */
  lemma DecideLocalWins(c: Changes, utcNow: Ticks)
    ensures var d := Decide(OverrideAzure, c, utcNow);
      && d.Ok?
      && d.value.here == WithSyncedAt(c.here, utcNow)
      && (forall x :: x in d.value.there <==> x in c.there && x.id !in IdsOf(c.here))
  {
    DecideDrops(OverrideAzure, c, utcNow);
    DropNone(c.here);
  }

  /** OverrideLocal: every remote change comes in; the local copy of every conflicting key is discarded. */
  lemma DecideRemoteWins(c: Changes, utcNow: Ticks)
    ensures var d := Decide(OverrideLocal, c, utcNow);
      && d.Ok?
      && d.value.there == c.there
      && (forall x :: x in d.value.here <==>
            exists y :: y in c.here && y.id !in IdsOf(c.there) && x == y.(syncedAt := Some(utcNow)))
  {
    DecideDrops(OverrideLocal, c, utcNow);
    DropNone(c.there);
  }

  /**
   * OverrideOld: for a key in both lists, the copy with the strictly later ChangedAt is
   * written to the other side and the other copy nowhere; on a tie the local copy is kept.
   */
  lemma DecideNewestWins(c: Changes, utcNow: Ticks, id: Guid)
    requires UniqueIds(c.here) && UniqueIds(c.there)
    requires id in ConflictSet(c)
    ensures var d := Decide(OverrideOld, c, utcNow);
      var h, t := FirstWithId(c.here, id), FirstWithId(c.there, id);
      && d.Ok?
      && (t.changedAt > h.changedAt ==> t in d.value.there && id !in IdsOf(d.value.here))
      && (t.changedAt <= h.changedAt ==> h.(syncedAt := Some(utcNow)) in d.value.here && id !in IdsOf(d.value.there))
  {
    var cs := ConflictSet(c);
    DecideDrops(OverrideOld, c, utcNow);
    var hl, tl := HereLosers(OverrideOld, c, cs), ThereLosers(OverrideOld, c, cs);
    var h, t := FirstWithId(c.here, id), FirstWithId(c.there, id);
    var keptHere, keptThere := Drop(c.here, hl), Drop(c.there, tl);
    var stamped := WithSyncedAt(keptHere, utcNow);
    if t.changedAt > h.changedAt {
      assert id !in IdsOf(stamped) by {
        assert id in hl;
        assert id !in IdsOf(keptHere);
      }
      assert t in keptThere by {
        assert id !in tl;
      }
    } else {
      assert h.(syncedAt := Some(utcNow)) in stamped by {
        assert id !in hl;
        assert h in keptHere;
        StampedMember(keptHere, h, utcNow);
      }
      assert id !in IdsOf(keptThere) by {
        assert id in tl;
      }
    }
  }

  /** A record of a list is in the stamped list with SyncedAt = utcNow. */
  lemma StampedMember(s: seq<Record>, y: Record, utcNow: Ticks)
    requires y in s
    ensures y.(syncedAt := Some(utcNow)) in WithSyncedAt(s, utcNow)
  {
  }

  /**
   * Every strategy but Stop discards exactly one record per conflicting key: the two
   * written lists hold the changes less one record per conflict.
   */
  lemma DecideDropsOnePerConflict(strategy: SyncStrategy, c: Changes, utcNow: Ticks)
    requires UniqueIds(c.here) && UniqueIds(c.there)
    requires !strategy.Stop?
    ensures var d := Decide(strategy, c, utcNow);
      && d.Ok?
      && |d.value.here| + |d.value.there| == |c.here| + |c.there| - |ConflictSet(c)|
  {
    var cs := ConflictSet(c);
    DecideDrops(strategy, c, utcNow);
    LosersPartition(strategy, c, cs);
    var hl, tl := HereLosers(strategy, c, cs), ThereLosers(strategy, c, cs);
    DropLength(c.here, hl);
    DropLength(c.there, tl);
    assert |hl + tl| == |hl| + |tl|;
  }

  /**
   * Everything written to the local table is an unchanged remote row of the window;
   * everything written to the remote table is a local row of the window with SyncedAt = utcNow.
   */
  lemma PlanStaysInWindow(strategy: SyncStrategy, from: Ticks, to: Ticks,
                          hereRows: seq<Record>, thereRows: seq<Record>, utcNow: Ticks)
    ensures var p := SyncPlan(strategy, from, to, hereRows, thereRows, utcNow);
      p.Ok? ==>
        && (forall x :: x in p.value.there ==> x in thereRows && ChangedThere(x, from, to))
        && (forall x :: x in p.value.here ==>
              x.syncedAt == Some(utcNow)
              && exists y :: y in hereRows && ChangedHere(y, from, to) && x == y.(syncedAt := Some(utcNow)))
  {
    var c := Candidates(from, to, hereRows, thereRows);
    DecideWritesOnlyChanges(strategy, c, utcNow);
  }

  /** A key that both sides changed at the same instant within the window is written to neither table. */
  lemma PlanSkipsSameInstant(strategy: SyncStrategy, from: Ticks, to: Ticks,
                             hereRows: seq<Record>, thereRows: seq<Record>, utcNow: Ticks,
                             h: Record, t: Record)
    requires h in hereRows && t in thereRows && h.id == t.id && h.changedAt == t.changedAt
    requires ChangedHere(h, from, to) && ChangedThere(t, from, to)
    ensures var p := SyncPlan(strategy, from, to, hereRows, thereRows, utcNow);
      p.Ok? ==> h.id !in IdsOf(p.value.here) && h.id !in IdsOf(p.value.there)
  {
    var c := Candidates(from, to, hereRows, thereRows);
    SameInstantNotCandidate(from, to, hereRows, thereRows, h, t);
    DecideWritesOnlyChanges(strategy, c, utcNow);
    DecideKeepsKeys(strategy, c, utcNow);
  }

  /** A decision writes no key that its two lists did not hold. */
  lemma DecideKeepsKeys(strategy: SyncStrategy, c: Changes, utcNow: Ticks)
    ensures var d := Decide(strategy, c, utcNow);
      d.Ok? ==> IdsOf(d.value.here) <= IdsOf(c.here) && IdsOf(d.value.there) <= IdsOf(c.there)
  {
    if strategy.Stop? {
      DecideFailsIffStopWithConflicts(strategy, c, utcNow);
    } else {
      DecideDrops(strategy, c, utcNow);
    }
  }

  /** Both copies of a same-instant change leave the candidate lists: the filter drops by key. */
  lemma SameInstantNotCandidate(from: Ticks, to: Ticks, hereRows: seq<Record>, thereRows: seq<Record>,
                                h: Record, t: Record)
    requires h in hereRows && t in thereRows && h.id == t.id && h.changedAt == t.changedAt
    requires ChangedHere(h, from, to) && ChangedThere(t, from, to)
    ensures var c := Candidates(from, to, hereRows, thereRows);
      h.id !in IdsOf(c.here) && h.id !in IdsOf(c.there)
  {
    var changedHere := SelectHere(hereRows, from, to);
    var changedThere := SelectThere(thereRows, from, to);
    assert h in changedHere && t in changedThere;
    assert h.id in SameInstantIds(changedHere, changedThere);
  }


  /**
   * Two copies of a key changed in the window at different instants are both candidates,
   * and they are the copies the two candidate lists hold for that key.
   */
  lemma ConflictingCandidates(from: Ticks, to: Ticks, hereRows: seq<Record>, thereRows: seq<Record>,
                              h: Record, t: Record)
    requires UniqueIds(hereRows) && UniqueIds(thereRows)
    requires h in hereRows && t in thereRows && h.id == t.id && h.changedAt != t.changedAt
    requires ChangedHere(h, from, to) && ChangedThere(t, from, to)
    ensures var c := Candidates(from, to, hereRows, thereRows);
      && UniqueIds(c.here) && UniqueIds(c.there)
      && h.id in ConflictSet(c)
      && FirstWithId(c.here, h.id) == h && FirstWithId(c.there, h.id) == t
  {
    var c := Candidates(from, to, hereRows, thereRows);
    LocalCopyIsCandidate(from, to, hereRows, thereRows, h, t);
    RemoteCopyIsCandidate(from, to, hereRows, thereRows, h, t);
    assert h.id in IdsOf(c.here) && h.id in IdsOf(c.there);
  }

  /** The local copy of a key changed on both sides at different instants survives the same-instant filter. */
  lemma LocalCopyIsCandidate(from: Ticks, to: Ticks, hereRows: seq<Record>, thereRows: seq<Record>,
                             h: Record, t: Record)
    requires UniqueIds(hereRows) && UniqueIds(thereRows)
    requires h in hereRows && t in thereRows && h.id == t.id && h.changedAt != t.changedAt
    requires ChangedHere(h, from, to)
    ensures var c := Candidates(from, to, hereRows, thereRows); UniqueIds(c.here) && h in c.here
  {
    LocalCandidatesSpec(from, to, hereRows, thereRows);
    forall t' | t' in thereRows && t'.id == h.id
      ensures t'.changedAt != h.changedAt
    {
      UniqueOnKey(thereRows, t, t');
    }
  }

  /** The remote copy of a key changed on both sides at different instants survives the same-instant filter. */
  lemma RemoteCopyIsCandidate(from: Ticks, to: Ticks, hereRows: seq<Record>, thereRows: seq<Record>,
                              h: Record, t: Record)
    requires UniqueIds(hereRows) && UniqueIds(thereRows)
    requires h in hereRows && t in thereRows && h.id == t.id && h.changedAt != t.changedAt
    requires ChangedThere(t, from, to)
    ensures var c := Candidates(from, to, hereRows, thereRows); UniqueIds(c.there) && t in c.there
  {
    RemoteCandidatesSpec(from, to, hereRows, thereRows);
    forall h' | h' in hereRows && h'.id == t.id
      ensures h'.changedAt != t.changedAt
    {
      UniqueOnKey(hereRows, h, h');
    }
  }

  /**
   * OverrideOld over a window: when both sides changed a key in the window at different
   * instants, the strictly newer copy is written to the other side and the older one nowhere.
   */
  lemma PlanNewestWins(from: Ticks, to: Ticks, hereRows: seq<Record>, thereRows: seq<Record>, utcNow: Ticks,
                       h: Record, t: Record)
    requires UniqueIds(hereRows) && UniqueIds(thereRows)
    requires h in hereRows && t in thereRows && h.id == t.id && h.changedAt != t.changedAt
    requires ChangedHere(h, from, to) && ChangedThere(t, from, to)
    ensures var p := SyncPlan(OverrideOld, from, to, hereRows, thereRows, utcNow);
      && p.Ok?
      && (t.changedAt > h.changedAt ==> t in p.value.there && h.id !in IdsOf(p.value.here))
      && (h.changedAt > t.changedAt ==> h.(syncedAt := Some(utcNow)) in p.value.here && h.id !in IdsOf(p.value.there))
  {
    var c := Candidates(from, to, hereRows, thereRows);
    ConflictingCandidates(from, to, hereRows, thereRows, h, t);
    DecideNewestWins(c, utcNow, h.id);
  }
}
