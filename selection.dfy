/**
 * The first half of SyncTablesAsync: the two "changed in the window" queries, the
 * same-instant filter and the conflict ids. All of it is LINQ over the query results.
 */
module Selection {
  import opened Wrappers
  import opened Entities

  /** The half-open window (from, to]. */
  predicate InWindow(t: Ticks, from: Ticks, to: Ticks)
  {
    from < t <= to
  }

  /** A local row is in the window when it was changed or created in it. */
  predicate ChangedHere(x: Record, from: Ticks, to: Ticks)
  {
    InWindow(x.changedAt, from, to) || InWindow(x.createdAt, from, to)
  }

  /**
   * A remote row also qualifies when it was synced in the window; a comparison
   * with a null SyncedAt is false, so an unsynced row never qualifies that way.
   */
  predicate ChangedThere(x: Record, from: Ticks, to: Ticks)
  {
    ChangedHere(x, from, to) || (x.syncedAt.Some? && InWindow(x.syncedAt.value, from, to))
  }

  /** The local query: rows changed or created in (from, to]. */
  function SelectHere(rows: seq<Record>, from: Ticks, to: Ticks): (r: seq<Record>)
    ensures forall x :: x in r <==>
      x in rows && (from < x.changedAt <= to || from < x.createdAt <= to)
    ensures UniqueIds(rows) ==> UniqueIds(r)
  {
    Filter(rows, (x: Record) => ChangedHere(x, from, to))
  }

  /** The remote query: rows changed, created or synced in (from, to]. */
  function SelectThere(rows: seq<Record>, from: Ticks, to: Ticks): (r: seq<Record>)
    ensures forall x :: x in r <==>
      x in rows && (from < x.changedAt <= to || from < x.createdAt <= to
                    || (x.syncedAt.Some? && from < x.syncedAt.value <= to))
    ensures UniqueIds(rows) ==> UniqueIds(r)
  {
    Filter(rows, (x: Record) => ChangedThere(x, from, to))
  }

  /** The keys of a list, in order (a projection onto the Id). */
  function Ids(s: seq<Record>): (r: seq<Guid>)
    ensures |r| == |s|
    ensures forall i :: 0 <= i < |s| ==> r[i] == s[i].id
    ensures forall id :: id in r <==> id in IdsOf(s)
    ensures UniqueIds(s) ==> Distinct(r)
  {
    var r := seq(|s|, i requires 0 <= i < |s| => s[i].id);
    assert forall id :: id in IdsOf(s) ==> id in r by {
      forall id | id in IdsOf(s) ensures id in r {
        var x :| x in s && x.id == id;
        var i :| 0 <= i < |s| && s[i] == x;
        assert r[i] == id;
      }
    }
    r
  }

  /** No key occurs twice. */
  predicate Distinct(ids: seq<Guid>)
  {
    forall i, j :: 0 <= i < j < |ids| ==> ids[i] != ids[j]
  }

  /** The keys of a list of keys, as a set (what List.Contains tests). */
  function Elements(ids: seq<Guid>): set<Guid>
  {
    set id | id in ids
  }

  /** Some local row has the key of `there` and the same ChangedAt. */
  predicate SameInstant(here: seq<Record>, there: Record)
  {
    exists h :: h in here && h.id == there.id && h.changedAt == there.changedAt
  }

  /** The keys that both sides changed at exactly the same instant. */
  function SameInstantIds(here: seq<Record>, there: seq<Record>): (r: seq<Guid>)
    ensures forall id :: id in r <==>
      exists t, h :: t in there && h in here && t.id == id && h.id == id && h.changedAt == t.changedAt
  {
    var f := Filter(there, (t: Record) => SameInstant(here, t));
    assert forall id :: id in IdsOf(f) <==>
      exists t, h :: t in there && h in here && t.id == id && h.id == id && h.changedAt == t.changedAt
    by {
      forall id | id in IdsOf(f)
        ensures exists t, h :: t in there && h in here && t.id == id && h.id == id && h.changedAt == t.changedAt
      {
        var t :| t in f && t.id == id;
        var h :| h in here && h.id == t.id && h.changedAt == t.changedAt;
      }
      forall id | exists t, h :: t in there && h in here && t.id == id && h.id == id && h.changedAt == t.changedAt
        ensures id in IdsOf(f)
      {
        var t, h :| t in there && h in here && t.id == id && h.id == id && h.changedAt == t.changedAt;
        assert SameInstant(here, t);
        assert t in f;
      }
    }
    Ids(f)
  }

  /** The keys of remote changes that also changed locally, in remote order. */
  function ConflictIds(here: seq<Record>, there: seq<Record>): (r: seq<Guid>)
    ensures forall id :: id in r <==> id in IdsOf(here) && id in IdsOf(there)
    ensures UniqueIds(there) ==> Distinct(r)
  {
    var f := Filter(there, (t: Record) => t.id in IdsOf(here));
    assert IdsOf(f) == IdsOf(here) * IdsOf(there) by {
      forall id | id in IdsOf(here) * IdsOf(there) ensures id in IdsOf(f) {
        var t :| t in there && t.id == id;
        assert t in f;
      }
    }
    Ids(f)
  }

  /** The two lists of changes, one per side, with what changed at the same instant on both removed. */
  datatype Changes = Changes(here: seq<Record>, there: seq<Record>)

  /** Both queries of the window, then the same-instant filter applied to both results. */
  function Candidates(from: Ticks, to: Ticks, hereRows: seq<Record>, thereRows: seq<Record>): Changes
  {
    var changedHere := SelectHere(hereRows, from, to);
    var changedThere := SelectThere(thereRows, from, to);
    var same := Elements(SameInstantIds(changedHere, changedThere));
    Changes(Drop(changedHere, same), Drop(changedThere, same))
  }

  /**
   * A local row survives the same-instant filter exactly when it is in the window and
   * no remote row of the window has its key and its ChangedAt; symmetrically for remote rows.
   */
  lemma CandidatesSpec(from: Ticks, to: Ticks, hereRows: seq<Record>, thereRows: seq<Record>)
    requires UniqueIds(hereRows) && UniqueIds(thereRows)
    ensures var c := Candidates(from, to, hereRows, thereRows);
      && UniqueIds(c.here) && UniqueIds(c.there)
      && (forall x :: x in c.here <==>
            x in hereRows && ChangedHere(x, from, to)
            && !(exists t :: t in thereRows && ChangedThere(t, from, to) && t.id == x.id && t.changedAt == x.changedAt))
      && (forall x :: x in c.there <==>
            x in thereRows && ChangedThere(x, from, to)
            && !(exists h :: h in hereRows && ChangedHere(h, from, to) && h.id == x.id && h.changedAt == x.changedAt))
  {
    LocalCandidatesSpec(from, to, hereRows, thereRows);
    RemoteCandidatesSpec(from, to, hereRows, thereRows);
  }

  /** The local half of CandidatesSpec. */
  lemma LocalCandidatesSpec(from: Ticks, to: Ticks, hereRows: seq<Record>, thereRows: seq<Record>)
    requires UniqueIds(hereRows)
    ensures var c := Candidates(from, to, hereRows, thereRows);
      && UniqueIds(c.here)
      && (forall x :: x in c.here <==>
            x in hereRows && ChangedHere(x, from, to)
            && !(exists t :: t in thereRows && ChangedThere(t, from, to) && t.id == x.id && t.changedAt == x.changedAt))
  {
    var changedHere := SelectHere(hereRows, from, to);
    var changedThere := SelectThere(thereRows, from, to);
    var same := Elements(SameInstantIds(changedHere, changedThere));
    forall x | x in changedHere
      ensures x.id in same <==>
        exists t :: t in thereRows && ChangedThere(t, from, to) && t.id == x.id && t.changedAt == x.changedAt
    {
      if x.id in same {
        var t, h :| t in changedThere && h in changedHere && t.id == x.id && h.id == x.id && h.changedAt == t.changedAt;
        assert h == x by { UniqueOnKey(hereRows, h, x); }
      }
    }
  }

  /** The remote half of CandidatesSpec. */
  lemma RemoteCandidatesSpec(from: Ticks, to: Ticks, hereRows: seq<Record>, thereRows: seq<Record>)
    requires UniqueIds(thereRows)
    ensures var c := Candidates(from, to, hereRows, thereRows);
      && UniqueIds(c.there)
      && (forall x :: x in c.there <==>
            x in thereRows && ChangedThere(x, from, to)
            && !(exists h :: h in hereRows && ChangedHere(h, from, to) && h.id == x.id && h.changedAt == x.changedAt))
  {
    var changedHere := SelectHere(hereRows, from, to);
    var changedThere := SelectThere(thereRows, from, to);
    var same := Elements(SameInstantIds(changedHere, changedThere));
    forall x | x in changedThere
      ensures x.id in same <==>
        exists h :: h in hereRows && ChangedHere(h, from, to) && h.id == x.id && h.changedAt == x.changedAt
    {
      if x.id in same {
        var t, h :| t in changedThere && h in changedHere && t.id == x.id && h.id == x.id && h.changedAt == t.changedAt;
        assert t == x by { UniqueOnKey(thereRows, t, x); }
      }
    }
  }

  /** In a list with unique keys, a key names one record. */
  lemma UniqueOnKey(s: seq<Record>, a: Record, b: Record)
    requires UniqueIds(s) && a in s && b in s && a.id == b.id
    ensures a == b
  {
    var i :| 0 <= i < |s| && s[i] == a;
    var j :| 0 <= j < |s| && s[j] == b;
    assert i == j;
  }

  /** After the same-instant filter, the two copies of a conflicting key never carry the same ChangedAt. */
  lemma ConflictsNeverTie(from: Ticks, to: Ticks, hereRows: seq<Record>, thereRows: seq<Record>, id: Guid)
    requires UniqueIds(hereRows) && UniqueIds(thereRows)
    requires var c := Candidates(from, to, hereRows, thereRows); id in IdsOf(c.here) && id in IdsOf(c.there)
    ensures var c := Candidates(from, to, hereRows, thereRows);
      FirstWithId(c.here, id).changedAt != FirstWithId(c.there, id).changedAt
  {
    var c := Candidates(from, to, hereRows, thereRows);
    CandidatesSpec(from, to, hereRows, thereRows);
    var h, t := FirstWithId(c.here, id), FirstWithId(c.there, id);
    assert t in thereRows && ChangedThere(t, from, to) && t.id == h.id;
  }
}
