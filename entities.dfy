/**
 * The shape every synchronised entity shares (ISyncableEntity): a Guid key, the
 * created and changed instants, an optional synced instant and a soft-delete flag.
 * Instants are DateTime values counted in ticks.
 */
module Entities {
  import opened Wrappers

  /** Ticks in one day (TimeSpan.TicksPerDay). */
  const TicksPerDay: int := 864_000_000_000

  /** The ticks of DateTime.MaxValue; no DateTime lies beyond it. */
  const MaxTicks: int := 3_155_378_975_999_999_999

  type Ticks = t: int | 0 <= t <= MaxTicks

  type Guid = nat

  datatype Record = Record(
    id: Guid,
    createdAt: Ticks,
    changedAt: Ticks,
    syncedAt: Option<Ticks>,
    isDeleted: bool)

  /** The keys present in a list of records. */
  function IdsOf(s: seq<Record>): set<Guid>
  {
    set x | x in s :: x.id
  }

  /** No two records of the list share a key (the Guid is the primary key). */
  predicate UniqueIds(s: seq<Record>)
  {
    forall i, j :: 0 <= i < j < |s| ==> s[i].id != s[j].id
  }

  /** The records of `s` that `keep` accepts, in their order (LINQ Where). */
  function Filter(s: seq<Record>, keep: Record -> bool): (r: seq<Record>)
    ensures |r| <= |s|
    ensures forall x :: x in r <==> x in s && keep(x)
    ensures UniqueIds(s) ==> UniqueIds(r)
  {
    if s == [] then []
    else
      var rest := Filter(s[1..], keep);
      if keep(s[0]) then
        if UniqueIds(s) then UniqueTail(s); UniqueCons(s[0], rest); [s[0]] + rest
        else [s[0]] + rest
      else rest
  }

  /** The records of `s` whose key is not in `ids`, in their order. */
  function Drop(s: seq<Record>, ids: set<Guid>): (r: seq<Record>)
    ensures |r| <= |s|
    ensures forall x :: x in r <==> x in s && x.id !in ids
    ensures IdsOf(r) == IdsOf(s) - ids
    ensures UniqueIds(s) ==> UniqueIds(r)
  {
    if s == [] then []
    else
      var rest := Drop(s[1..], ids);
      assert forall x :: x in s <==> x == s[0] || x in s[1..];
      assert IdsOf(s) == {s[0].id} + IdsOf(s[1..]);
      if s[0].id in ids then rest
      else if UniqueIds(s) then UniqueTail(s); UniqueCons(s[0], rest); [s[0]] + rest
      else [s[0]] + rest
  }

  /** The position of the first record with key `id` (LINQ First / FirstOrDefault). */
  function IndexOf(s: seq<Record>, id: Guid): (r: Option<nat>)
    ensures r.None? <==> id !in IdsOf(s)
    ensures r.Some? ==> r.value < |s| && s[r.value].id == id
    ensures r.Some? ==> forall j :: 0 <= j < r.value ==> s[j].id != id
  {
    if s == [] then None
    else if s[0].id == id then Some(0)
    else
      match IndexOf(s[1..], id)
      case None =>
        assert forall x :: x in s ==> x == s[0] || x in s[1..];
        None
      case Some(i) => Some(i + 1)
  }

  /** The first record with key `id` (LINQ First with a key test). */
  function FirstWithId(s: seq<Record>, id: Guid): (r: Record)
    requires id in IdsOf(s)
    ensures r in s && r.id == id
    ensures UniqueIds(s) ==> forall x :: x in s && x.id == id ==> x == r
  {
    s[IndexOf(s, id).value]
  }

  /** The list without its first record with key `id` (List.Remove of that record). */
  function RemoveFirstWithId(s: seq<Record>, id: Guid): (r: seq<Record>)
    requires id in IdsOf(s)
    ensures |r| == |s| - 1
  {
    if s[0].id == id then s[1..]
    else
      assert id in IdsOf(s[1..]) by {
        var x :| x in s && x.id == id;
        assert x != s[0];
      }
      [s[0]] + RemoveFirstWithId(s[1..], id)
  }

  /** The head of a list with unique keys does not reappear in its tail. */
  lemma UniqueTail(s: seq<Record>)
    requires s != [] && UniqueIds(s)
    ensures UniqueIds(s[1..]) && s[0].id !in IdsOf(s[1..])
  {
    forall x | x in s[1..] ensures x.id != s[0].id {
      var j :| 0 <= j < |s| - 1 && s[1..][j] == x;
      assert s[j + 1] == x;
    }
  }

  /** Prepending a record with a fresh key keeps the keys unique. */
  lemma UniqueCons(x: Record, s: seq<Record>)
    requires UniqueIds(s) && x.id !in IdsOf(s)
    ensures UniqueIds([x] + s)
  {
    forall i, j | 0 <= i < j < |[x] + s| ensures ([x] + s)[i].id != ([x] + s)[j].id {
      if i == 0 {
        assert ([x] + s)[j] == s[j - 1];
        assert s[j - 1] in s;
      }
    }
  }

  /** Dropping two key sets that agree on the keys of `s` gives the same list. */
  lemma {:induction false} DropSameOn(s: seq<Record>, a: set<Guid>, b: set<Guid>)
    requires forall x :: x in s ==> (x.id in a <==> x.id in b)
    ensures Drop(s, a) == Drop(s, b)
  {
    if s != [] {
      assert forall x :: x in s[1..] ==> x in s;
      DropSameOn(s[1..], a, b);
    }
  }

  /** Dropping `ids` from a list with unique keys removes exactly one record per key dropped. */
  lemma {:induction false} DropLength(s: seq<Record>, ids: set<Guid>)
    requires UniqueIds(s) && ids <= IdsOf(s)
    ensures |Drop(s, ids)| == |s| - |ids|
  {
    if s != [] {
      var t := s[1..];
      UniqueTail(s);
      assert forall x :: x in s <==> x == s[0] || x in t;
      assert IdsOf(s) == {s[0].id} + IdsOf(t);
      if s[0].id in ids {
        var rest := ids - {s[0].id};
        DropSameOn(t, ids, rest);
        DropLength(t, rest);
      } else {
        DropLength(t, ids);
      }
    }
  }

  /** Removing the first record with a key not yet dropped is dropping that key too. */
  lemma {:induction false} RemoveIsDrop(s: seq<Record>, ids: set<Guid>, id: Guid)
    requires UniqueIds(s) && id in IdsOf(s) && id !in ids
    ensures id in IdsOf(Drop(s, ids))
    ensures RemoveFirstWithId(Drop(s, ids), id) == Drop(s, ids + {id})
  {
    var t := s[1..];
    UniqueTail(s);
    assert forall x :: x in s <==> x == s[0] || x in t;
    if s[0].id == id {
      DropSameOn(t, ids, ids + {id});
    } else {
      RemoveIsDrop(t, ids, id);
    }
  }

  /** Dropping no key changes nothing. */
  lemma {:induction false} DropNone(s: seq<Record>)
    ensures Drop(s, {}) == s
  {
    if s != [] {
      DropNone(s[1..]);
    }
  }
}
