/**
 * A database table of synchronised entities (a DbSet) and its upsert-by-key.
 * The rows are kept in storage order; adding a row appends it.
 */
module Tables {
  import opened Wrappers
  import opened Entities

  /**
   * The rows after upserting `data`: the first row with the same key is replaced
   * by `data`, or `data` is appended when no row has that key.
   */
  function Upserted(rows: seq<Record>, data: Record): (r: seq<Record>)
    ensures data in r
    ensures IdsOf(r) == IdsOf(rows) + {data.id}
    ensures |r| == if data.id in IdsOf(rows) then |rows| else |rows| + 1
    ensures forall x :: x in rows && x.id != data.id ==> x in r
    ensures UniqueIds(rows) ==> UniqueIds(r)
    ensures UniqueIds(rows) ==> forall x :: x in r ==> x == data || (x in rows && x.id != data.id)
  {
    match IndexOf(rows, data.id)
    case Some(i) =>
      var r := rows[i := data];
      assert r[i] == data;
      assert forall x :: x in rows && x.id != data.id ==> x in r by {
        forall x | x in rows && x.id != data.id ensures x in r {
          var j :| 0 <= j < |rows| && rows[j] == x;
          assert r[j] == x;
        }
      }
      assert IdsOf(r) == IdsOf(rows) + {data.id} by {
        forall id | id in IdsOf(rows) ensures id in IdsOf(r) {
          var x :| x in rows && x.id == id;
          var j :| 0 <= j < |rows| && rows[j] == x;
          if j == i {
            assert r[i] == data && data.id == id;
          } else {
            assert r[j] == x;
          }
        }
      }
      assert UniqueIds(rows) ==> forall x :: x in r ==> x == data || (x in rows && x.id != data.id) by {
        if UniqueIds(rows) {
          forall x | x in r ensures x == data || (x in rows && x.id != data.id) {
            var j :| 0 <= j < |r| && r[j] == x;
            if j != i {
              assert x == rows[j];
            }
          }
        }
      }
      r
    case None =>
      var r := rows + [data];
      assert UniqueIds(rows) ==> UniqueIds(r) by {
        if UniqueIds(rows) {
          forall i, j | 0 <= i < j < |r| ensures r[i].id != r[j].id {
            if j == |rows| {
              assert rows[i] in rows;
            }
          }
        }
      }
      r
  }

  /** The rows after upserting every record of `list`, first to last. */
  function UpsertAll(rows: seq<Record>, list: seq<Record>): seq<Record>
  {
    if list == [] then rows
    else Upserted(UpsertAll(rows, list[..|list| - 1]), list[|list| - 1])
  }

  /**
   * Upserting a list of distinct keys leaves every listed record in the table,
   * keeps every row whose key is not listed, adds nothing else and keeps the keys unique.
   */
  lemma {:induction false} UpsertAllSpec(rows: seq<Record>, list: seq<Record>)
    requires UniqueIds(rows) && UniqueIds(list)
    ensures UniqueIds(UpsertAll(rows, list))
    ensures IdsOf(UpsertAll(rows, list)) == IdsOf(rows) + IdsOf(list)
    ensures forall x :: x in list ==> x in UpsertAll(rows, list)
    ensures forall x :: x in rows && x.id !in IdsOf(list) ==> x in UpsertAll(rows, list)
    ensures forall x :: x in UpsertAll(rows, list) ==> x in list || (x in rows && x.id !in IdsOf(list))
  {
    if list != [] {
      var n := |list| - 1;
      var p, d := list[..n], list[n];
      assert list == p + [d];
      assert UniqueIds(p) by {
        forall i, j | 0 <= i < j < |p| ensures p[i].id != p[j].id {
          assert p[i] == list[i] && p[j] == list[j];
        }
      }
      assert forall x :: x in p ==> x.id != d.id by {
        forall x | x in p ensures x.id != d.id {
          var i :| 0 <= i < |p| && p[i] == x;
          assert list[i] == x;
        }
      }
      UpsertAllSpec(rows, p);
      UpsertStep(rows, p, d, UpsertAll(rows, p));
    }
  }

  /** One step of UpsertAllSpec's induction: upserting one more record of a new key. */
  lemma UpsertStep(rows: seq<Record>, p: seq<Record>, d: Record, before: seq<Record>)
    requires UniqueIds(before)
    requires forall x :: x in p ==> x.id != d.id
    requires IdsOf(before) == IdsOf(rows) + IdsOf(p)
    requires forall x :: x in p ==> x in before
    requires forall x :: x in rows && x.id !in IdsOf(p) ==> x in before
    requires forall x :: x in before ==> x in p || (x in rows && x.id !in IdsOf(p))
    ensures var after, list := Upserted(before, d), p + [d];
      && UniqueIds(after)
      && IdsOf(after) == IdsOf(rows) + IdsOf(list)
      && (forall x :: x in list ==> x in after)
      && (forall x :: x in rows && x.id !in IdsOf(list) ==> x in after)
      && (forall x :: x in after ==> x in list || (x in rows && x.id !in IdsOf(list)))
  {
    var after, list := Upserted(before, d), p + [d];
    assert forall x :: x in list <==> x in p || x == d;
    assert IdsOf(list) == IdsOf(p) + {d.id};
    forall x | x in list
      ensures x in after
    {
      if x != d {
        assert x in p;
      }
    }
    forall x | x in after
      ensures x in list || (x in rows && x.id !in IdsOf(list))
    {
      if x != d {
        assert x in before && x.id != d.id;
      }
    }
  }

  class Table {
    var rows: seq<Record>

    /** The Guid is the table's primary key. */
    ghost predicate Valid()
      reads this
    {
      UniqueIds(rows)
    }

    constructor (initial: seq<Record>)
      requires UniqueIds(initial)
      ensures Valid() && rows == initial
    {
      rows := initial;
    }

    /** Replaces the row whose key matches `data`, or adds `data` as a new row. */
    method AddOrUpdate(data: Record)
      requires Valid()
      modifies this
      ensures Valid()
      ensures rows == Upserted(old(rows), data)
    {
      match IndexOf(rows, data.id)
      case Some(i) =>
        rows := rows[i := data];
      case None =>
        rows := rows + [data];
    }
  }
}
