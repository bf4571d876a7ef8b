/**
 * The persistent item store: one object store `items` with key path `id`,
 * modelled as a map from id to record with no storage failures.
 */
module Db {
  import opened Wrappers
  import opened Items

  /** Every record is stored under its own id (key path `id`). */
  ghost predicate KeyedById(m: map<string, Item>) {
    forall k | k in m :: m[k].id == k
  }

  /** `s` holds every stored record exactly once, in some order. */
  ghost predicate IsListing(s: seq<Item>, m: map<string, Item>) {
    && (forall i | 0 <= i < |s| :: s[i].id in m && m[s[i].id] == s[i])
    && (forall i, j | 0 <= i < j < |s| :: s[i].id != s[j].id)
    && (forall k | k in m :: exists i | 0 <= i < |s| :: s[i].id == k)
  }

  /** The effect of `put`: insert or replace under the record's id. */
  function PutRecord(m: map<string, Item>, item: Item): (r: map<string, Item>)
    ensures KeyedById(m) ==> KeyedById(r)
  {
    m[item.id := item]
  }

  /** The effect of `delete`: the id is gone, absent or not. */
  function DeleteRecord(m: map<string, Item>, id: string): (r: map<string, Item>)
    ensures KeyedById(m) ==> KeyedById(r)
  {
    m - {id}
  }

  /** A sequence of puts in list order, the last one first to be undone. */
  function PutAll(m: map<string, Item>, items: seq<Item>): (r: map<string, Item>)
    ensures KeyedById(m) ==> KeyedById(r)
  {
    if items == [] then m else PutRecord(PutAll(m, items[..|items| - 1]), items[|items| - 1])
  }

  class PantryDB {
    var records: map<string, Item>

    ghost predicate Valid()
      reads this
    {
      KeyedById(records)
    }

    /**
     * The first open, whose upgrade creates the `items` store: no records yet.
     * A database opened again keeps its records; a store built on one is any
     * valid `PantryDB`.
     */
    constructor ()
      ensures Valid() && records == map[]
    {
      records := map[];
    }

    /** `put(item)`: upsert by `item.id`. */
    method Put(item: Item)
      requires Valid()
      modifies this
      ensures Valid()
      ensures records == PutRecord(old(records), item)
    {
      records := records[item.id := item];
    }

    /** `get(id)`: the stored record, or absence. */
    method Get(id: string) returns (r: Option<Item>)
      ensures r.Some? <==> id in records
      ensures r.Some? ==> r.value == records[id]
    {
      if id in records {
        r := Some(records[id]);
      } else {
        r := None;
      }
    }

    /** `getAll()`: every stored record once; the order is not specified here. */
    method GetAll() returns (r: seq<Item>)
      requires Valid()
      ensures IsListing(r, records)
    {
      r := [];
      var rest := records.Keys;
      while rest != {}
        invariant rest <= records.Keys
        invariant forall i | 0 <= i < |r| :: r[i].id in records && records[r[i].id] == r[i] && r[i].id !in rest
        invariant forall i, j | 0 <= i < j < |r| :: r[i].id != r[j].id
        invariant forall k | k in records && k !in rest :: exists i | 0 <= i < |r| :: r[i].id == k
        decreases rest
      {
        var k :| k in rest;
        ghost var prev := r;
        r := r + [records[k]];
        assert forall i | 0 <= i < |prev| :: r[i] == prev[i];
        assert r[|prev|].id == k;
        rest := rest - {k};
      }
    }

    /** `delete(id)`. */
    method Delete(id: string)
      requires Valid()
      modifies this
      ensures Valid()
      ensures records == DeleteRecord(old(records), id)
    {
      records := records - {id};
    }
  }

  /** `upsertItemsBulk(db, items)`: one put per item, in list order, in one transaction. */
  method UpsertItemsBulk(db: PantryDB, items: seq<Item>)
    requires db.Valid()
    modifies db
    ensures db.Valid()
    ensures db.records == PutAll(old(db.records), items)
  {
    for i := 0 to |items|
      invariant db.Valid()
      invariant db.records == PutAll(old(db.records), items[..i])
    {
      assert items[..i + 1][..i] == items[..i];
      db.Put(items[i]);
    }
    assert items[..|items|] == items;
  }

  // ---- Properties of the store operations ----

  /** After `put(item)`, `get(item.id)` yields exactly `item`. */
  lemma GetAfterPut(m: map<string, Item>, item: Item)
    ensures item.id in PutRecord(m, item) && PutRecord(m, item)[item.id] == item
  {
  }

  /** Putting an id that is present replaces its record and keeps the count; a new id adds one. */
  lemma PutCount(m: map<string, Item>, item: Item)
    ensures item.id in m ==> |PutRecord(m, item)| == |m|
    ensures item.id !in m ==> |PutRecord(m, item)| == |m| + 1
  {
    if item.id in m {
      assert PutRecord(m, item).Keys == m.Keys;
    } else {
      assert PutRecord(m, item).Keys == m.Keys + {item.id};
    }
  }

  /** After `delete(id)`, `get(id)` is absent; deleting an absent id changes nothing. */
  lemma DeleteThenGet(m: map<string, Item>, id: string)
    ensures id !in DeleteRecord(m, id)
    ensures id !in m ==> DeleteRecord(m, id) == m
  {
  }

  /** A put or delete on key `k` leaves every other key's record as it was. */
  lemma OtherKeysUnchanged(m: map<string, Item>, item: Item, id: string, k: string)
    ensures k != item.id ==> (k in PutRecord(m, item) <==> k in m)
    ensures k != item.id && k in m ==> PutRecord(m, item)[k] == m[k]
    ensures k != id ==> (k in DeleteRecord(m, id) <==> k in m)
    ensures k != id && k in m ==> DeleteRecord(m, id)[k] == m[k]
  {
  }

  /** The ids of a listing are exactly the stored keys. */
  lemma {:induction false} ListingIds(s: seq<Item>, m: map<string, Item>)
    requires IsListing(s, m)
    ensures (set i | 0 <= i < |s| :: s[i].id) == m.Keys
  {
  }

  /** A listing has one entry per stored record. */
  lemma ListingLength(s: seq<Item>, m: map<string, Item>)
    requires IsListing(s, m)
    ensures |s| == |m|
  {
    ListingIds(s, m);
    DistinctIdsCount(s);
  }

  lemma {:induction false} DistinctIdsCount(s: seq<Item>)
    requires forall i, j | 0 <= i < j < |s| :: s[i].id != s[j].id
    ensures |set i | 0 <= i < |s| :: s[i].id| == |s|
  {
    if s != [] {
      var n := |s| - 1;
      DistinctIdsCount(s[..n]);
      var front := set i | 0 <= i < n :: s[..n][i].id;
      assert (set i | 0 <= i < |s| :: s[i].id) == front + {s[n].id};
      assert s[n].id !in front;
    }
  }

  /**
   * The bulk upsert: a key ends up present iff it was stored or some item has it;
   * its record is that of the LAST item with that id, or the old one if none has it.
   */
  lemma {:induction false} PutAllLastWins(m: map<string, Item>, items: seq<Item>, k: string)
    ensures k in PutAll(m, items) <==> k in m || exists i | 0 <= i < |items| :: items[i].id == k
    ensures (forall i | 0 <= i < |items| :: items[i].id != k) && k in m ==> PutAll(m, items)[k] == m[k]
    ensures forall j | 0 <= j < |items| && items[j].id == k ::
              (forall i | j < i < |items| :: items[i].id != k) ==> PutAll(m, items)[k] == items[j]
  {
    if items != [] {
      var n := |items| - 1;
      PutAllLastWins(m, items[..n], k);
      forall j | 0 <= j < n + 1 && items[j].id == k && (forall i | j < i < |items| :: items[i].id != k)
        ensures PutAll(m, items)[k] == items[j]
      {
        if j < n {
          assert items[..n][j] == items[j];
          assert forall i | j < i < n :: items[..n][i] == items[i];
        }
      }
      if exists i | 0 <= i < |items| :: items[i].id == k {
        var i :| 0 <= i < |items| && items[i].id == k;
        if i < n { assert items[..n][i].id == k; }
      }
    }
  }
}
