/**
 * The pantry store hook: the add, edit, remove and seed handlers run steps
 * against the database and then replace the `items` state with a fresh
 * `getAll()`. Fresh ids (`crypto.randomUUID()`) and the clock (`nowIso()`)
 * are parameters.
 */
module UsePantryDb {
  import opened Wrappers
  import opened Items
  import opened Status
  import Db

  /** `{ id, createdAt: now, updatedAt: now, ...newItem }`. */
  function BuildItem(n: NewItem, id: string, now: int): (r: Item)
    ensures r.id == id && r.createdAt == now && r.updatedAt == now
  {
    Item(id, n.name, n.tags, n.category, n.quantity, n.unit, n.needed, n.minThreshold,
         n.expiresAt, n.notes, now, now)
  }

  /** The record without the fields the store assigns. */
  function Content(i: Item): NewItem {
    NewItem(i.name, i.tags, i.category, i.quantity, i.unit, i.needed, i.minThreshold, i.expiresAt, i.notes)
  }

  /**
   * The stored record carries the submitted fields unchanged, and a record
   * never edited since it was built is rebuilt from its content, id and time.
   */
  lemma BuildItemRoundTrip(n: NewItem, id: string, now: int, i: Item)
    ensures Content(BuildItem(n, id, now)) == n
    ensures i.createdAt == i.updatedAt ==> BuildItem(Content(i), i.id, i.createdAt) == i
  {
  }

  /** `{ ...existing, ...patch, id, updatedAt: now }`. */
  function Merge(e: Item, p: Patch, id: string, now: int): (r: Item)
    ensures r.id == id && r.updatedAt == now
    ensures r.name == Override(p.name, e.name)
    ensures r.tags == Override(p.tags, e.tags)
    ensures r.category == Override(p.category, e.category)
    ensures r.quantity == Override(p.quantity, e.quantity)
    ensures r.unit == Override(p.unit, e.unit)
    ensures r.needed == Override(p.needed, e.needed)
    ensures r.minThreshold == Override(p.minThreshold, e.minThreshold)
    ensures r.expiresAt == Override(p.expiresAt, e.expiresAt)
    ensures r.notes == Override(p.notes, e.notes)
    ensures r.createdAt == Override(p.createdAt, e.createdAt)
  {
    Item(id,
         Override(p.name, e.name),
         Override(p.tags, e.tags),
         Override(p.category, e.category),
         Override(p.quantity, e.quantity),
         Override(p.unit, e.unit),
         Override(p.needed, e.needed),
         Override(p.minThreshold, e.minThreshold),
         Override(p.expiresAt, e.expiresAt),
         Override(p.notes, e.notes),
         Override(p.createdAt, e.createdAt),
         now)
  }

  /** An empty patch only refreshes `updatedAt`. */
  lemma MergeEmptyPatch(e: Item, now: int)
    ensures Merge(e, EmptyPatch, e.id, now) == e.(updatedAt := now)
  {
  }

  /** Applying the same patch twice at the same moment is applying it once. */
  lemma MergeIdempotent(e: Item, p: Patch, id: string, now: int)
    ensures Merge(Merge(e, p, id, now), p, id, now) == Merge(e, p, id, now)
  {
  }

  /** The id stays whatever id the patch carries. */
  lemma MergeKeepsId(e: Item, p: Patch, now: int)
    ensures Merge(e, p, e.id, now).id == e.id
  {
  }

  /** With a clock that does not run backwards and no `createdAt` in the patch, `updatedAt >= createdAt` is kept. */
  lemma MergeKeepsTimestampOrder(e: Item, p: Patch, now: int)
    requires p.createdAt.None? && e.createdAt <= now
    ensures Merge(e, p, e.id, now).createdAt <= Merge(e, p, e.id, now).updatedAt
  {
  }

  /** `createDemoItems()`: four sample records; two expiry dates 90 days ahead and one day back. */
  function DemoItems(ids: seq<string>, now: int): (r: seq<Item>)
    requires |ids| == 4
    ensures |r| == 4
    ensures forall k | 0 <= k < 4 :: r[k].id == ids[k] && r[k].createdAt == now && r[k].updatedAt == now
  {
    [ Item(ids[0], "Rice", None, Some("Grains"), 2.0, Some("kg"), Some(2.0), None, None, None, now, now),
      Item(ids[1], "Pasta", None, Some("Grains"), 1.0, Some("box"), Some(3.0), None, None, None, now, now),
      Item(ids[2], "Tomato Sauce", None, Some("Canned"), 4.0, Some("can"), Some(2.0), None,
           Some(now + 90 * MsPerDay), None, now, now),
      Item(ids[3], "Milk", None, Some("Dairy"), 1.0, Some("L"), Some(1.0), None,
           Some(now - MsPerDay), None, now, now) ]
  }

  /** Demo names, and under `isLow` only Pasta is low; only Milk is expired. */
  lemma DemoItemsStatus(ids: seq<string>, now: int)
    requires |ids| == 4
    ensures var d := DemoItems(ids, now);
      && d[0].name == "Rice" && d[1].name == "Pasta" && d[2].name == "Tomato Sauce" && d[3].name == "Milk"
      && (forall k | 0 <= k < 4 :: IsLow(d[k]) <==> k == 1)
      && (forall k | 0 <= k < 4 :: IsExpired(d[k], now) <==> k == 3)
  {
  }

  /**
   * The hook's state: the database and the `items` array the UI renders.
   * Between handlers, `items` is a listing of the database.
   */
  class PantryStore {
    const db: Db.PantryDB
    var items: seq<Item>

    ghost predicate Valid()
      reads this, db
    {
      db.Valid() && Db.IsListing(items, db.records)
    }

    /** `usePantryStore()` after its first `getAll()` has populated `items`. */
    constructor (db: Db.PantryDB)
      requires db.Valid()
      ensures Valid() && this.db == db && db.records == old(db.records)
    {
      this.db := db;
      new;
      items := db.GetAll();
    }

    /** `handleAdd`: a record under a fresh id with both timestamps `now`; all earlier records kept. */
    method Add(n: NewItem, freshId: string, now: int)
      requires Valid()
      requires freshId !in db.records
      modifies this, db
      ensures Valid()
      ensures db.records == old(db.records)[freshId := BuildItem(n, freshId, now)]
    {
      db.Put(BuildItem(n, freshId, now));
      items := db.GetAll();
    }

    /** `handleEdit`: an unknown id changes nothing, not even `items`; otherwise the merge is stored. */
    method Edit(id: string, patch: Patch, now: int)
      requires Valid()
      modifies this, db
      ensures Valid()
      ensures id !in old(db.records) ==> db.records == old(db.records) && items == old(items)
      ensures id in old(db.records) ==>
                db.records == old(db.records)[id := Merge(old(db.records)[id], patch, id, now)]
    {
      var existing := db.Get(id);
      if existing.None? {
        return;
      }
      var updated := Merge(existing.value, patch, id, now);
      db.Put(updated);
      items := db.GetAll();
    }

    /** `handleRemove`: the id is gone and every other record stays. */
    method Remove(id: string)
      requires Valid()
      modifies this, db
      ensures Valid()
      ensures db.records == old(db.records) - {id}
    {
      db.Delete(id);
      items := db.GetAll();
    }

    /** Seeding: the given records through `upsertItemsBulk`, then a fresh listing. */
    method Seed(demo: seq<Item>)
      requires Valid()
      modifies this, db
      ensures Valid()
      ensures db.records == Db.PutAll(old(db.records), demo)
    {
      Db.UpsertItemsBulk(db, demo);
      items := db.GetAll();
    }

    /** `seedDemo`: `createDemoItems()` upserted in bulk. */
    method SeedDemo(ids: seq<string>, now: int)
      requires Valid()
      requires |ids| == 4
      modifies this, db
      ensures Valid()
      ensures db.records == Db.PutAll(old(db.records), DemoItems(ids, now))
    {
      Seed(DemoItems(ids, now));
    }
  }
}
