/** The RemoveOutdatedProducts job: after a sync run, every live product
    the run did not name is soft-deleted. */
module Reaper {
  import opened Common
  import opened Tables
  import opened Database

  /** A soft delete through the query builder: deleted_at and updated_at
      are both set to the current time. */
  function Trashed(row: ProductRow, now: int): ProductRow {
    row.(deletedAt := Some(now), updatedAt := now)
  }

  /** `Product::query()->whereNotIn('id', ids)->delete()`. The soft-delete
      scope limits the query to live rows; an empty id list matches every
      one of them. */
  function Reap(db: Db, synced: seq<int>, now: int): (r: Db)
    ensures r == db.(products := r.products)
    ensures r.products.Keys == db.products.Keys
    ensures forall id :: id in r.products && r.products[id].Live() ==> id in synced
    ensures forall id :: id in db.products && (id in synced || !db.products[id].Live()) ==>
      r.products[id] == db.products[id]
    ensures forall id :: id in db.products && db.products[id].Live() && id !in synced ==>
      !r.products[id].Live() && r.products[id].updatedAt == now
      && r.products[id] == db.products[id].(deletedAt := r.products[id].deletedAt, updatedAt := now)
  {
    db.(products := map id | id in db.products ::
          if db.products[id].Live() && id !in synced then Trashed(db.products[id], now) else db.products[id])
  }

  /** A product stays live exactly when it was live and is named. */
  lemma ReapLive(db: Db, synced: seq<int>, now: int, id: int)
    requires id in db.products
    ensures Reap(db, synced, now).products[id].Live() <==> db.products[id].Live() && id in synced
  {
  }

  /** The job's default argument is the empty list: every live product goes. */
  lemma ReapDefault(db: Db, now: int)
    ensures forall id :: id in Reap(db, [], now).products ==> !Reap(db, [], now).products[id].Live()
  {
  }

  /** A second run with the same ids, at any later time, changes nothing. */
  lemma ReapIdempotent(db: Db, synced: seq<int>, now: int, later: int)
    ensures Reap(Reap(db, synced, now), synced, later) == Reap(db, synced, now)
  {
    var r1 := Reap(db, synced, now);
    var r2 := Reap(r1, synced, later);
    assert r2.products == r1.products by {
      forall id | id in r1.products ensures r2.products[id] == r1.products[id] {
        if r1.products[id].Live() {
          assert id in synced;
        }
      }
    }
  }

  /** Only the set of ids matters: two lists with the same ids reap the
      same products. */
  lemma ReapDependsOnIdSet(db: Db, a: seq<int>, b: seq<int>, now: int)
    requires forall id :: id in a <==> id in b
    ensures Reap(db, a, now) == Reap(db, b, now)
  {
    var ra, rb := Reap(db, a, now), Reap(db, b, now);
    assert ra.products == rb.products by {
      forall id | id in ra.products ensures ra.products[id] == rb.products[id] {
        if db.products[id].Live() && id !in a {
          assert id !in b;
        }
      }
    }
  }

  /** The job's handle() on the store. */
  method RemoveOutdatedProducts(store: Store, synced: seq<int>, now: int)
    modifies store
    ensures store.State() == Reap(old(store.State()), synced, now)
  {
    store.products := map id | id in store.products ::
      if store.products[id].Live() && id !in synced then Trashed(store.products[id], now) else store.products[id];
  }
}
