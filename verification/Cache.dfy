/** The collection cache: a map under a lock. Each method body runs with the lock held. */
module Cache {
  import opened Wrappers
  import opened Models
  import Store

  /** A row of the warm-up query as the driver delivers it; scanning it may fail. */
  datatype WarmRow = WarmRow(
    id: CollectionId,
    dimension: int,
    distanceMetric: string,
    embeddingProvider: Option<string>,
    embeddingModel: Option<string>)

  function RowInfo(r: WarmRow): CollectionInfo {
    CollectionInfo(r.dimension, r.distanceMetric, OrEmpty(r.embeddingProvider), OrEmpty(r.embeddingModel))
  }

  type Entries = map<CollectionId, CollectionInfo>

  /** A lookup that tries the cache first and the database on a miss. */
  function Lookup(cache: Entries, db: Store.Db, c: CollectionId): Option<CollectionInfo> {
    if c in cache then Some(cache[c])
    else if c in db.collections then Some(InfoOf(db.collections[c]))
    else None
  }

  /** The entries after a lookup: a miss that finds the collection fills the cache. */
  function AfterLookup(cache: Entries, db: Store.Db, c: CollectionId): Entries {
    if c !in cache && c in db.collections then cache[c := InfoOf(db.collections[c])] else cache
  }

  /** The entries after storing the first `n` rows; later rows win. */
  function Warmed(cache: Entries, rows: seq<WarmRow>): Entries {
    if rows == [] then cache
    else Warmed(cache, rows[..|rows| - 1])[rows[|rows| - 1].id := RowInfo(rows[|rows| - 1])]
  }

  /** The rows in front of the first one that cannot be scanned. */
  function Scanned(rows: seq<Option<WarmRow>>): (r: seq<WarmRow>)
    ensures |r| <= |rows|
    ensures forall i :: 0 <= i < |r| ==> rows[i] == Some(r[i])
    ensures |r| < |rows| ==> rows[|r|].None?
  {
    if rows == [] || rows[0].None? then [] else [rows[0].value] + Scanned(rows[1..])
  }

  class CollectionCache {
    var cache: Entries

    constructor ()
      ensures cache == map[]
    {
      cache := map[];
    }

    method Insert(collectionId: CollectionId, info: CollectionInfo)
      modifies this
      ensures cache == old(cache)[collectionId := info]
    {
      cache := cache[collectionId := info];
    }

    method GetInfo(collectionId: CollectionId) returns (r: Option<CollectionInfo>)
      ensures r == if collectionId in cache then Some(cache[collectionId]) else None
    {
      if collectionId in cache {
        return Some(cache[collectionId]);
      }
      r := None;
    }

    method Delete(collectionId: CollectionId)
      modifies this
      ensures cache == old(cache) - {collectionId}
    {
      cache := cache - {collectionId};
    }

    /** The warm-up keeps what it stored before a row that cannot be scanned. */
    method WarmFromDB(rows: seq<Option<WarmRow>>) returns (ok: bool)
      modifies this
      ensures cache == Warmed(old(cache), Scanned(rows))
      ensures ok <==> |Scanned(rows)| == |rows|
    {
      ghost var good := Scanned(rows);
      for i := 0 to |rows|
        invariant i <= |good|
        invariant cache == Warmed(old(cache), good[..i])
      {
        if rows[i].None? {
          assert good[..i] == good;
          return false;
        }
        var r := rows[i].value;
        var provider, model := "", "";
        if r.embeddingProvider.Some? {
          provider := r.embeddingProvider.value;
        }
        if r.embeddingModel.Some? {
          model := r.embeddingModel.value;
        }
        cache := cache[r.id := CollectionInfo(r.dimension, r.distanceMetric, provider, model)];
        assert good[..i + 1][..i] == good[..i];
      }
      assert good[..|rows|] == good;
      ok := true;
    }
  }

  /** A lookup changes no answer, its own included, and one that finds the collection leaves it in the cache. */
  lemma LookupFills(cache: Entries, db: Store.Db, c: CollectionId, b: CollectionId)
    ensures Lookup(AfterLookup(cache, db, c), db, b) == Lookup(cache, db, b)
    ensures Lookup(cache, db, c).Some? ==>
              c in AfterLookup(cache, db, c) && AfterLookup(cache, db, c)[c] == Lookup(cache, db, c).value
    ensures b in AfterLookup(cache, db, c) <==> b in cache || (b == c && Lookup(cache, db, c).Some?)
  {
  }

  /** Warming up only stores what the rows say, and forgets nothing else. */
  lemma {:induction false} WarmedEntries(cache: Entries, rows: seq<WarmRow>, c: CollectionId)
    ensures c in Warmed(cache, rows) ==>
              || (exists i :: 0 <= i < |rows| && rows[i].id == c && Warmed(cache, rows)[c] == RowInfo(rows[i]))
              || (c in cache && Warmed(cache, rows)[c] == cache[c])
    ensures c in cache ==> c in Warmed(cache, rows)
    ensures (exists i :: 0 <= i < |rows| && rows[i].id == c) ==> c in Warmed(cache, rows)
  {
    if rows == [] {
    } else {
      var n := |rows| - 1;
      WarmedEntries(cache, rows[..n], c);
      assert rows == rows[..n] + [rows[n]];
      if rows[n].id == c {
        assert Warmed(cache, rows)[c] == RowInfo(rows[n]);
      }
    }
  }
}
