/** The memory engine `LongTermMemoryStore`: a cache from storage path to collection in front
    of a remote bucket, and the operations add, search (with opportunistic deduplication)
    and delete-all.

    Each operation takes the already resolved storage path of the user, the instant `now`
    at which it runs, and, for each storage call, whether it succeeds: a failed download is
    caught and read as "nothing stored", a failed upload is not caught. */
module MemoryStore {
  import opened Wrappers
  import opened Memories
  import opened SimilarityIndex
  import opened Dedup
  import opened Gating
  import opened Search

  const StoredPrefix: string := "Memory successfully stored: "
  const DeletedMessage: string := "All long-term memories have been successfully deleted."

  /** The remote bucket: a file per path. `None` is a file whose content does not parse
      as a collection. */
  class Bucket {
    var files: map<string, Option<Collection>>

    constructor (files: map<string, Option<Collection>>)
      ensures this.files == files
    {
      this.files := files;
    }
  }

  /** The collection a load yields: the cached one if there is one, else the stored one if the
      download succeeds and the file parses, else a fresh empty one. */
  function Loaded(cache: map<string, Collection>, files: map<string, Option<Collection>>, path: string,
                  now: int, downloadOk: bool): (c: Collection)
    ensures path in cache ==> c == cache[path]
    ensures path !in cache && downloadOk && path in files && files[path].Some? ==> c == files[path].value
    ensures path !in cache && (!downloadOk || path !in files || files[path].None?) ==> c == EmptyCollection(now)
  {
    if path in cache then cache[path]
    else if downloadOk && path in files && files[path].Some? then files[path].value
    else EmptyCollection(now)
  }

  /** A new record at the end of the collection. */
  function WithMemory(c: Collection, m: Memory): (c': Collection)
    ensures |c'.memories| == |c.memories| + 1 && c'.memories[..|c.memories|] == c.memories
    ensures c'.memories[|c.memories|] == m
    ensures c'.updatedAt == c.updatedAt && c'.lastDeduplicatedAt == c.lastDeduplicatedAt
  {
    c.(memories := c.memories + [m])
  }

  /** The collection after `_deduplicate_and_save` at `now`, as it is saved and returned. */
  function DedupedCollection(c: Collection, nbrs: seq<seq<Neighbour>>, now: int): (c': Collection)
    requires ValidNeighbours(nbrs, |c.memories|)
    ensures c'.memories == Deduplicated(c.memories, nbrs)
    ensures c'.lastDeduplicatedAt == Some(now) && c'.updatedAt == now
  {
    Collection(Deduplicated(c.memories, nbrs), now, Some(now))
  }

  class LongTermMemoryStore {
    /** The in-process cache from storage path to collection. */
    var cache: map<string, Collection>
    /** The remote storage the engine reads and writes. */
    const bucket: Bucket

    constructor (bucket: Bucket)
      ensures this.bucket == bucket && cache == map[]
    {
      this.bucket := bucket;
      cache := map[];
    }

    /** `_load_memories`: a cache hit returns the cached collection and does not read the bucket;
        on a miss, whatever is read (or an empty collection when the download fails or nothing
        usable is stored) is cached. */
    method LoadMemories(path: string, now: int, downloadOk: bool) returns (c: Collection)
      modifies this
      ensures c == Loaded(old(cache), bucket.files, path, now, downloadOk)
      ensures cache == old(cache)[path := c]
      ensures path in old(cache) ==> c == old(cache)[path] && cache == old(cache)
    {
      if path in cache {
        return cache[path];
      }
      var stored := if downloadOk && path in bucket.files then bucket.files[path] else None;
      match stored {
        case Some(parsed) => c := parsed;
        case None => c := EmptyCollection(now);
      }
      cache := cache[path := c];
    }

    /** `_save_memories`: stamps the collection with `now`, uploads it, and caches it.
        The collection given is, in every caller, the object the cache already holds for
        `path`, so the new timestamp is visible in the cache even when the upload fails. */
    method SaveMemories(path: string, c: Collection, now: int, uploadOk: bool) returns (ok: bool)
      modifies this, bucket
      ensures ok == uploadOk
      ensures cache == old(cache)[path := c.(updatedAt := now)]
      ensures bucket.files == if ok then old(bucket.files)[path := Some(c.(updatedAt := now))] else old(bucket.files)
    {
      var saved := c.(updatedAt := now);
      ok := uploadOk;
      if ok {
        bucket.files := bucket.files[path := Some(saved)];
      }
      cache := cache[path := saved];
    }

    /** `add_memory`: appends exactly one record, with the embedding the embedder gives its
        content, then saves. */
    method AddMemory(path: string, content: string, importance: real, category: string, topics: seq<string>,
                     id: int, embed: string -> seq<real>, now: int, downloadOk: bool, uploadOk: bool)
      returns (r: Result<string>)
      modifies this, bucket
      ensures var c := WithMemory(Loaded(old(cache), old(bucket.files), path, now, downloadOk),
                                  Memory(MemoryData(id, content, importance, category, topics), embed(content)))
                       .(updatedAt := now);
        && cache == old(cache)[path := c]
        && bucket.files == (if uploadOk then old(bucket.files)[path := Some(c)] else old(bucket.files))
      ensures r == if uploadOk then Ok(StoredPrefix + content) else Err(UploadFailed)
    {
      var collection := LoadMemories(path, now, downloadOk);
      var memory := Memory(MemoryData(id, content, importance, category, topics), embed(content));
      collection := collection.(memories := collection.memories + [memory]);
      var ok := SaveMemories(path, collection, now, uploadOk);
      if !ok {
        return Err(UploadFailed);
      }
      r := Ok(StoredPrefix + content);
    }

    /** `_deduplicate_and_save`: replaces the memories with the deduplicated ones, records
        `now` as the time of the last deduplication, and saves. */
    method DeduplicateAndSave(path: string, c: Collection, index: NeighbourIndex, now: int, uploadOk: bool)
      returns (deduped: Collection, ok: bool)
      requires NeighbourIndexContract(index)
      modifies this, bucket
      ensures deduped == DedupedCollection(c, index(c.memories), now)
      ensures ok == uploadOk
      ensures cache == old(cache)[path := deduped]
      ensures bucket.files == if ok then old(bucket.files)[path := Some(deduped)] else old(bucket.files)
    {
      var kept := DeduplicateFast(c.memories, index(c.memories));
      var updated := c.(memories := kept, lastDeduplicatedAt := Some(now));
      ok := SaveMemories(path, updated, now, uploadOk);
      deduped := updated.(updatedAt := now);
    }

    /** `search_memories`: an empty collection gives no results; otherwise the collection is
        deduplicated first when due, and the results are the data of the index's
        min(topK, n) nearest answers whose similarity is strictly positive, in the index's order. */
    method SearchMemories(path: string, query: string, topK: int, neighbours: NeighbourIndex, index: QueryIndex,
                          now: int, downloadOk: bool, uploadOk: bool) returns (r: Result<seq<MemoryData>>)
      requires topK >= 1
      requires NeighbourIndexContract(neighbours) && QueryIndexContract(index)
      modifies this, bucket
      ensures var c0 := Loaded(old(cache), old(bucket.files), path, now, downloadOk);
        var dedup := |c0.memories| > 0 && NeedsDeduplication(c0, now);
        var c := if dedup then DedupedCollection(c0, neighbours(c0.memories), now) else c0;
        && cache == old(cache)[path := c]
        && bucket.files == (if dedup && uploadOk then old(bucket.files)[path := Some(c)] else old(bucket.files))
        && r == if |c0.memories| == 0 then Ok([])
                else if dedup && !uploadOk then Err(UploadFailed)
                else Ok(Selected(c.memories, index(query, c.memories, Min(topK, |c.memories|))))
      ensures r.Ok? ==> FromStore(r.value, cache[path].memories, topK)
    {
      var collection := LoadMemories(path, now, downloadOk);
      ghost var c0 := collection;
      assert c0 == Loaded(old(cache), old(bucket.files), path, now, downloadOk);
      assert cache == old(cache)[path := c0] && bucket.files == old(bucket.files);
      if |collection.memories| == 0 {
        assert FromStore([], cache[path].memories, topK);
        return Ok([]);
      }
      if NeedsDeduplication(collection, now) {
        var ok;
        collection, ok := DeduplicateAndSave(path, collection, neighbours, now, uploadOk);
        if !ok {
          return Err(UploadFailed);
        }
      }
      assert cache == old(cache)[path := collection];
      var k := Min(topK, |collection.memories|);
      var hits := index(query, collection.memories, k);
      var results := SelectResults(collection.memories, hits);
      SearchResultsFromStore(query, collection.memories, topK, index);
      r := Ok(results);
    }

    /** `delete_all_memories`: deletes the stored file (a failure to delete is ignored), drops
        the cache entry, and always reports success. */
    method DeleteAllMemories(path: string, deleteOk: bool) returns (r: string)
      modifies this, bucket
      ensures r == DeletedMessage
      ensures cache == old(cache) - {path}
      ensures bucket.files == if deleteOk then old(bucket.files) - {path} else old(bucket.files)
    {
      if deleteOk {
        bucket.files := bucket.files - {path};
      }
      if path in cache {
        cache := cache - {path};
      }
      r := DeletedMessage;
    }
  }

  // -----------------------------------------------------------------------------------------
  // What callers can rely on across several calls

  /** Deleting twice is harmless: both calls report success, and the state is that after one. */
  method DeleteTwice(store: LongTermMemoryStore, path: string, firstOk: bool, secondOk: bool)
    returns (first: string, second: string)
    modifies store, store.bucket
    ensures first == DeletedMessage && second == DeletedMessage
    ensures store.cache == old(store.cache) - {path}
    ensures store.bucket.files == if firstOk || secondOk then old(store.bucket.files) - {path} else old(store.bucket.files)
  {
    first := store.DeleteAllMemories(path, firstOk);
    second := store.DeleteAllMemories(path, secondOk);
  }

  /** After a successful delete, a search finds nothing. */
  method SearchAfterDelete(store: LongTermMemoryStore, path: string, query: string, topK: int,
                           neighbours: NeighbourIndex, index: QueryIndex, now: int, downloadOk: bool, uploadOk: bool)
    returns (r: Result<seq<MemoryData>>)
    requires topK >= 1
    requires NeighbourIndexContract(neighbours) && QueryIndexContract(index)
    modifies store, store.bucket
    ensures r == Ok([])
    ensures store.cache == (old(store.cache) - {path})[path := EmptyCollection(now)]
  {
    var _ := store.DeleteAllMemories(path, true);
    r := store.SearchMemories(path, query, topK, neighbours, index, now, downloadOk, uploadOk);
  }

  /** A saved collection is what another engine, starting with an empty cache, loads. */
  method SaveThenLoadElsewhere(store: LongTermMemoryStore, path: string, c: Collection, now: int, later: int)
    returns (reloaded: Collection)
    modifies store, store.bucket
    ensures reloaded == c.(updatedAt := now)
  {
    var _ := store.SaveMemories(path, c, now, true);
    var other := new LongTermMemoryStore(store.bucket);
    reloaded := other.LoadMemories(path, later, true);
  }

  /** An added memory is what the next load of the same engine yields, from the cache. */
  method AddThenLoad(store: LongTermMemoryStore, path: string, content: string, importance: real, category: string,
                     topics: seq<string>, id: int, embed: string -> seq<real>, now: int, later: int,
                     downloadOk: bool, uploadOk: bool, laterDownloadOk: bool)
    returns (loaded: Collection)
    modifies store, store.bucket
    ensures var before := Loaded(old(store.cache), old(store.bucket.files), path, now, downloadOk);
      && |loaded.memories| == |before.memories| + 1
      && loaded.memories[..|before.memories|] == before.memories
      && loaded.memories[|before.memories|].data == MemoryData(id, content, importance, category, topics)
      && loaded.lastDeduplicatedAt == before.lastDeduplicatedAt
  {
    var _ := store.AddMemory(path, content, importance, category, topics, id, embed, now, downloadOk, uploadOk);
    loaded := store.LoadMemories(path, later, laterDownloadOk);
  }

  /** A search that has just deduplicated leaves a collection that the next search within 24
      hours does not deduplicate again. */
  method SearchTwiceWithinInterval(store: LongTermMemoryStore, path: string, query: string, topK: int,
                                   neighbours: NeighbourIndex, index: QueryIndex, now: int, later: int,
                                   downloadOk: bool, laterDownloadOk: bool)
    returns (first: Result<seq<MemoryData>>, second: Result<seq<MemoryData>>)
    requires topK >= 1 && now <= later <= now + DedupInterval
    requires NeighbourIndexContract(neighbours) && QueryIndexContract(index)
    modifies store, store.bucket
    ensures path in store.cache && store.cache == old(store.cache)[path := store.cache[path]]
    ensures var c0 := Loaded(old(store.cache), old(store.bucket.files), path, now, downloadOk);
      |c0.memories| > 0 && NeedsDeduplication(c0, now) ==>
        store.cache[path] == DedupedCollection(c0, neighbours(c0.memories), now)
  {
    ghost var c0 := Loaded(store.cache, store.bucket.files, path, now, downloadOk);
    ghost var dedup := |c0.memories| > 0 && NeedsDeduplication(c0, now);
    first := store.SearchMemories(path, query, topK, neighbours, index, now, downloadOk, true);
    ghost var c1 := store.cache[path];
    assert store.cache == old(store.cache)[path := c1];
    if dedup {
      assert c1 == DedupedCollection(c0, neighbours(c0.memories), now);
      NotAgainWithinInterval(c1, now, later);
    }
    second := store.SearchMemories(path, query, topK, neighbours, index, later, laterDownloadOk, true);
    assert Loaded(old(store.cache)[path := c1], store.bucket.files, path, later, laterDownloadOk) == c1;
  }

  /** An add whose upload fails still changes the cache: the engine keeps serving a collection
      one record longer than the stored file, which is left as it was. */
  method FailedAddLeavesCacheAhead(store: LongTermMemoryStore, path: string, content: string, importance: real,
                                   category: string, topics: seq<string>, id: int, embed: string -> seq<real>,
                                   now: int, downloadOk: bool)
    returns (r: Result<string>)
    modifies store, store.bucket
    ensures r == Err(UploadFailed)
    ensures store.bucket.files == old(store.bucket.files)
    ensures var before := Loaded(old(store.cache), old(store.bucket.files), path, now, downloadOk);
      && path in store.cache
      && |store.cache[path].memories| == |before.memories| + 1
      && store.cache[path].memories[..|before.memories|] == before.memories
  {
    r := store.AddMemory(path, content, importance, category, topics, id, embed, now, downloadOk, false);
  }

  /** A download that fails on a cold cache is read as "nothing stored", so the add that follows
      uploads a one-record collection over whatever the file held, a valid non-empty one included. */
  method FailedDownloadThenAddOverwrites(store: LongTermMemoryStore, path: string, content: string, importance: real,
                                         category: string, topics: seq<string>, id: int,
                                         embed: string -> seq<real>, now: int)
    returns (r: Result<string>)
    requires path !in store.cache
    modifies store, store.bucket
    ensures r == Ok(StoredPrefix + content)
    ensures path in store.bucket.files && store.bucket.files[path].Some?
    ensures store.bucket.files[path].value.memories
            == [Memory(MemoryData(id, content, importance, category, topics), embed(content))]
    ensures store.bucket.files[path].value.lastDeduplicatedAt == None
  {
    r := store.AddMemory(path, content, importance, category, topics, id, embed, now, false, true);
  }
}
