# Long-term memory store, modelled in Dafny

This project models the memory engine `LongTermMemoryStore` of a conversational
assistant. The engine keeps, per user, a collection of short textual facts
("memories"). Each memory has an id, content, an importance, a category, topics and an
embedding. The collection is persisted as one file in a remote bucket, and the engine
keeps an in-process cache from storage path to collection. The engine offers:

- **add**: append one memory and save the collection.
- **search**: return the stored memories most similar to a query.
  The collection is deduplicated first when that is due.
- **delete-all**: remove the stored file and the cache entry.

Deduplication is a batch pass. Each memory not yet marked for removal walks its list of
nearest neighbours. Any unmarked neighbour with similarity above 0.75 makes the less
important of the two marked; on a tie the outer memory stays. A memory that marks itself
stops walking. The result is the unmarked memories in their original order.

## Layout

- `wrappers.dfy`: module `Wrappers`, holding `Option`, `Result` and `Min`.
- `memories.dfy`: module `Memories`, the data model: `MemoryData`, `Memory`, `Collection`.
- `similarity_index.dfy`: module `SimilarityIndex`. The embedder and the vector index are
  given as oracles: functions that return ranked `(position, similarity)` pairs. Two
  predicates say what the engine relies on them to return.
- `dedup.dfy`: module `Dedup`. The imperative `DeduplicateFast` (two nested loops that grow
  a `toRemove` set, with `continue` and `break`) is proved equal to a specification
  built from `Scan` (the inner loop) and `MarksBefore` (the removal set at the start of
  each outer iteration). The lemmas state the properties of that specification.
- `gating.dfy`: module `Gating`, the predicate that decides when a search deduplicates.
- `search.dfy`: module `Search`, the loop that turns the index's answers into results.
- `memory_store.dfy`: module `MemoryStore`. Class `Bucket` is the remote storage: a map
  from path to an optional collection, where `None` is a file that does not parse. Class
  `LongTermMemoryStore` holds the `cache` map, and its methods mirror the engine's. It
  ends with client methods that chain several calls.

Every operation takes the user's storage path already resolved, and an explicit `now`
in microseconds (the resolution of the clock the engine reads). An upload can fail, and
the engine lets that failure escape, so add, search and save take an `uploadOk` flag. A
failed download is caught by the engine and read as "nothing stored", so load, add and
search take a `downloadOk` flag. A failed delete is swallowed by the engine, so
delete-all takes a `deleteOk` flag.

Behaviour of the code that the model states as it is:

- **The cache can run ahead of the bucket.** The docstring of `_save_memories`
  (task/tools/memory/memory_store.py:64) reads as "upload, then update the cache", and
  lines 76-77 do run in that order. But the object saved is the one the cache already
  holds: `_load_memories` caches it (line 60), `add_memory` appends to it in place (lines
  81 and 94), and `_save_memories` stamps `updated_at` on it (line 72) before the upload
  (line 76). When the upload fails, the cache therefore already holds the appended,
  stamped collection, which was never saved. `SaveMemories`, `AddMemory`,
  `DeduplicateAndSave` and `SearchMemories` state the cache as the code leaves it, and
  `FailedAddLeavesCacheAhead` spells out the result of a failed add.
- **A failed download loses the stored file.** Lines 48-58 catch every exception of the
  download, not only a parse error, and cache an empty collection (line 60). The next
  successful add then uploads a one-record collection over the stored file.
  `FailedDownloadThenAddOverwrites` states this.
- **A second deduplication can remove more.** Each run recomputes the top-20 neighbour
  lists over the collection it is given (line 193). Over the smaller collection a second
  run can meet a pair above the threshold that the first run's lists did not contain.
  The model proves the parts that do hold. `SurvivorsBelowThreshold`: no surviving pair
  the rows contain is above the threshold. `NoDuplicatesKeepsAll`: rows with no pair
  above the threshold remove nothing. `SecondRunKeepsAll`: a second run removes nothing
  when every pair above the threshold it is shown was already in the first run's rows.

## Model

| member | source | states |
|---|---|---|
| `Memories.EmptyCollection` | task/tools/memory/memory_store.py:54-58 | the fallback collection has no memories and has never been deduplicated |
| `Dedup.DeduplicateFast` | task/tools/memory/memory_store.py:160-208 | the two loops compute exactly `Deduplicated`: the removal set after outer iteration i is `MarksBefore(i+1)`, and the result is the unmarked records; at most one record returns the input unchanged |
| `Dedup.DeduplicatedIsOrderedSelection` | task/tools/memory/memory_store.py:184-208 | the output is an order-preserving subsequence of the input: it lists, by ascending position, exactly the records whose position is not in the final removal set |
| `Dedup.MarkedAreJustified` | task/tools/memory/memory_store.py:195-205 | every removed position is a record of the input, and it was removed because some record i, unmarked at its turn, met a partner in its row that was also unmarked then, with similarity > 0.75; the partner is removed when importance[i] >= importance[partner], and i is removed only when its importance is strictly lower |
| `Dedup.ScanJustified` | task/tools/memory/memory_store.py:195-205 | within one row, each newly marked record comes from an entry (not i, not already marked, similarity > 0.75) and is the less important of the pair, i on a strict loss only |
| `Dedup.ScanStopsAtRemoval` | task/tools/memory/memory_store.py:203-205 | once record i has marked itself, appending further neighbours to its row changes nothing: they are never examined |
| `Dedup.ScanClears` | task/tools/memory/memory_store.py:195-202 | if a row scan leaves i unmarked, every other entry of the row is marked or not above the threshold |
| `Dedup.ScanLeavesSurvivor` | task/tools/memory/memory_store.py:199-205 | a scan by an unmarked record leaves some record unmarked: i, or the partner that beat it |
| `Dedup.SkippedRowIgnored` | task/tools/memory/memory_store.py:188-190 | a record already marked when the outer loop reaches it is skipped: replacing its neighbour row leaves the result unchanged |
| `Dedup.SurvivorsBelowThreshold` | task/tools/memory/memory_store.py:193-205 | for every surviving record, each other surviving record in its neighbour row has similarity <= 0.75 |
| `Dedup.SecondRunKeepsAll` | task/tools/memory/memory_store.py:184-208 | a second deduplication of the output removes nothing, when every pair of distinct records its rows put above 0.75 was, with the same score, in the first run's row for the same record |
| `Dedup.NoDuplicatesKeepsAll` | task/tools/memory/memory_store.py:188-208 | if no row pairs a record with a different one above 0.75, nothing is marked and all records are returned |
| `Dedup.DeduplicatedNonEmpty` | task/tools/memory/memory_store.py:199-208 | deduplication of a non-empty collection keeps at least one record |
| `Dedup.PairKeepsMoreImportant` | task/tools/memory/memory_store.py:199-205 | two records that list each other above 0.75: exactly the more important one survives, the first on a tie |
| `Dedup.MarksGrow` | task/tools/memory/memory_store.py:184-205 | records are only ever added to the removal set, never taken out |
| `Gating.GateCases` | task/tools/memory/memory_store.py:139-148 | never for at most 10 memories; always for more than 10 never deduplicated; otherwise exactly when more than 24 hours have elapsed |
| `Gating.NotAgainWithinInterval` | task/tools/memory/memory_store.py:144-148 | a collection deduplicated at time t is not due again at any time up to t + 24 hours |
| `Gating.StaysDue` | task/tools/memory/memory_store.py:139-148 | once due, deduplication stays due as time passes |
| `Search.SelectResults` | task/tools/memory/memory_store.py:132-137 | the result loop yields exactly `Selected`: the data of the answers with similarity > 0, in the index's order |
| `Search.SelectedIsPositiveSubsequence` | task/tools/memory/memory_store.py:133-135 | the results come from ascending answer positions that are exactly the answers with similarity strictly > 0, each result being the data of the memory that answer names; at most as many results as answers |
| `Search.SelectedFromStored` | task/tools/memory/memory_store.py:135 | every result is the data of a stored memory |
| `Search.SelectedRanked` | task/tools/memory/memory_store.py:129-135 | when the index ranks its answers in descending similarity, the results keep that order |
| `Search.SearchResultsFromStore` | task/tools/memory/memory_store.py:128-137 | asking the index for min(top_k, n) answers yields at most min(top_k, n) results, each from a stored memory |
| `MemoryStore.Loaded` | task/tools/memory/memory_store.py:45-60 | a load yields the cached collection when there is one; else the stored one if the download succeeds and the file parses; else an empty collection |
| `MemoryStore.WithMemory` | task/tools/memory/memory_store.py:94 | appending adds exactly one record at the end and leaves the earlier records and the timestamps unchanged |
| `MemoryStore.DedupedCollection` | task/tools/memory/memory_store.py:155-156 | after deduplication at now the memories are the deduplicated ones, and the last deduplication and update time are now |
| `MemoryStore.LongTermMemoryStore.constructor` | task/tools/memory/memory_store.py:26-29 | a new engine starts with an empty cache |
| `MemoryStore.LongTermMemoryStore.LoadMemories` | task/tools/memory/memory_store.py:37-61 | on a cache hit, returns the cached collection and leaves the cache unchanged; on a miss, the stored collection (or an empty one with no deduplication time when the download fails, or the file is missing or does not parse) is returned and cached |
| `MemoryStore.LongTermMemoryStore.SaveMemories` | task/tools/memory/memory_store.py:63-77 | stamps updated_at with now; the bucket holds the stamped collection exactly when the upload succeeds; the cache holds it either way (the object is shared with the cache) |
| `MemoryStore.LongTermMemoryStore.AddMemory` | task/tools/memory/memory_store.py:79-97 | the loaded collection gains exactly one record at the end with the given id, content, importance, category, topics and the content's embedding; the cache entry equals the saved collection; the result is "Memory successfully stored: " + content, or the upload failure |
| `MemoryStore.LongTermMemoryStore.DeduplicateAndSave` | task/tools/memory/memory_store.py:150-158 | memories replaced by the deduplicated ones, last deduplication set to now, saved and cached; returns the saved collection |
| `MemoryStore.LongTermMemoryStore.SearchMemories` | task/tools/memory/memory_store.py:99-137 | an empty collection gives [] with no deduplication; otherwise the collection is deduplicated and saved first exactly when due; results are the positive-similarity answers among min(top_k, n), at most min(top_k, n), each from a stored memory; a failed save during deduplication is the result |
| `MemoryStore.LongTermMemoryStore.DeleteAllMemories` | task/tools/memory/memory_store.py:210-233 | removes the cache key and (when the delete goes through) the stored file, and always returns the same success message |
| `MemoryStore.DeleteTwice` | task/tools/memory/memory_store.py:224-233 | deleting twice reports success both times and removes the cache key; the stored file is gone exactly when at least one of the two deletes goes through, and is untouched otherwise |
| `MemoryStore.SearchAfterDelete` | task/tools/memory/memory_store.py:106-109 | a search after a successful delete loads a fresh empty collection and returns [] |
| `MemoryStore.SaveThenLoadElsewhere` | task/tools/memory/memory_store.py:48-77 | a successfully saved collection is what a fresh engine loads from the bucket, with its new timestamp |
| `MemoryStore.AddThenLoad` | task/tools/memory/memory_store.py:79-97 | the next load after an add returns, from the cache, the earlier records plus the new one at the end |
| `MemoryStore.FailedAddLeavesCacheAhead` | task/tools/memory/memory_store.py:72-77 | an add whose upload fails returns the failure and leaves the bucket unchanged, while the cache holds the loaded records plus one more |
| `MemoryStore.FailedDownloadThenAddOverwrites` | task/tools/memory/memory_store.py:48-60 | on a cold cache, a failed download followed by a successful add leaves in the bucket a collection holding only the new record, never deduplicated, whatever the file held before |
| `MemoryStore.SearchTwiceWithinInterval` | task/tools/memory/memory_store.py:111-112 | a search that deduplicates leaves the deduplicated collection in the cache, and a second search within 24 hours does not deduplicate it again |

## Left out

- The embedding model and the FAISS index (L2 normalisation, inner-product search) are
  foreign libraries on float32 values. They are replaced by two oracles. Deduplication
  receives one neighbour row per record, each naming positions of the collection.
  Search receives, for the query, k ranked answers.
- The Dedup lemmas hold for any neighbour rows whose positions are in range. They do not
  use symmetry of similarity, ranking, the row length min(n, 20), or the record itself
  appearing in its row.
- Dedup.SecondRunKeepsAll: stated only for second-run rows whose pairs above 0.75 the first
  run's rows already contained. Without that condition deduplication is not idempotent:
  with more than 20 records, a similar pair can sit outside a record's top 20 in the first
  run and inside it over the smaller collection of the second (line 193).
- NeighbourIndexContract: assumes what a flat index returns: min(n, 20) in-range answers
  per record, ranked. FAISS is not checked to keep this.
- QueryIndexContract: assumes the index returns exactly k in-range answers, ranked, for
  k <= n.
- Floating point: scores and importances are real numbers. float32 rounding and NaN
  comparisons are not modelled.
- The DIAL client and `_get_memory_file_path` are network calls. Storage is the `Bucket`
  map, and each operation takes the resolved path. Concretely: upload failure is the
  `uploadOk` flag, download failure is the `downloadOk` flag, delete failure is the
  `deleteOk` flag, and a successful download is a map lookup.
- JSON (de)serialisation with pydantic is a library call. Saving stores the collection
  value itself, and any parse failure is the `None` entry.
- Clock and ids: the clock is the `now` parameter. One search reads the clock up to three
  times (lines 147, 156, 72), and the model takes all of them as the same instant. The
  timestamp-derived `id` is a parameter.
- async/await and concurrent callers (the lost update of two racing adds) are out of
  scope.
- The tool adapters (`memory_store_tool.py`, `memory_search_tool.py`,
  `memory_delete_tool.py`) and the prompt text (`prompts.py`) only parse arguments and
  format text around one engine call.
- MemoryStore.LongTermMemoryStore.SearchMemories: requires top_k >= 1, the bound the
  search tool's argument schema imposes. The engine itself would pass a non-positive k to
  the index.
- The importance range [0, 1] is not checked, because the engine does not check it.
