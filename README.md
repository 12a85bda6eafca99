# DiskLRUCache, modelled in Dafny

`DiskLRUCache` is a size-bounded least-recently-used cache. It keeps its rows
in one database table, `cache(key PRIMARY KEY, timestamp INTEGER, value TEXT)`:
one row per key, stamped with the wall-clock second of its last write or read.
`get` returns a row's value and re-stamps the row. `put` first counts the rows;
when the count has reached `max_size` it deletes one row with the smallest
timestamp. Then it inserts or replaces the row of the key. `delete`, `purge`
(rows stamped strictly before a cutoff) and `clear` delete rows. `close`
closes the connection once. Every other operation asserts that the cache is
not closed.

The model has two modules:

- `LruTable` (lru_table.dfy) treats the table as a `map<string, Entry>`.
  Each SQL statement of the cache is a function on that map (`Lookup`, `Touch`,
  `Remove`, `Upsert`, `PurgeBefore`). `PutWith` is the whole of `put` once the
  eviction victim is fixed. `PutOutcome` is "some allowed victim gives this
  table": `ORDER BY timestamp ASC LIMIT 1` does not say which of several
  equally old rows it takes. The lemmas state the LRU policy for every outcome.
- `DiskLru` (disk_lru.dfy) holds class `DiskLruCache`. Its fields are `table`,
  `maxSize` and `closed`. Its methods change them in place, one method per
  operation of the source, each stated as a table update from `LruTable`.
  After the class come client methods that replay the scenarios of the
  source's unit tests.

The clock (`int(datetime.now().timestamp())`) is a parameter `now: int` of
`Get` and `Put`. The rows the database file already holds when the cache is
opened are a parameter `stored` of the constructor, because
`CREATE TABLE IF NOT EXISTS` keeps them.

Two behaviours of the code are easy to miss:

- `purge` deletes rows with a strict `timestamp < cutoff` (src/disklru/disklru.py:90),
  so a row stamped exactly at the cutoff survives.
- `put` counts rows before it looks at the key (src/disklru/disklru.py:63-64), so
  overwriting a key in a full cache still evicts a row and can leave `max_size - 1`
  rows.

## Model

| member | source | states |
|---|---|---|
| LruTable.IsLeastRecent | src/disklru/disklru.py:66 | the rows `ORDER BY timestamp ASC LIMIT 1` may return: a present key whose timestamp is no later than any other row's. A definition without its own contract; `LeastRecentExists` and the `Put*` lemmas state its properties |
| LruTable.LeastRecentExists | src/disklru/disklru.py:63-67 | a non-empty table always has a row with a timestamp no later than any other row's. So the eviction query finds a row whenever the count check has reached a positive capacity |
| LruTable.Lookup | src/disklru/disklru.py:42-44 | the stored value is returned exactly when the key has a row, and it is that row's value |
| LruTable.Touch | src/disklru/disklru.py:45-48 | the recency update of `get` keeps the same keys, sets only the looked-up key's timestamp to `now` and keeps its value, and leaves every other row as it was |
| LruTable.TouchKeepsValues | src/disklru/disklru.py:44-50 | the refresh done by `get` changes no value that any key reads back and does not change the row count |
| LruTable.Remove | src/disklru/disklru.py:84 | deleting a key removes that key only and keeps the other rows equal. The count drops by one if the key was present. A missing key leaves the table unchanged |
| LruTable.RemoveForgetsOnlyKey | src/disklru/disklru.py:81-85 | after `delete(k)`, looking up `k` gives None, and every other key reads back the same as before |
| LruTable.Upsert | src/disklru/disklru.py:70-74 | `INSERT OR REPLACE` adds the key and gives its row `(now, v)`. Other rows stay equal. The count grows by one only for a new key |
| LruTable.EvictionChoice | src/disklru/disklru.py:63-64 | the count check: once the row count has reached `max_size`, the row to delete must be least recently used. Below that, nothing is evicted. A definition; the `Put*` lemmas state its properties |
| LruTable.PutWith | src/disklru/disklru.py:63-75 | all of `put` for a fixed eviction choice: delete the victim if the count has reached `max_size`, then insert or replace the key. A definition; the `Put*` lemmas state its properties |
| LruTable.PutOutcome | src/disklru/disklru.py:63-75 | the tables `put` may leave: those of `PutWith` for some allowed victim, since the database picks among equally old rows. A definition; the `Put*` lemmas state what holds for every outcome |
| LruTable.PutDefinedUnlessEmptyAndFull | src/disklru/disklru.py:63-67 | `put` has an outcome exactly when "row count >= max_size" implies a non-empty table. The one failing case is zero (or negative) capacity with an empty table, where `fetchone()` gives None |
| LruTable.PutThenGet | src/disklru/disklru.py:70-75 | after any outcome of `put(k, v, now)`, the row of `k` is `(now, v)`, and a following `get(k)` at any second returns `v` |
| LruTable.PutKeepsOtherRows | src/disklru/disklru.py:60-75 | `put` adds no key besides `k`. Every surviving row other than `k` is unchanged. Below capacity, `put` is exactly the upsert |
| LruTable.PutEvictsOnlyLeastRecent | src/disklru/disklru.py:63-68 | any row other than `k` that `put` deletes was least recently used, and the row count before the call had reached `max_size` |
| LruTable.PutEvictsAtMostOne | src/disklru/disklru.py:63-69 | apart from `k` itself, `put` deletes at most one row |
| LruTable.PutSize | src/disklru/disklru.py:63-75 | row count after `put`. Below capacity it is the same for an overwrite and one more for a new key. At capacity it is the same for a new key, and the same or one fewer for an overwrite: exactly one fewer when the overwritten key is not among the least recently used rows |
| LruTable.PutEvictsUniqueOldest | src/disklru/disklru.py:63-68 | when one row is strictly older than all others, a `put` at capacity evicts exactly that row and then upserts |
| LruTable.TiedRowsMayEachBeEvicted | src/disklru/disklru.py:63-68 | when all rows share one second and the count has reached `max_size`, each row is an allowed victim, and evicting it is an outcome of `put` that drops that row |
| LruTable.PutKeepsBound | src/disklru/disklru.py:63-75 | if the table was within `max_size` before `put`, it is within `max_size` after |
| LruTable.OverwriteInFullTableShrinks | src/disklru/disklru.py:63-64 | take a full table and overwrite an existing key. If the chosen least-recent row is another key, the outcome has `max_size - 1` rows |
| LruTable.Expired | src/disklru/disklru.py:90 | the rows `purge` targets are a subset of the table's keys |
| LruTable.PurgeBefore | src/disklru/disklru.py:87-90 | a key survives `purge(cutoff)` exactly when its row's timestamp is not less than `cutoff`, and survivors are unchanged |
| LruTable.PurgeRemovesExactlyExpired | src/disklru/disklru.py:87-90 | `purge` removes exactly the rows stamped strictly before the cutoff, and the row count falls by their number |
| LruTable.PurgePastEverythingEmpties | src/disklru/disklru.py:87-90 | a cutoff later than every timestamp empties the table, so every lookup gives None |
| LruTable.PurgeBeforeEverythingKeepsAll | src/disklru/disklru.py:87-90 | a cutoff at or before every timestamp leaves the table unchanged. A row stamped exactly at the cutoff survives |
| LruTable.PurgeTwice | src/disklru/disklru.py:87-90 | purging with cutoff `a` and then `b` equals one purge with the later of the two |
| DiskLru.DiskLruCache.constructor | src/disklru/disklru.py:17-37 | opening keeps the rows already stored in the file, records `max_size` and starts not closed |
| DiskLru.DiskLruCache.Get | src/disklru/disklru.py:39-51 | requires not closed. Returns the key's stored value or None. The table becomes `Touch` of the old one, and it is unchanged when the key is missing |
| DiskLru.DiskLruCache.Put | src/disklru/disklru.py:60-75 | requires not closed and not both full and empty. The new table is one allowed outcome of `put`. Below capacity it is the plain upsert. Being within capacity is preserved |
| DiskLru.DiskLruCache.Delete | src/disklru/disklru.py:81-85 | requires not closed. The new table is the old one without the key, and a missing key changes nothing |
| DiskLru.DiskLruCache.Purge | src/disklru/disklru.py:87-91 | requires not closed. The new table keeps exactly the rows not stamped before the cutoff, and the count falls by the number of expired rows |
| DiskLru.DiskLruCache.Clear | src/disklru/disklru.py:93-97 | requires not closed. The table becomes empty |
| DiskLru.DiskLruCache.Close | src/disklru/disklru.py:103-107 | afterwards the cache is closed, and closing a closed cache changes nothing |
| DiskLru.SetAndGet | tests/test_disklru.py:27-30 | on any stored table with capacity at least one, `put(k, v)` followed by `get(k)` returns `v` |
| DiskLru.ClearThenGet | tests/test_disklru.py:32-36 | after `put` and then `clear`, `get` of the key returns None |
| DiskLru.PurgeScenario | tests/test_disklru.py:38-51 | a future cutoff deletes both freshly put rows. A past cutoff keeps both readable. tests/test_disklru.py:50 carries the comment `# this fails`, but by the strict `<` of src/disklru/disklru.py:90 the code as modelled makes that assertion pass, so the comment is not borne out (nothing was executed) |
| DiskLru.ScenarioEvictsFirst | src/disklru/disklru.py:63-75 | with rows k1@5, k2@6, k3@7, k4@8 and capacity four, every outcome of putting k5 drops the unique oldest row k1 and keeps k2, k3, k4, k5 |
| DiskLru.ScenarioReadsRefresh | src/disklru/disklru.py:39-51 | reading k1..k4 at seconds 5..8 after the four puts finds each value and leaves each row re-stamped with its read second |
| DiskLru.FillFour | tests/test_disklru.py:56-62 | on an empty cache of capacity four, putting four distinct keys at seconds 1..4 evicts nothing and leaves exactly those four rows |
| DiskLru.ReadAllFour | tests/test_disklru.py:66-69 | reading the four keys in order finds every one of them and refreshes each row to its read second |
| DiskLru.EvictionScenario | tests/test_disklru.py:53-80 | the maximum-elements test with strictly increasing seconds: after four puts and four reads (all present), putting a fifth key evicts the first key, which then reads as None. The second to fifth keys remain |

## Left out

- SQLite itself: connections, cursors, the per-statement commits, and the `idx_timestamp` and `idx_key` indexes. Each method is the table update its statements make. The eviction and the insert of `put` commit separately, which matters only when another connection uses the file, or when the process stops or the insert fails between the two commits; the model has neither.
- `os.makedirs` for the database directory, and the file path: the model starts from the rows the file holds.
- `__del__`, which closes the cache when it is garbage-collected. `Close` models the explicit call.
- `get_json` and `put_json`: they only wrap `get` and `put` in `json.loads` and `json.dumps`, and the JSON library is not part of this model.
- The `max_size: str` annotation of `__init__` (src/disklru/disklru.py:17): `put` compares `max_size` with an integer count (src/disklru/disklru.py:64), which raises a `TypeError` for a string. `maxSize` is an `int` here, as the call sites pass 4 and 16 (tests/test_disklru.py:21, tests/test_disklru_multithreaded.py:36).
- Reading the wall clock and truncating it to whole seconds: the second arrives as `now: int`.
- Python `None` as a stored value. The model's values are strings, so `Lookup` never confuses a stored NULL with a missing row.
- The `assert not self.closed` checks are preconditions (`requires !closed`), not a modelled error path, because an assertion failure is a caller error.
- `compare_and_swap`, `get_size`, `max_entries` and a size counter. The threaded tests call them, but they are not in the cache class modelled here.
- The threaded tests (tests/test_disklru_multithreaded.py, tests/test_disklru_compare_and_swap.py): concurrency is not modelled.
- DiskLru.EvictionScenario: tests/test_disklru.py:53-80 runs with real time and 0.1 s sleeps, so its rows can share one whole second. Then the evicted row depends on SQLite's order among equal timestamps. `LruTable.TiedRowsMayEachBeEvicted` shows that any tied row may go. The scenario here uses strictly increasing seconds, where `key1` is forced out as the test expects.
- DiskLru.DiskLruCache.Put: with `max_size <= 0` and an empty table, the source raises a `TypeError` on `fetchone()[0]` (src/disklru/disklru.py:67). The model excludes that case by a precondition instead of modelling the exception. `LruTable.PutDefinedUnlessEmptyAndFull` proves it is the only input without an outcome.
- src/disklru/models.py declares the same three columns for an ORM and has no behaviour. It only confirms the shape of `Entry`.
