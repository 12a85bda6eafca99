/**
 * The `cache(key PRIMARY KEY, timestamp INTEGER, value TEXT)` table behind a
 * DiskLRUCache, as a finite map from key to row, and the update that each SQL
 * statement of the cache performs on it, written as functions on values.
 * The lemmas state the LRU policy these updates implement.
 */
module LruTable {

  datatype Option<+T> = None | Some(value: T)

  /** A row of the table without its key: the second of its last access and the stored text. */
  datatype Entry = Entry(timestamp: int, value: string)

  /** The table; the map's keys are the primary key, so there is at most one row per key. */
  type Table = map<string, Entry>

  /** `k` is a row no other row is older than: a row that
      `SELECT key FROM cache ORDER BY timestamp ASC LIMIT 1` may return. */
  predicate IsLeastRecent(t: Table, k: string)
  {
    k in t && forall j :: j in t ==> t[k].timestamp <= t[j].timestamp
  }

  /** A non-empty table always has a least recently used row. */
  lemma {:induction false} LeastRecentExists(t: Table)
    requires t != map[]
    ensures exists k :: IsLeastRecent(t, k)
    decreases |t|
  {
    var k :| k in t;
    var rest := t - {k};
    assert rest.Keys == t.Keys - {k};
    if rest == map[] {
      assert t.Keys == rest.Keys + {k} == {k};
      assert IsLeastRecent(t, k);
    } else {
      LeastRecentExists(rest);
      var m :| IsLeastRecent(rest, m);
      var oldest := if t[k].timestamp <= t[m].timestamp then k else m;
      forall j | j in t ensures t[oldest].timestamp <= t[j].timestamp {
        if j != k { assert j in rest && rest[j] == t[j]; }
      }
      assert IsLeastRecent(t, oldest);
    }
  }

  // ---------------------------------------------------------------------------
  // get: SELECT value ... WHERE key=?, then UPDATE cache SET timestamp=? WHERE key=?

  /** The value `get` returns: the stored text of `k`, or None when there is no such row. */
  function Lookup(t: Table, k: string): (r: Option<string>)
    ensures r.Some? <==> k in t
    ensures r.Some? ==> r.value == t[k].value
  {
    if k in t then Some(t[k].value) else None
  }

  /** The recency update of a successful `get`: only `k`'s timestamp becomes `now`. */
  function Touch(t: Table, k: string, now: int): (r: Table)
    ensures r.Keys == t.Keys
    ensures k in t ==> r[k] == Entry(now, t[k].value)
    ensures forall j :: j in t && j != k ==> r[j] == t[j]
  {
    if k in t then t[k := Entry(now, t[k].value)] else t
  }

  /** `get` changes no stored value and no row count, whatever it refreshes. */
  lemma TouchKeepsValues(t: Table, k: string, now: int)
    ensures |Touch(t, k, now)| == |t|
    ensures forall j :: Lookup(Touch(t, k, now), j) == Lookup(t, j)
  {
    assert Touch(t, k, now).Keys == t.Keys;
  }

  // ---------------------------------------------------------------------------
  // delete, and the eviction step of put: DELETE FROM cache WHERE key=?

  /** The table after deleting the row of `k`, if there is one. */
  function Remove(t: Table, k: string): (r: Table)
    ensures r.Keys == t.Keys - {k}
    ensures forall j :: j in r ==> r[j] == t[j]
    ensures k in t ==> |r| == |t| - 1
    ensures k !in t ==> r == t
  {
    var r := t - {k};
    assert r.Keys == t.Keys - {k};
    r
  }

  /** After a delete, `get` finds nothing for the key and the same value for every other key. */
  lemma RemoveForgetsOnlyKey(t: Table, k: string)
    ensures Lookup(Remove(t, k), k) == None
    ensures forall j :: j != k ==> Lookup(Remove(t, k), j) == Lookup(t, j)
  {
  }

  // ---------------------------------------------------------------------------
  // put: COUNT(*), maybe evict one LRU row, then INSERT OR REPLACE

  /** The table after `INSERT OR REPLACE INTO cache VALUES (k, now, v)`. */
  function Upsert(t: Table, k: string, v: string, now: int): (r: Table)
    ensures r.Keys == t.Keys + {k}
    ensures r[k] == Entry(now, v)
    ensures forall j :: j in t && j != k ==> r[j] == t[j]
    ensures |r| == if k in t then |t| else |t| + 1
  {
    t[k := Entry(now, v)]
  }

  /** `victim` is a row the eviction step of `put` may delete: the row count `COUNT(*)`
      is compared with `maxSize` before looking at `k`, and once it has reached
      `maxSize` the victim must be a least recently used row. Below `maxSize`
      nothing is evicted and any `victim` will do. */
  predicate EvictionChoice(t: Table, maxSize: int, victim: string)
  {
    |t| >= maxSize ==> IsLeastRecent(t, victim)
  }

  /** `put` with the tie among least recently used rows resolved in favour of `victim`. */
  function PutWith(t: Table, maxSize: int, k: string, v: string, now: int, victim: string): Table
    requires EvictionChoice(t, maxSize, victim)
  {
    var kept := if |t| >= maxSize then Remove(t, victim) else t;
    Upsert(kept, k, v, now)
  }

  /** `r` is a table `put(k, v)` at second `now` can leave behind. There is none when
      the table is full and empty at once (`maxSize <= 0`): there the source's
      `fetchone()[0]` fails on an empty result. */
  ghost predicate PutOutcome(t: Table, maxSize: int, k: string, v: string, now: int, r: Table)
  {
    exists victim :: EvictionChoice(t, maxSize, victim) && r == PutWith(t, maxSize, k, v, now, victim)
  }

  /** `put` has an outcome exactly when the eviction step finds a row whenever it looks for one. */
  lemma PutDefinedUnlessEmptyAndFull(t: Table, maxSize: int, k: string, v: string, now: int)
    ensures (exists r :: PutOutcome(t, maxSize, k, v, now, r)) <==> (|t| >= maxSize ==> t != map[])
  {
    if |t| >= maxSize && t != map[] {
      LeastRecentExists(t);
      var victim :| IsLeastRecent(t, victim);
      assert PutOutcome(t, maxSize, k, v, now, PutWith(t, maxSize, k, v, now, victim));
    } else if |t| < maxSize {
      assert PutOutcome(t, maxSize, k, v, now, PutWith(t, maxSize, k, v, now, k));
    } else {
      assert forall victim :: !EvictionChoice(t, maxSize, victim);
    }
  }

  /** Read after write: after `put(k, v)` the row of `k` holds `v` stamped `now`, so an
      immediately following `get(k)` returns `v`, whatever second it runs at. */
  lemma PutThenGet(t: Table, maxSize: int, k: string, v: string, now: int, r: Table, later: int)
    requires PutOutcome(t, maxSize, k, v, now, r)
    ensures k in r && r[k] == Entry(now, v)
    ensures Lookup(r, k) == Some(v)
    ensures Lookup(Touch(r, k, later), k) == Some(v)
  {
    var victim :| EvictionChoice(t, maxSize, victim) && r == PutWith(t, maxSize, k, v, now, victim);
  }

  /** `put` leaves every row other than `k`'s as it was, or deletes it; below capacity it
      is a plain upsert. */
  lemma PutKeepsOtherRows(t: Table, maxSize: int, k: string, v: string, now: int, r: Table)
    requires PutOutcome(t, maxSize, k, v, now, r)
    ensures r.Keys <= t.Keys + {k}
    ensures forall j :: j in r && j != k ==> j in t && r[j] == t[j]
    ensures |t| < maxSize ==> r == Upsert(t, k, v, now)
  {
    var victim :| EvictionChoice(t, maxSize, victim) && r == PutWith(t, maxSize, k, v, now, victim);
  }

  /** The keys `put` leaves, for a given choice of victim. */
  lemma PutWithKeys(t: Table, maxSize: int, k: string, v: string, now: int, victim: string)
    requires EvictionChoice(t, maxSize, victim)
    ensures PutWith(t, maxSize, k, v, now, victim).Keys ==
      if |t| >= maxSize then t.Keys - {victim} + {k} else t.Keys + {k}
  {
  }

  /** A row other than `k` that `put` deletes was least recently used, and the row count
      had reached `maxSize`. */
  lemma PutEvictsOnlyLeastRecent(t: Table, maxSize: int, k: string, v: string, now: int, r: Table)
    requires PutOutcome(t, maxSize, k, v, now, r)
    ensures forall j :: j in t && j != k && j !in r ==> |t| >= maxSize && IsLeastRecent(t, j)
  {
    var victim :| EvictionChoice(t, maxSize, victim) && r == PutWith(t, maxSize, k, v, now, victim);
    PutWithKeys(t, maxSize, k, v, now, victim);
    forall j | j in t && j != k && j !in r ensures |t| >= maxSize && j == victim {
    }
  }

  /** Besides writing `k`, `put` deletes at most one row. */
  lemma PutEvictsAtMostOne(t: Table, maxSize: int, k: string, v: string, now: int, r: Table)
    requires PutOutcome(t, maxSize, k, v, now, r)
    ensures |t.Keys - {k} - r.Keys| <= 1
  {
    var victim :| EvictionChoice(t, maxSize, victim) && r == PutWith(t, maxSize, k, v, now, victim);
    PutWithKeys(t, maxSize, k, v, now, victim);
    GoneAtMostVictim(t.Keys, r.Keys, k, victim);
  }

  lemma GoneAtMostVictim(before: set<string>, after: set<string>, k: string, victim: string)
    requires after == before - {victim} + {k} || after == before + {k}
    ensures |before - {k} - after| <= 1
  {
    var gone := before - {k} - after;
    if victim in gone {
      assert gone == {victim};
    } else {
      assert gone == {};
    }
  }

  /** The row count after `put`: one more for a new key below capacity; at capacity the
      same, or one fewer when an existing key other than the victim is overwritten,
      which is certain when that key is not among the least recently used rows. */
  lemma PutSize(t: Table, maxSize: int, k: string, v: string, now: int, r: Table)
    requires PutOutcome(t, maxSize, k, v, now, r)
    ensures |t| < maxSize ==> |r| == if k in t then |t| else |t| + 1
    ensures |t| >= maxSize && k !in t ==> |r| == |t|
    ensures |t| >= maxSize && k in t ==> |r| == |t| || |r| == |t| - 1
    ensures |t| >= maxSize && k in t && !IsLeastRecent(t, k) ==> |r| == |t| - 1
  {
    var victim :| EvictionChoice(t, maxSize, victim) && r == PutWith(t, maxSize, k, v, now, victim);
  }

  /** When one row is strictly older than every other, a `put` at capacity evicts
      exactly that row, whatever the tie-breaking. */
  lemma PutEvictsUniqueOldest(t: Table, maxSize: int, k: string, v: string, now: int, r: Table, oldest: string)
    requires PutOutcome(t, maxSize, k, v, now, r)
    requires |t| >= maxSize
    requires oldest in t && forall j :: j in t && j != oldest ==> t[oldest].timestamp < t[j].timestamp
    ensures r == Upsert(Remove(t, oldest), k, v, now)
  {
    var victim :| EvictionChoice(t, maxSize, victim) && r == PutWith(t, maxSize, k, v, now, victim);
    assert t[victim].timestamp <= t[oldest].timestamp;
    assert victim == oldest;
  }

  /** When every row carries the same second, each of them is a row the eviction query
      may return: a `put` at capacity may evict any one of them, so which one goes is
      up to the database's order among equal timestamps. */
  lemma TiedRowsMayEachBeEvicted(t: Table, maxSize: int, k: string, v: string, now: int, j: string)
    requires |t| >= maxSize
    requires j in t && forall i :: i in t ==> t[i].timestamp == t[j].timestamp
    ensures EvictionChoice(t, maxSize, j)
    ensures PutOutcome(t, maxSize, k, v, now, PutWith(t, maxSize, k, v, now, j))
    ensures j != k ==> j !in PutWith(t, maxSize, k, v, now, j)
  {
    assert IsLeastRecent(t, j);
  }

  /** A table within capacity stays within capacity across `put`. */
  lemma PutKeepsBound(t: Table, maxSize: int, k: string, v: string, now: int, r: Table)
    requires PutOutcome(t, maxSize, k, v, now, r)
    requires |t| <= maxSize
    ensures |r| <= maxSize
  {
    PutSize(t, maxSize, k, v, now, r);
  }

  /** Because the eviction check counts rows before looking at `k`, overwriting a key of a
      full table still evicts: whenever some least recently used row is not `k`, `put`
      may leave the table one row short of `maxSize`. */
  lemma OverwriteInFullTableShrinks(t: Table, maxSize: int, k: string, v: string, now: int, victim: string)
    requires k in t && |t| == maxSize
    requires IsLeastRecent(t, victim) && victim != k
    ensures PutOutcome(t, maxSize, k, v, now, PutWith(t, maxSize, k, v, now, victim))
    ensures |PutWith(t, maxSize, k, v, now, victim)| == maxSize - 1
  {
    assert EvictionChoice(t, maxSize, victim);
  }

  // ---------------------------------------------------------------------------
  // purge: DELETE FROM cache WHERE timestamp<?

  /** The rows `purge(cutoff)` deletes: those stamped strictly before `cutoff`. */
  function Expired(t: Table, cutoff: int): (s: set<string>)
    ensures s <= t.Keys
  {
    set j | j in t && t[j].timestamp < cutoff
  }

  /** The table after `purge(cutoff)`. */
  function PurgeBefore(t: Table, cutoff: int): (r: Table)
    ensures forall j :: j in r <==> j in t && cutoff <= t[j].timestamp
    ensures forall j :: j in r ==> r[j] == t[j]
  {
    map j | j in t && cutoff <= t[j].timestamp :: t[j]
  }

  /** `purge` deletes exactly the expired rows, so the row count drops by their number. */
  lemma PurgeRemovesExactlyExpired(t: Table, cutoff: int)
    ensures PurgeBefore(t, cutoff).Keys == t.Keys - Expired(t, cutoff)
    ensures |PurgeBefore(t, cutoff)| == |t| - |Expired(t, cutoff)|
  {
    var kept := PurgeBefore(t, cutoff).Keys;
    var gone := Expired(t, cutoff);
    assert kept == t.Keys - gone;
    assert kept * gone == {};
    assert t.Keys == kept + gone;
  }

  /** A cutoff later than every row's second empties the table. */
  lemma PurgePastEverythingEmpties(t: Table, cutoff: int)
    requires forall j :: j in t ==> t[j].timestamp < cutoff
    ensures PurgeBefore(t, cutoff) == map[]
    ensures forall j :: Lookup(PurgeBefore(t, cutoff), j) == None
  {
    assert PurgeBefore(t, cutoff).Keys == {};
  }

  /** A cutoff no later than any row's second changes nothing; in particular a row
      stamped exactly at the cutoff survives. */
  lemma PurgeBeforeEverythingKeepsAll(t: Table, cutoff: int)
    requires forall j :: j in t ==> cutoff <= t[j].timestamp
    ensures PurgeBefore(t, cutoff) == t
  {
  }

  /** Two purges in a row do what the purge with the later cutoff does alone. */
  lemma PurgeTwice(t: Table, a: int, b: int)
    ensures PurgeBefore(PurgeBefore(t, a), b) == PurgeBefore(t, if a <= b then b else a)
  {
  }
}
