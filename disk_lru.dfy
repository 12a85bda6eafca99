/**
 * DiskLRUCache: a size-bounded LRU cache whose rows live in one table of an
 * on-disk database. The object keeps the table, the capacity `maxSize` and a
 * `closed` flag; every operation is the in-place table update given by
 * module LruTable. The wall-clock second the source reads is passed in as `now`.
 */
module DiskLru {
  import opened LruTable

  class DiskLruCache {
    /** The rows of the `cache` table. */
    var table: Table
    /** The capacity `put` compares the row count with. */
    var maxSize: int
    var closed: bool

    /** The row count is within capacity. */
    ghost predicate WithinCapacity()
      reads this
    {
      |table| <= maxSize
    }

    /** Opening a database file: `CREATE TABLE IF NOT EXISTS` keeps whatever rows the
        file already holds (`stored`), so a cache survives being reopened. */
    constructor (stored: Table, maxSize: int)
      ensures table == stored && this.maxSize == maxSize && !closed
    {
      table := stored;
      this.maxSize := maxSize;
      closed := false;
    }

    /** Returns the stored value of `key` and, when there is one, stamps its row with
        `now`; a missing key returns None and changes nothing. */
    method Get(key: string, now: int) returns (r: Option<string>)
      requires !closed
      modifies this`table
      ensures r == Lookup(old(table), key)
      ensures table == Touch(old(table), key, now)
      ensures r == None ==> table == old(table)
      ensures |table| == |old(table)|
    {
      r := Lookup(table, key);
      if r.Some? {
        table := Touch(table, key, now);
      }
    }

    /** Stores `value` under `key` stamped `now`, first evicting one least recently used
        row if the row count has reached `maxSize` (counted before looking at `key`);
        which of several equally old rows goes is left open. Besides a closed cache, the
        requires excludes the one case in which the source fails: a table that is full
        and empty at once, where the eviction query returns no row. */
    method Put(key: string, value: string, now: int)
      requires !closed
      requires |table| >= maxSize ==> table != map[]
      modifies this`table
      ensures PutOutcome(old(table), maxSize, key, value, now, table)
      ensures |old(table)| < maxSize ==> table == Upsert(old(table), key, value, now)
      ensures old(WithinCapacity()) ==> WithinCapacity()
    {
      ghost var before := table;
      var victim := key;
      if |table| >= maxSize {
        LeastRecentExists(table);
        var lru :| lru in table && IsLeastRecent(table, lru);
        victim := lru;
        table := Remove(table, lru);
      }
      table := Upsert(table, key, value, now);
      assert EvictionChoice(before, maxSize, victim) && table == PutWith(before, maxSize, key, value, now, victim);
      if |before| <= maxSize {
        PutKeepsBound(before, maxSize, key, value, now, table);
      }
    }

    /** Deletes the row of `key`; a missing key is not an error and changes nothing. */
    method Delete(key: string)
      requires !closed
      modifies this`table
      ensures table == Remove(old(table), key)
      ensures key !in old(table) ==> table == old(table)
      ensures old(WithinCapacity()) ==> WithinCapacity()
    {
      table := Remove(table, key);
    }

    /** Deletes every row stamped strictly before `cutoff`. */
    method Purge(cutoff: int)
      requires !closed
      modifies this`table
      ensures table == PurgeBefore(old(table), cutoff)
      ensures |table| == |old(table)| - |Expired(old(table), cutoff)|
      ensures old(WithinCapacity()) ==> WithinCapacity()
    {
      table := PurgeBefore(table, cutoff);
      PurgeRemovesExactlyExpired(old(table), cutoff);
    }

    /** Deletes every row. */
    method Clear()
      requires !closed
      modifies this`table
      ensures table == map[]
      ensures old(WithinCapacity()) ==> WithinCapacity()
    {
      table := map[];
    }

    /** Closes the cache; closing a closed cache changes nothing. The rows stay in
        the file. */
    method Close()
      modifies this`closed
      ensures closed
      ensures old(closed) ==> unchanged(this)
    {
      if !closed {
        closed := true;
      }
    }
  }

  /** A value just put is read back, on a cache of any capacity of at least one row. */
  method SetAndGet(stored: Table, maxSize: int, key: string, value: string, now: int, later: int)
    returns (r: Option<string>)
    requires maxSize >= 1
    ensures r == Some(value)
  {
    var c := new DiskLruCache(stored, maxSize);
    c.Put(key, value, now);
    r := c.Get(key, later);
  }

  /** After `clear`, a key that was put is gone. */
  method ClearThenGet(stored: Table, maxSize: int, key: string, value: string, now: int, later: int)
    returns (r: Option<string>)
    requires maxSize >= 1
    ensures r == None
  {
    var c := new DiskLruCache(stored, maxSize);
    c.Put(key, value, now);
    c.Clear();
    r := c.Get(key, later);
  }

  /** Purging with a cutoff after two puts deletes both rows; purging with a cutoff
      before them keeps both. */
  method PurgeScenario(now: int, past: int, future: int) returns (gone1: Option<string>, gone2: Option<string>, kept1: Option<string>, kept2: Option<string>)
    requires past <= now < future
    ensures gone1 == None && gone2 == None
    ensures kept1 == Some("value1") && kept2 == Some("value2")
  {
    var c := new DiskLruCache(map[], 4);
    c.Put("key1", "value1", now);
    c.Put("key2", "value2", now);
    c.Purge(future);
    gone1 := c.Get("key1", now);
    gone2 := c.Get("key2", now);
    c.Put("key1", "value1", now);
    c.Put("key2", "value2", now);
    c.Purge(past);
    kept1 := c.Get("key1", now);
    kept2 := c.Get("key2", now);
  }

  /** Four pairwise different keys. */
  predicate DistinctFour(k1: string, k2: string, k3: string, k4: string)
  {
    k1 != k2 && k1 != k3 && k1 != k4 && k2 != k3 && k2 != k4 && k3 != k4
  }

  /** Five pairwise different keys. */
  predicate Distinct(k1: string, k2: string, k3: string, k4: string, k5: string)
  {
    DistinctFour(k1, k2, k3, k4) && k5 != k1 && k5 != k2 && k5 != k3 && k5 != k4
  }

  /** The table of the eviction scenario once k1..k4 are in and each was read again,
      in that order, at seconds 5..8. */
  function ScenarioFull(k1: string, k2: string, k3: string, k4: string): Table
  {
    ScenarioFilled(k1, k2, k3, k4)[k1 := Entry(5, "value1")][k2 := Entry(6, "value2")]
                                  [k3 := Entry(7, "value3")][k4 := Entry(8, "value4")]
  }

  /** In that table k1 is strictly older than every other row. */
  lemma ScenarioFirstOldest(k1: string, k2: string, k3: string, k4: string, k5: string)
    requires Distinct(k1, k2, k3, k4, k5)
    ensures |ScenarioFull(k1, k2, k3, k4)| == 4 && k5 !in ScenarioFull(k1, k2, k3, k4)
    ensures k1 in ScenarioFull(k1, k2, k3, k4)
    ensures forall j :: j in ScenarioFull(k1, k2, k3, k4) && j != k1 ==>
      ScenarioFull(k1, k2, k3, k4)[k1].timestamp < ScenarioFull(k1, k2, k3, k4)[j].timestamp
  {
  }

  /** Putting k5 into that table evicts k1, its only least recently used row. */
  lemma ScenarioEvictsFirst(k1: string, k2: string, k3: string, k4: string, k5: string, r: Table)
    requires Distinct(k1, k2, k3, k4, k5)
    requires PutOutcome(ScenarioFull(k1, k2, k3, k4), 4, k5, "value5", 9, r)
    ensures k2 in r && k3 in r && k4 in r && k5 in r
    ensures k1 !in r && |r| == 4
  {
    ScenarioFirstOldest(k1, k2, k3, k4, k5);
    PutEvictsUniqueOldest(ScenarioFull(k1, k2, k3, k4), 4, k5, "value5", 9, r, k1);
  }

  /** The first steps of the eviction scenario: on an empty cache of capacity four,
      put k1..k4 at seconds 1..4; nothing is evicted. */
  method FillFour(k1: string, k2: string, k3: string, k4: string) returns (c: DiskLruCache)
    requires DistinctFour(k1, k2, k3, k4)
    ensures fresh(c) && !c.closed && c.maxSize == 4
    ensures c.table == ScenarioFilled(k1, k2, k3, k4)
  {
    c := new DiskLruCache(map[], 4);
    c.Put(k1, "value1", 1);
    assert c.table == map[k1 := Entry(1, "value1")];
    c.Put(k2, "value2", 2);
    assert c.table == map[k1 := Entry(1, "value1"), k2 := Entry(2, "value2")];
    c.Put(k3, "value3", 3);
    assert c.table == map[k1 := Entry(1, "value1"), k2 := Entry(2, "value2"), k3 := Entry(3, "value3")];
    c.Put(k4, "value4", 4);
  }

  /** The table of the eviction scenario after the four puts. */
  function ScenarioFilled(k1: string, k2: string, k3: string, k4: string): Table
  {
    map[k1 := Entry(1, "value1"), k2 := Entry(2, "value2"),
        k3 := Entry(3, "value3"), k4 := Entry(4, "value4")]
  }

  /** Reading k1..k4 at seconds 5..8 refreshes each row in turn and keeps every value. */
  lemma ScenarioReadsRefresh(k1: string, k2: string, k3: string, k4: string)
    requires DistinctFour(k1, k2, k3, k4)
    ensures Lookup(ScenarioFilled(k1, k2, k3, k4), k1) == Some("value1")
    ensures Lookup(Touch(ScenarioFilled(k1, k2, k3, k4), k1, 5), k2) == Some("value2")
    ensures Lookup(Touch(Touch(ScenarioFilled(k1, k2, k3, k4), k1, 5), k2, 6), k3) == Some("value3")
    ensures Lookup(Touch(Touch(Touch(ScenarioFilled(k1, k2, k3, k4), k1, 5), k2, 6), k3, 7), k4)
      == Some("value4")
    ensures Touch(Touch(Touch(Touch(ScenarioFilled(k1, k2, k3, k4), k1, 5), k2, 6), k3, 7), k4, 8)
      == ScenarioFull(k1, k2, k3, k4)
  {
    var t0 := ScenarioFilled(k1, k2, k3, k4);
    var t1 := t0[k1 := Entry(5, "value1")];
    var t2 := t1[k2 := Entry(6, "value2")];
    var t3 := t2[k3 := Entry(7, "value3")];
    assert Touch(t0, k1, 5) == t1;
    assert Touch(t1, k2, 6) == t2;
    assert Touch(t2, k3, 7) == t3;
    assert Touch(t3, k4, 8) == t3[k4 := Entry(8, "value4")];
  }

  /** The reads of the eviction scenario: k1..k4, in that order, at seconds 5..8. Each
      finds its value and refreshes its row. */
  method ReadAllFour(c: DiskLruCache, k1: string, k2: string, k3: string, k4: string)
    returns (present: seq<Option<string>>)
    requires DistinctFour(k1, k2, k3, k4)
    requires !c.closed
    requires c.table == ScenarioFilled(k1, k2, k3, k4)
    modifies c
    ensures !c.closed && c.maxSize == old(c.maxSize)
    ensures c.table == ScenarioFull(k1, k2, k3, k4)
    ensures present == [Some("value1"), Some("value2"), Some("value3"), Some("value4")]
  {
    ScenarioReadsRefresh(k1, k2, k3, k4);
    var r1 := c.Get(k1, 5);
    var r2 := c.Get(k2, 6);
    var r3 := c.Get(k3, 7);
    var r4 := c.Get(k4, 8);
    present := [r1, r2, r3, r4];
  }

  /** The maximum-elements test with strictly increasing clock seconds: on capacity
      four, put k1..k4, read every one of them in order (all present), then put k5.
      The least recently used row, k1, is evicted and reads as None afterwards; k2..k5
      remain. */
  method EvictionScenario(k1: string, k2: string, k3: string, k4: string, k5: string)
    returns (keys: set<string>, present: seq<Option<string>>, evicted: Option<string>)
    requires Distinct(k1, k2, k3, k4, k5)
    ensures present == [Some("value1"), Some("value2"), Some("value3"), Some("value4")]
    ensures k2 in keys && k3 in keys && k4 in keys && k5 in keys
    ensures k1 !in keys && |keys| == 4
    ensures evicted == None
  {
    var c := FillFour(k1, k2, k3, k4);
    present := ReadAllFour(c, k1, k2, k3, k4);
    ScenarioFirstOldest(k1, k2, k3, k4, k5);
    c.Put(k5, "value5", 9);
    ScenarioEvictsFirst(k1, k2, k3, k4, k5, c.table);
    keys := c.table.Keys;
    evicted := c.Get(k1, 10);
  }
}
