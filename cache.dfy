/**
 * The single-threaded cache (CacheTable/CacheTable.cs): the row engine, a running count
 * of stored pairs and one xorshift generator for evictions. Its abstract state is the
 * map `Contents()` the slots stand for.
 */
module Cache {
  import opened Arith
  import opened Prng
  import opened Layout
  import opened Engine

  /**
   * Everything the indexer setter needs about one Set on the key's row (slots `lo .. hi`):
   * the slots stay well formed, the occupied count goes up by one exactly on an
   * insertion (never when every slot was already occupied), and the view changes as
   * Set promises.
   */
  lemma SetCounted<K, V>(s: seq<Slot<K, V>>, hash: K -> int32, numRows: int, numColumns: int,
                         key: K, value: V, r: int, lo: int, hi: int)
    requires WellFormed(s, hash, numRows, numColumns) && IsKeyRow(hash, numRows, numColumns, key, lo, hi)
    requires 0 <= r < numColumns
    ensures 0 <= lo <= hi <= |s|
    ensures var s', inserted := SetIn(s, lo, hi, key, value, r).0, SetIn(s, lo, hi, key, value, r).1;
      WellFormed(s', hash, numRows, numColumns) &&
      Occupied(s') == Occupied(s) + (if inserted then 1 else 0) &&
      (Occupied(s) == |s| ==> !inserted) &&
      (HasRoom(s, lo, hi) <==> |RowKeys(View(s), hash, numRows, key)| < numColumns) &&
      (inserted <==> key !in View(s) && HasRoom(s, lo, hi)) &&
      (key in View(s) || inserted ==> View(s') == View(s)[key := value]) &&
      (key !in View(s) && !inserted ==>
         s[lo + r].Some? && s[lo + r].value.key in View(s) && s[lo + r].value.key != key &&
         RowOf(hash(s[lo + r].value.key), numRows) == RowOf(hash(key), numRows) &&
         View(s') == (View(s) - {s[lo + r].value.key})[key := value])
  {
    SetInWellFormed(s, hash, numRows, numColumns, key, value, r, lo, hi);
    SetInView(s, hash, numRows, numColumns, key, value, r, lo, hi);
    RoomIsRowKeys(s, hash, numRows, numColumns, key, lo, hi);
    if s[lo + r].Some? {
      EvictedFromKeyRow(s, hash, numRows, numColumns, key, r, lo, hi);
    }
    SetInCount(s, lo, hi, key, value, r);
    if Occupied(s) == |s| {
      FullHasNoRoom(s, lo, hi);
    }
  }

  class CacheTable<K(==), V> {
    const table: CacheTableInternal<K, V>
    var count: int
    const rng: XorShiftRandom

    /**
     * The slots keep every key in its own row and at most once, `count` is the
     * number of occupied slots, and the generator is off xorshift's zero fixed point.
     */
    ghost predicate Valid()
      reads this, table.table, rng
    {
      table.Valid() &&
      WellFormed(table.table[..], table.hash, table.numRows, table.numColumns) &&
      count == Occupied(table.table[..]) && rng.state != 0
    }

    /** The key/value pairs the cache holds. */
    ghost function Contents(): map<K, V>
      reads this, table.table
    {
      View(table.table[..])
    }

    /**
     * An empty cache of `rows` by `columns`; the generator is seeded with the first
     * non-zero draw of the seed source.
     */
    constructor (rows: int, columns: int, hash: K -> int32, seedDraws: seq<bv32>)
      requires 0 < rows && 0 < columns && rows * columns <= IntMax
      requires exists i :: 0 <= i < |seedDraws| && seedDraws[i] != 0
      ensures Valid() && fresh(table) && fresh(table.table) && fresh(rng)
      ensures table.numRows == rows && table.numColumns == columns && table.hash == hash
      ensures Contents() == map[] && count == 0 && rng.state != 0
    {
      table := new CacheTableInternal(rows, columns, hash);
      rng := new XorShiftRandom.FromSeedSource(seedDraws);
      count := 0;
      new;
      EmptyHoldsNothing(table.table[..]);
    }

    /** The number of stored pairs; never more than the number of slots. */
    function Count(): (n: int)
      requires Valid()
      reads this, table.table, rng
      ensures n == |Contents()|
      ensures 0 <= n <= table.numRows * table.numColumns
    {
      ViewSize(table.table[..]);
      count
    }

    /** The value stored under `key`, if any. */
    method TryGetValue(key: K) returns (r: Option<V>)
      requires Valid()
      ensures r == if key in Contents() then Some(Contents()[key]) else None
    {
      var row := table.FindRow(key);
      LookupIsView(table.table[..], table.hash, table.numRows, table.numColumns, key,
                   row * table.numColumns, row * table.numColumns + table.numColumns);
      r := table.TryGetValue(key, row);
    }

    /** The indexer getter: the stored value, or KeyNotFound exactly when TryGetValue fails. */
    method Get(key: K) returns (r: Lookup<V>)
      requires Valid()
      ensures r.KeyNotFound? <==> key !in Contents()
      ensures r.Found? ==> r.value == Contents()[key]
    {
      var found := TryGetValue(key);
      if found.None? {
        return KeyNotFound;
      }
      return Found(found.value);
    }

    /** Whether the cache holds `key`. */
    method ContainsKey(key: K) returns (b: bool)
      requires Valid()
      ensures b <==> key in Contents()
    {
      var row := table.FindRow(key);
      LookupIsView(table.table[..], table.hash, table.numRows, table.numColumns, key,
                   row * table.numColumns, row * table.numColumns + table.numColumns);
      var loc := table.FindEntry(key, row);
      b := loc >= 0;
    }

    /** The row of `key` has an empty slot. */
    ghost predicate RowHasRoom(key: K)
      requires table.Valid()
      reads table.table
    {
      var (lo, hi) := table.GetRowRange(table.FindRow(key));
      HasRoom(table.table[..], lo, hi)
    }

    /**
     * The indexer setter. The key then maps to `value`. When the key was already stored
     * or its row had an empty slot, nothing else changes, and `count` goes up exactly
     * when the key was new. Otherwise one other key of the key's row is evicted and
     * `count` stays. The row has an empty slot exactly when fewer than `numColumns`
     * stored keys hash to it.
     */
    method SetItem(key: K, value: V)
      requires Valid()
      modifies this, table.table, rng
      ensures Valid()
      ensures old(RowHasRoom(key)) <==> |RowKeys(old(Contents()), table.hash, table.numRows, key)| < table.numColumns
      ensures key in old(Contents()) || old(RowHasRoom(key)) ==> Contents() == old(Contents())[key := value]
      ensures count == old(count) + 1 <==> key !in old(Contents()) && old(RowHasRoom(key))
      ensures count == old(count) || count == old(count) + 1
      ensures old(count) == table.numRows * table.numColumns ==> count == old(count)
      ensures key !in old(Contents()) && !old(RowHasRoom(key)) ==>
                EvictedFromRow(old(Contents()), Contents(), table.hash, table.numRows, key, value)
    {
      ghost var s := table.table[..];
      var row := table.FindRow(key);
      ghost var lo, hi := row * table.numColumns, row * table.numColumns + table.numColumns;
      assert table.GetRowRange(row) == (lo, hi);
      ghost var r := NextValue(rng.state, table.numColumns);
      ghost var res := SetIn(s, lo, hi, key, value, r);
      assert RowHasRoom(key) == HasRoom(s, lo, hi);
      SetCounted(s, table.hash, table.numRows, table.numColumns, key, value, r, lo, hi);
      var inserted := table.Set(key, value, row, rng);
      assert table.table[..] == res.0 && inserted == res.1;
      if inserted {
        count := count + 1;
      }
    }

    /** Removes `key`; reports whether it was stored, and `count` drops exactly then. */
    method Remove(key: K) returns (removed: bool)
      requires Valid()
      modifies this, table.table
      ensures Valid()
      ensures removed <==> key in old(Contents())
      ensures Contents() == old(Contents()) - {key}
      ensures count == old(count) - (if removed then 1 else 0)
    {
      ghost var s := table.table[..];
      var row := table.FindRow(key);
      ghost var lo, hi := row * table.numColumns, row * table.numColumns + table.numColumns;
      assert table.GetRowRange(row) == (lo, hi);
      ghost var res := RemoveIn(s, lo, hi, key);
      assert (res.1 <==> key in View(s)) && View(res.0) == View(s) - {key} by {
        RemoveInView(s, table.hash, table.numRows, table.numColumns, key, lo, hi);
      }
      assert WellFormed(res.0, table.hash, table.numRows, table.numColumns) by {
        RemoveInWellFormed(s, table.hash, table.numRows, table.numColumns, lo, hi, key);
      }
      assert Occupied(res.0) == Occupied(s) - (if res.1 then 1 else 0) by {
        RemoveInCount(s, lo, hi, key);
      }
      removed := table.Remove(key, row);
      if removed {
        count := count - 1;
      }
    }

    /** Empties the cache. */
    method Clear()
      requires Valid()
      modifies this, table.table
      ensures Valid() && Contents() == map[] && count == 0
    {
      table.Clear();
      count := 0;
      EmptyHoldsNothing(table.table[..]);
    }

    /** The stored pairs in slot order: each key of the cache once, with its value. */
    method GetEnumerator() returns (es: seq<Entry<K, V>>)
      requires Valid()
      ensures es == OccupiedEntries(table.table[..])
      ensures |es| == count
      ensures forall e :: e in es <==> e.key in Contents() && Contents()[e.key] == e.value
    {
      es := table.GetEnumerator();
      EntriesAreView(table.table[..]);
    }
  }
}
