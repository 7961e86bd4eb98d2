/**
 * The bookkeeping of the lock-striped cache (CacheTable/ConcurrentCacheTable.cs), run one
 * operation at a time: the row engine, one occupancy counter per row, and one generator
 * per stripe of rows (`row % concurrency`). Acquiring and releasing locks does nothing
 * here; the stripe a row's lock would come from is still computed and proved in range.
 */
module Concurrent {
  import opened Arith
  import opened Prng
  import opened Layout
  import opened Engine
  import opened Stripes

  /**
   * Everything the indexer setter needs about one Set on the key's row (`row`, slots
   * `lo .. hi`): the slots stay well formed, the row counters keep matching, and the view
   * changes as in the single-threaded cache.
   */
  lemma SetStep<K, V>(s: seq<Slot<K, V>>, hash: K -> int32, numRows: int, numColumns: int, cs: seq<int>,
                      key: K, value: V, r: int, row: int, lo: int, hi: int)
    requires WellFormed(s, hash, numRows, numColumns) && IsKeyRow(hash, numRows, numColumns, key, lo, hi)
    requires row == RowOf(hash(key), numRows) && 0 <= r < numColumns
    requires CountsMatch(s, numRows, numColumns, cs)
    ensures 0 <= row < numRows && 0 <= lo <= hi <= |s|
    ensures var s', inserted := SetIn(s, lo, hi, key, value, r).0, SetIn(s, lo, hi, key, value, r).1;
      WellFormed(s', hash, numRows, numColumns) &&
      CountsMatch(s', numRows, numColumns, if inserted then cs[row := cs[row] + 1] else cs) &&
      (HasRoom(s, lo, hi) <==> |RowKeys(View(s), hash, numRows, key)| < numColumns) &&
      (inserted <==> key !in View(s) && HasRoom(s, lo, hi)) &&
      (key in View(s) || inserted ==> View(s') == View(s)[key := value]) &&
      (key !in View(s) && !inserted ==>
         s[lo + r].Some? && s[lo + r].value.key in View(s) && s[lo + r].value.key != key &&
         RowOf(hash(s[lo + r].value.key), numRows) == RowOf(hash(key), numRows) &&
         View(s') == (View(s) - {s[lo + r].value.key})[key := value])
  {
    SetInWellFormed(s, hash, numRows, numColumns, key, value, r, lo, hi);
    SetInView(s, hash, numRows, numColumns, key, value, r, lo, hi);
    RoomIsRowKeys(s, hash, numRows, numColumns, key, lo, hi);
    if s[lo + r].Some? {
      EvictedFromKeyRow(s, hash, numRows, numColumns, key, r, lo, hi);
    }
    SetInCounts(s, numRows, numColumns, cs, row, lo, hi, key, value, r);
  }

  /**
   * Everything Remove needs about one removal from the key's row: the slots stay well
   * formed, the row counters keep matching, and exactly the key leaves the view.
   */
  lemma RemoveStep<K, V>(s: seq<Slot<K, V>>, hash: K -> int32, numRows: int, numColumns: int, cs: seq<int>,
                         key: K, row: int, lo: int, hi: int)
    requires WellFormed(s, hash, numRows, numColumns) && IsKeyRow(hash, numRows, numColumns, key, lo, hi)
    requires row == RowOf(hash(key), numRows)
    requires CountsMatch(s, numRows, numColumns, cs)
    ensures 0 <= row < numRows && 0 <= lo <= hi <= |s|
    ensures var s', removed := RemoveIn(s, lo, hi, key).0, RemoveIn(s, lo, hi, key).1;
      WellFormed(s', hash, numRows, numColumns) &&
      CountsMatch(s', numRows, numColumns, if removed then cs[row := cs[row] - 1] else cs) &&
      (removed <==> key in View(s)) && View(s') == View(s) - {key}
  {
    RemoveInView(s, hash, numRows, numColumns, key, lo, hi);
    RemoveInWellFormed(s, hash, numRows, numColumns, lo, hi, key);
    RemoveInCounts(s, numRows, numColumns, cs, row, lo, hi, key);
  }

  /** One new generator per seed, each starting from its seed, no two the same object. */
  method NewGenerators(seeds: seq<bv32>) returns (gens: seq<XorShiftRandom>)
    ensures |gens| == |seeds|
    ensures forall i :: 0 <= i < |seeds| ==> fresh(gens[i]) && gens[i].state == seeds[i]
    ensures forall i, j :: 0 <= i < j < |seeds| ==> gens[i] != gens[j]
  {
    gens := [];
    for i := 0 to |seeds|
      invariant |gens| == i
      invariant forall j :: 0 <= j < i ==> fresh(gens[j]) && gens[j].state == seeds[j]
      invariant forall j, k :: 0 <= j < k < i ==> gens[j] != gens[k]
    {
      var g := new XorShiftRandom(seeds[i]);
      gens := gens + [g];
    }
  }

  class ConcurrentCacheTable<K(==), V> {
    const table: CacheTableInternal<K, V>
    /** The number of lock stripes (`lockObjects.Length`). */
    const concurrency: int
    /** One generator per stripe. */
    const rngs: seq<XorShiftRandom>
    /** `counts[row]` is the number of occupied slots of `row`. */
    const counts: array<int>

    /**
     * The slots keep every key in its own row and at most once, there is one generator
     * per stripe, and each row's counter is the row's occupancy.
     */
    ghost predicate Valid()
      reads table.table, counts
    {
      table.Valid() &&
      WellFormed(table.table[..], table.hash, table.numRows, table.numColumns) &&
      0 < concurrency && |rngs| == concurrency &&
      CountsMatch(table.table[..], table.numRows, table.numColumns, counts[..])
    }

    /** The key/value pairs the cache holds. */
    ghost function Contents(): map<K, V>
      reads table.table
    {
      View(table.table[..])
    }

    /** An empty cache; stripe `i`'s generator starts from `seeds[i]`. */
    constructor (rows: int, columns: int, concurrency: int, hash: K -> int32, seeds: seq<bv32>)
      requires 0 < rows && 0 < columns && rows * columns <= IntMax
      requires 0 < concurrency && |seeds| == concurrency
      ensures Valid() && fresh(table) && fresh(table.table) && fresh(counts)
      ensures table.numRows == rows && table.numColumns == columns && table.hash == hash
      ensures this.concurrency == concurrency
      ensures forall i :: 0 <= i < concurrency ==> fresh(rngs[i]) && rngs[i].state == seeds[i]
      ensures forall i, j :: 0 <= i < j < concurrency ==> rngs[i] != rngs[j]
      ensures Contents() == map[]
      ensures forall row :: 0 <= row < rows ==> counts[row] == 0
    {
      var gens := NewGenerators(seeds);
      table := new CacheTableInternal(rows, columns, hash);
      counts := new int[rows](_ => 0);
      this.concurrency := concurrency;
      rngs := gens;
      new;
      EmptyHoldsNothing(table.table[..]);
      EmptyCounts(table.table[..], rows, columns, counts[..]);
    }

    /** The stripe, and so the lock, that guards `row`: always a valid index. */
    function GetLockObjectForRow(row: int): (stripe: int)
      requires 0 <= row && 0 < concurrency
      ensures 0 <= stripe < concurrency
      ensures row < concurrency ==> stripe == row
    {
      if row < concurrency then
        DivModUnique(row, 0, row, concurrency);
        row % concurrency
      else
        row % concurrency
    }

    /** The generator of the stripe that guards `row`. */
    function GetRng(row: int): (g: XorShiftRandom)
      requires 0 <= row && 0 < concurrency && |rngs| == concurrency
      ensures g in rngs
    {
      rngs[GetLockObjectForRow(row)]
    }

    /** The number of stored pairs: the sum of the row counters. */
    method Count() returns (n: int)
      requires Valid()
      ensures n == Sum(counts[..])
      ensures n == |Contents()| && n <= table.numRows * table.numColumns
    {
      n := 0;
      for i := 0 to counts.Length
        invariant n == Sum(counts[..i])
      {
        assert counts[..i + 1][..i] == counts[..i];
        n := n + counts[i];
      }
      assert counts[..counts.Length] == counts[..];
      ghost var s := table.table[..];
      SumOfCounts(s, table.numRows, table.numColumns, counts[..], table.numRows);
      assert s[..table.numRows * table.numColumns] == s;
      ViewSize(s);
    }

    /** The value stored under `key`, if any. */
    method TryGetValue(key: K) returns (r: Option<V>)
      requires Valid()
      ensures r == if key in Contents() then Some(Contents()[key]) else None
    {
      var row := table.FindRow(key);
      var _ := GetLockObjectForRow(row);
      LookupIsView(table.table[..], table.hash, table.numRows, table.numColumns, key,
                   row * table.numColumns, row * table.numColumns + table.numColumns);
      r := table.TryGetValue(key, row);
    }

    /** The indexer getter: the stored value, or KeyNotFound exactly when TryGetValue fails. */
    method Get(key: K) returns (r: Lookup<V>)
      requires Valid()
      ensures r.KeyNotFound? <==> key !in Contents()
      ensures r.Found? ==> r.value == Contents()[key]
    {
      var found := TryGetValue(key);
      if found.None? {
        return KeyNotFound;
      }
      return Found(found.value);
    }

    /** Whether the cache holds `key`. */
    method ContainsKey(key: K) returns (b: bool)
      requires Valid()
      ensures b <==> key in Contents()
    {
      var row := table.FindRow(key);
      var _ := GetLockObjectForRow(row);
      LookupIsView(table.table[..], table.hash, table.numRows, table.numColumns, key,
                   row * table.numColumns, row * table.numColumns + table.numColumns);
      var loc := table.FindEntry(key, row);
      b := loc >= 0;
    }

    /** The row of `key` has an empty slot. */
    ghost predicate RowHasRoom(key: K)
      requires table.Valid()
      reads table.table
    {
      var (lo, hi) := table.GetRowRange(table.FindRow(key));
      HasRoom(table.table[..], lo, hi)
    }

    /**
     * The engine's Set on the key's row with the stripe's generator: the slots stay well
     * formed, the view changes as in the single-threaded cache, and the counters (not yet
     * updated) match the new slots after adding one to the row's counter exactly when the
     * pair went into an empty slot.
     */
    method StoreInRow(key: K, value: V, row: int, ghost cs: seq<int>) returns (inserted: bool)
      requires Valid() && row == table.FindRow(key) && cs == counts[..]
      modifies table.table, GetRng(row)
      ensures counts[..] == cs
      ensures table.Valid() && WellFormed(table.table[..], table.hash, table.numRows, table.numColumns)
      ensures old(RowHasRoom(key)) <==> |RowKeys(old(Contents()), table.hash, table.numRows, key)| < table.numColumns
      ensures inserted <==> key !in old(Contents()) && old(RowHasRoom(key))
      ensures CountsMatch(table.table[..], table.numRows, table.numColumns,
                          if inserted then cs[row := cs[row] + 1] else cs)
      ensures key in old(Contents()) || inserted ==> Contents() == old(Contents())[key := value]
      ensures key !in old(Contents()) && !inserted ==>
                EvictedFromRow(old(Contents()), Contents(), table.hash, table.numRows, key, value)
    {
      ghost var s := table.table[..];
      ghost var lo, hi := row * table.numColumns, row * table.numColumns + table.numColumns;
      assert table.GetRowRange(row) == (lo, hi);
      var rng := GetRng(row);
      ghost var r := NextValue(rng.state, table.numColumns);
      ghost var res := SetIn(s, lo, hi, key, value, r);
      assert RowHasRoom(key) == HasRoom(s, lo, hi);
      inserted := table.Set(key, value, row, rng);
      assert table.table[..] == res.0 && inserted == res.1;
      SetStep(s, table.hash, table.numRows, table.numColumns, cs, key, value, r, row, lo, hi);
    }

    /**
     * The indexer setter. The key then maps to `value`, as in the single-threaded cache;
     * only the key's row counter changes, by one exactly when the key was new and its
     * row had room (fewer than `numColumns` stored keys hash to it); only the generator
     * of the key's stripe can advance.
     */
    method SetItem(key: K, value: V)
      requires Valid()
      modifies table.table, counts, GetRng(table.FindRow(key))
      ensures Valid()
      ensures old(RowHasRoom(key)) <==> |RowKeys(old(Contents()), table.hash, table.numRows, key)| < table.numColumns
      ensures key in old(Contents()) || old(RowHasRoom(key)) ==> Contents() == old(Contents())[key := value]
      ensures key !in old(Contents()) && !old(RowHasRoom(key)) ==>
                EvictedFromRow(old(Contents()), Contents(), table.hash, table.numRows, key, value)
      ensures counts[table.FindRow(key)] ==
                old(counts[table.FindRow(key)]) + if key !in old(Contents()) && old(RowHasRoom(key)) then 1 else 0
      ensures forall row :: 0 <= row < counts.Length && row != table.FindRow(key) ==> counts[row] == old(counts[row])
    {
      var row := table.FindRow(key);
      var _ := GetLockObjectForRow(row);
      ghost var cs := counts[..];
      var inserted := StoreInRow(key, value, row, cs);
      ghost var after := table.table[..];
      if inserted {
        counts[row] := counts[row] + 1;
        assert counts[..] == cs[row := cs[row] + 1];
      }
      assert table.table[..] == after;
    }

    /**
     * The engine's Remove on the key's row: the slots stay well formed, exactly the key
     * leaves the view, and the counters (not yet updated) match the new slots after
     * taking one from the row's counter exactly when a pair was removed.
     */
    method RemoveFromRow(key: K, row: int, ghost cs: seq<int>) returns (removed: bool)
      requires Valid() && row == table.FindRow(key) && cs == counts[..]
      modifies table.table
      ensures table.Valid() && WellFormed(table.table[..], table.hash, table.numRows, table.numColumns)
      ensures removed <==> key in old(Contents())
      ensures Contents() == old(Contents()) - {key}
      ensures CountsMatch(table.table[..], table.numRows, table.numColumns,
                          if removed then cs[row := cs[row] - 1] else cs)
    {
      ghost var s := table.table[..];
      ghost var lo, hi := row * table.numColumns, row * table.numColumns + table.numColumns;
      assert table.GetRowRange(row) == (lo, hi);
      ghost var res := RemoveIn(s, lo, hi, key);
      removed := table.Remove(key, row);
      assert table.table[..] == res.0 && removed == res.1;
      RemoveStep(s, table.hash, table.numRows, table.numColumns, cs, key, row, lo, hi);
    }

    /**
     * Removes `key`; reports whether it was stored; only the key's row counter changes,
     * down by one exactly then.
     */
    method Remove(key: K) returns (removed: bool)
      requires Valid()
      modifies table.table, counts
      ensures Valid()
      ensures removed <==> key in old(Contents())
      ensures Contents() == old(Contents()) - {key}
      ensures counts[table.FindRow(key)] == old(counts[table.FindRow(key)]) - if removed then 1 else 0
      ensures forall row :: 0 <= row < counts.Length && row != table.FindRow(key) ==> counts[row] == old(counts[row])
    {
      var row := table.FindRow(key);
      var _ := GetLockObjectForRow(row);
      ghost var cs := counts[..];
      removed := RemoveFromRow(key, row, cs);
      assert counts[..] == cs;
      if removed {
        counts[row] := counts[row] - 1;
        assert counts[..] == cs[row := cs[row] - 1];
      }
    }

    /** Empties every slot and zeroes every row counter. */
    method Clear()
      requires Valid()
      modifies table.table, counts
      ensures Valid() && Contents() == map[]
      ensures forall row :: 0 <= row < counts.Length ==> counts[row] == 0
    {
      table.Clear();
      for i := 0 to counts.Length
        modifies counts
        invariant forall j :: 0 <= j < i ==> counts[j] == 0
      {
        counts[i] := 0;
      }
      EmptyHoldsNothing(table.table[..]);
      EmptyCounts(table.table[..], table.numRows, table.numColumns, counts[..]);
    }

    /**
     * The stored pairs, stripe by stripe and, within a stripe, row by row in ascending
     * order: a permutation of the slot-order enumeration, so each key of the cache once
     * with its value.
     */
    method GetEnumerator() returns (es: seq<Entry<K, V>>)
      requires Valid()
      ensures es == EntriesOfRows(table.table[..], table.numRows, table.numColumns,
                                  StripeOrder(concurrency, concurrency, table.numRows))
      ensures multiset(es) == multiset(OccupiedEntries(table.table[..]))
      ensures forall e :: e in es <==> e.key in Contents() && Contents()[e.key] == e.value
    {
      es := ScanStripes();
      ghost var s := table.table[..];
      StripedEntriesArePermutation(s, table.numRows, table.numColumns, concurrency);
      EntriesAreView(s);
      forall e
        ensures e in es <==> e in OccupiedEntries(s)
      {
        assert e in es <==> e in multiset(es);
      }
    }

    /**
     * The loops of GetEnumerator: for each lock in turn, the rows of its stripe in
     * ascending order, and each row's occupied slots in column order.
     */
    method ScanStripes() returns (es: seq<Entry<K, V>>)
      requires table.Valid() && 0 < concurrency
      ensures es == EntriesOfRows(table.table[..], table.numRows, table.numColumns,
                                  StripeOrder(concurrency, concurrency, table.numRows))
    {
      ghost var s := table.table[..];
      ghost var numRows, numColumns := table.numRows, table.numColumns;
      es := [];
      for lockNum := 0 to concurrency
        invariant es == EntriesOfRows(s, numRows, numColumns, StripeOrder(lockNum, concurrency, numRows))
      {
        ghost var target := es + EntriesOfRows(s, numRows, numColumns, StripeRows(lockNum, concurrency, numRows));
        assert target == EntriesOfRows(s, numRows, numColumns, StripeOrder(lockNum + 1, concurrency, numRows)) by {
          EntriesOfRowsAppend(s, numRows, numColumns, StripeOrder(lockNum, concurrency, numRows),
                              StripeRows(lockNum, concurrency, numRows));
        }
        var row := lockNum;
        while row < table.numRows
          invariant 0 <= row
          invariant es + EntriesOfRows(s, numRows, numColumns, StripeRows(row, concurrency, numRows)) == target
          decreases table.numRows - row
        {
          var (rowStart, rowEnd) := table.GetRowRange(row);
          ghost var before := es;
          for i := rowStart to rowEnd
            invariant es == before + OccupiedEntries(s[rowStart..i])
          {
            OccupiedEntriesStep(s, rowStart, i, before);
            var slot := table.table[i];
            if slot.Some? {
              es := es + [slot.value];
            }
          }
          ghost var prev := row;
          row := row + concurrency;
          StripeRowsStep(s, numRows, numColumns, concurrency, prev, row, rowStart, rowEnd, before, es, target);
        }
      }
    }
  }
}
