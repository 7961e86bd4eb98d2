/**
 * The row engine both caches share (CacheTable/CacheTableInternal.cs): a flat array of
 * `numRows * numColumns` slots, row `r` being slots `[r * numColumns, r * numColumns + numColumns)`.
 * Every method is proved against the sequence specification in module Layout.
 */
module Engine {
  import opened Arith
  import opened Prng
  import opened Layout

  class CacheTableInternal<K(==), V> {
    const table: array<Slot<K, V>>
    const numRows: int
    const numColumns: int
    /** The keys' hash codes (`GetHashCode` in the source). */
    const hash: K -> int32

    /** The dimensions are positive and the array has one slot per row and column. */
    predicate Valid()
    {
      0 < numRows && 0 < numColumns && table.Length == numRows * numColumns
    }

    /** An engine with every slot empty. */
    constructor (numRows: int, numColumns: int, hash: K -> int32)
      requires 0 < numRows && 0 < numColumns && numRows * numColumns <= IntMax
      ensures Valid() && fresh(table)
      ensures this.numRows == numRows && this.numColumns == numColumns && this.hash == hash
      ensures forall i :: 0 <= i < table.Length ==> table[i].None?
    {
      this.numRows := numRows;
      this.numColumns := numColumns;
      this.hash := hash;
      this.table := new Slot<K, V>[numRows * numColumns](_ => None);
    }

    /** Empties every slot and keeps the array. */
    method Clear()
      modifies table
      ensures table[..] == Empty(table.Length)
    {
      for i := 0 to table.Length
        invariant forall j :: 0 <= j < i ==> table[j].None?
      {
        table[i] := None;
      }
    }

    /** The row of `key`: a valid row for every hash code. */
    function FindRow(key: K): (row: int)
      requires Valid()
      ensures 0 <= row < numRows
      ensures hash(key) >= 0 ==> row == hash(key) as int % numRows
    {
      RowOf(hash(key), numRows)
    }

    /**
     * The slot range of `row`, `numColumns` long; for a valid row it lies inside the
     * table and holds exactly the slots whose index divided by `numColumns` is `row`.
     */
    function GetRowRange(row: int): (r: (int, int))
      ensures r.1 - r.0 == numColumns
      ensures Valid() && 0 <= row < numRows ==>
                0 <= r.0 && r.1 <= table.Length &&
                forall i {:trigger SlotRow(i, numColumns)} :: 0 <= i ==> (r.0 <= i < r.1 <==> SlotRow(i, numColumns) == row)
    {
      if Valid() && 0 <= row < numRows then
        RowFits(row, numRows, numColumns);
        RowRangeIsRow(row, numColumns);
        (row * numColumns, row * numColumns + numColumns)
      else
        (row * numColumns, row * numColumns + numColumns)
    }

    /** The first slot of `row` holding `key`, or -1. */
    method FindEntry(key: K, row: int) returns (loc: int)
      requires Valid() && 0 <= row < numRows
      ensures var (lo, hi) := GetRowRange(row); loc == FindIn(table[..], lo, hi, key)
    {
      var (rowStart, rowEnd) := GetRowRange(row);
      for i := rowStart to rowEnd
        invariant forall j :: rowStart <= j < i ==> !Holds(table[j], key)
      {
        if table[i].Some? && table[i].value.key == key {
          return i;
        }
      }
      return -1;
    }

    /** The value stored under `key` in `row`, or None (`false` and `default` in the source). */
    method TryGetValue(key: K, row: int) returns (r: Option<V>)
      requires Valid() && 0 <= row < numRows
      ensures var (lo, hi) := GetRowRange(row); r == LookupIn(table[..], lo, hi, key)
    {
      var loc := FindEntry(key, row);
      if loc >= 0 {
        return Some(table[loc].value.value);
      }
      return None;
    }

    /** Empties the slot of `row` holding `key`, and reports whether there was one. */
    method Remove(key: K, row: int) returns (removed: bool)
      requires Valid() && 0 <= row < numRows
      modifies table
      ensures var (lo, hi) := GetRowRange(row); (table[..], removed) == RemoveIn(old(table[..]), lo, hi, key)
    {
      var loc := FindEntry(key, row);
      if loc < 0 {
        return false;
      }
      table[loc] := None;
      return true;
    }

    /** The occupied slots' pairs, in slot order. */
    method GetEnumerator() returns (es: seq<Entry<K, V>>)
      ensures es == OccupiedEntries(table[..])
    {
      es := [];
      for i := 0 to table.Length
        invariant es == OccupiedEntries(table[..i])
      {
        assert table[..i + 1][..i] == table[..i];
        if table[i].Some? {
          es := es + [table[i].value];
        }
      }
      assert table[..table.Length] == table[..];
    }

    /**
     * Stores `key` -> `value` in `row`: over the slot already holding the key, else in the
     * first empty slot (the only case that returns true), else over column `rng.Next(numColumns)`.
     * The generator advances only in that last case.
     */
    method Set(key: K, value: V, row: int, rng: XorShiftRandom) returns (inserted: bool)
      requires Valid() && 0 <= row < numRows
      modifies table, rng
      ensures var (lo, hi) := GetRowRange(row);
        (table[..], inserted) == SetIn(old(table[..]), lo, hi, key, value, NextValue(old(rng.state), numColumns)) &&
        rng.state == if Evicts(old(table[..]), lo, hi, key) then XorShift32(old(rng.state)) else old(rng.state)
    {
      ghost var s := table[..];
      var (rowStart, rowEnd) := GetRowRange(row);
      var kvp := Entry(key, value);
      var empty := -1;
      for i := rowStart to rowEnd
        invariant table[..] == s
        invariant forall j :: rowStart <= j < i ==> !Holds(s[j], key)
        invariant empty == -1 <==> forall j :: rowStart <= j < i ==> s[j].Some?
        invariant empty != -1 ==> rowStart <= empty < i && s[empty].None? && forall j :: rowStart <= j < empty ==> s[j].Some?
      {
        if table[i].Some? {
          if table[i].value.key == key {
            table[i] := Some(kvp);
            return false;
          }
        } else if empty < 0 {
          empty := i;
        }
      }

      if empty >= 0 {
        table[empty] := Some(kvp);
        return true;
      }

      var c := rng.Next(numColumns);
      table[rowStart + c] := Some(kvp);
      return false;
    }
  }
}
