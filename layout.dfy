/**
 * The slot array shared by both caches (CacheTable/CacheTableInternal.cs), as a pure
 * specification over sequences of slots: row addressing, the row scans, what Set and
 * Remove do to a row, and the map of key/value pairs that a slot sequence stands for.
 */
module Layout {
  import opened Arith

  datatype Option<T> = None | Some(value: T)

  /** The indexer getter's outcome: the value, or a `KeyNotFoundException`. */
  datatype Lookup<V> = Found(value: V) | KeyNotFound

  /** A key/value pair stored in a slot. */
  datatype Entry<K, V> = Entry(key: K, value: V)

  /** A slot is empty (`null` in the source) or holds one pair. */
  type Slot<K, V> = Option<Entry<K, V>>

  predicate Holds<K(==), V>(slot: Slot<K, V>, key: K)
  {
    slot.Some? && slot.value.key == key
  }

  // ---------------------------------------------------------------------------
  // Row addressing

  /** The row of a key whose hash code is `h`: sign bit cleared, then C#'s `%`. */
  function RowOf(h: int32, numRows: int): (row: int)
    requires numRows > 0
    ensures 0 <= row < numRows
  {
    CRem(MaskSign(h), numRows)
  }

  /** Slot `i` lies in row `row` of a table with `numColumns` columns. */
  predicate InRow(i: int, row: int, numColumns: int)
  {
    row * numColumns <= i < row * numColumns + numColumns
  }

  /** A row of the table lies inside the table, and rows come in order. */
  lemma RowFits(row: int, numRows: int, numColumns: int)
    requires 0 <= row < numRows && 0 < numColumns
    ensures 0 <= row * numColumns
    ensures row * numColumns + numColumns <= numRows * numColumns
  {
    assert (numRows - row - 1) * numColumns >= 0;
    assert (numRows - row - 1) * numColumns == numRows * numColumns - row * numColumns - numColumns;
  }

  /** Distinct rows occupy disjoint slot ranges. */
  lemma RowsDisjoint(row1: int, row2: int, numColumns: int)
    requires 0 <= row1 < row2 && 0 < numColumns
    ensures row1 * numColumns + numColumns <= row2 * numColumns
  {
    assert (row2 - row1 - 1) * numColumns >= 0;
    assert (row2 - row1 - 1) * numColumns == row2 * numColumns - row1 * numColumns - numColumns;
  }

  /** A slot index lies in exactly one row: the quotient of the index by the row width. */
  lemma InRowIsQuotient(i: int, row: int, numColumns: int)
    requires 0 <= i && 0 <= row && 0 < numColumns
    ensures InRow(i, row, numColumns) <==> i / numColumns == row
  {
    var q := i / numColumns;
    assert q * numColumns <= i < q * numColumns + numColumns;
    if row < q {
      RowsDisjoint(row, q, numColumns);
    } else if q < row {
      RowsDisjoint(q, row, numColumns);
    }
  }

  /** The row slot `i` belongs to in a table with `numColumns` columns. */
  function SlotRow(i: int, numColumns: int): int
    requires numColumns > 0
  {
    i / numColumns
  }

  /** The range `[row * numColumns, row * numColumns + numColumns)` is exactly the slots of `row`. */
  lemma RowRangeIsRow(row: int, numColumns: int)
    requires 0 <= row && 0 < numColumns
    ensures forall i {:trigger SlotRow(i, numColumns)} :: 0 <= i ==>
              (row * numColumns <= i < row * numColumns + numColumns <==> SlotRow(i, numColumns) == row)
  {
    forall i | 0 <= i
      ensures row * numColumns <= i < row * numColumns + numColumns <==> SlotRow(i, numColumns) == row
    {
      InRowIsQuotient(i, row, numColumns);
    }
  }

  // ---------------------------------------------------------------------------
  // Row scans

  /** The first slot in `[lo, hi)` holding `key`, or -1 when none does. */
  function FindIn<K(==), V>(s: seq<Slot<K, V>>, lo: int, hi: int, key: K): (i: int)
    requires 0 <= lo <= hi <= |s|
    ensures i == -1 || lo <= i < hi
    ensures i == -1 <==> forall j :: lo <= j < hi ==> !Holds(s[j], key)
    ensures i != -1 ==> Holds(s[i], key) && forall j :: lo <= j < i ==> !Holds(s[j], key)
    decreases hi - lo
  {
    if lo == hi then -1
    else if Holds(s[lo], key) then lo
    else FindIn(s, lo + 1, hi, key)
  }

  /** Some slot of `[lo, hi)` is empty. */
  predicate HasRoom<K, V>(s: seq<Slot<K, V>>, lo: int, hi: int)
    requires 0 <= lo <= hi <= |s|
  {
    exists j :: lo <= j < hi && s[j].None?
  }

  /** The first empty slot in `[lo, hi)`, or -1 when the range is full. */
  function FirstEmpty<K, V>(s: seq<Slot<K, V>>, lo: int, hi: int): (i: int)
    requires 0 <= lo <= hi <= |s|
    ensures i == -1 || lo <= i < hi
    ensures i == -1 <==> forall j :: lo <= j < hi ==> s[j].Some?
    ensures i != -1 ==> s[i].None? && forall j :: lo <= j < i ==> s[j].Some?
    decreases hi - lo
  {
    if lo == hi then -1
    else if s[lo].None? then lo
    else FirstEmpty(s, lo + 1, hi)
  }

  /** The value stored under `key` in `[lo, hi)`, if any. */
  function LookupIn<K(==), V>(s: seq<Slot<K, V>>, lo: int, hi: int, key: K): (r: Option<V>)
    requires 0 <= lo <= hi <= |s|
    ensures r.Some? <==> exists j :: lo <= j < hi && Holds(s[j], key)
    ensures r.Some? ==> exists j :: lo <= j < hi && s[j] == Some(Entry(key, r.value))
  {
    var i := FindIn(s, lo, hi, key);
    if i == -1 then None else Some(s[i].value.value)
  }

  // ---------------------------------------------------------------------------
  // Set and Remove on one row

  /**
   * The slot Set writes in row `[lo, hi)`: the slot already holding `key`; failing
   * that, the first empty slot; failing that (the row is full of other keys), column `r`.
   */
  function SetTarget<K(==), V>(s: seq<Slot<K, V>>, lo: int, hi: int, key: K, r: int): (t: int)
    requires 0 <= lo <= hi <= |s| && 0 <= r < hi - lo
    ensures lo <= t < hi
    ensures (exists j :: lo <= j < hi && Holds(s[j], key)) ==> Holds(s[t], key)
    ensures (forall j :: lo <= j < hi ==> !Holds(s[j], key)) && HasRoom(s, lo, hi) ==>
              s[t].None? && forall j :: lo <= j < t ==> s[j].Some?
    ensures (forall j :: lo <= j < hi ==> !Holds(s[j], key) && s[j].Some?) ==> t == lo + r
  {
    var f := FindIn(s, lo, hi, key);
    if f != -1 then f
    else
      var e := FirstEmpty(s, lo, hi);
      if e != -1 then e else lo + r
  }

  /**
   * Set in row `[lo, hi)` with eviction column `r`: the new slots, and whether the pair
   * went into a slot that was empty.
   */
  function SetIn<K(==), V>(s: seq<Slot<K, V>>, lo: int, hi: int, key: K, value: V, r: int): (res: (seq<Slot<K, V>>, bool))
    requires 0 <= lo <= hi <= |s| && 0 <= r < hi - lo
    ensures |res.0| == |s|
    ensures forall j :: 0 <= j < |s| && !(lo <= j < hi) ==> res.0[j] == s[j]
    ensures res.0[SetTarget(s, lo, hi, key, r)] == Some(Entry(key, value))
    ensures forall j :: 0 <= j < |s| && j != SetTarget(s, lo, hi, key, r) ==> res.0[j] == s[j]
    ensures res.1 <==> (forall j :: lo <= j < hi ==> !Holds(s[j], key)) && HasRoom(s, lo, hi)
  {
    var t := SetTarget(s, lo, hi, key, r);
    (s[t := Some(Entry(key, value))], FindIn(s, lo, hi, key) == -1 && FirstEmpty(s, lo, hi) != -1)
  }

  /**
   * Remove in row `[lo, hi)`: empties the first slot holding `key`, and reports
   * whether there was one.
   */
  function RemoveIn<K(==), V>(s: seq<Slot<K, V>>, lo: int, hi: int, key: K): (res: (seq<Slot<K, V>>, bool))
    requires 0 <= lo <= hi <= |s|
    ensures |res.0| == |s|
    ensures res.1 <==> exists j :: lo <= j < hi && Holds(s[j], key)
    ensures !res.1 ==> res.0 == s
    ensures res.1 ==> res.0[FindIn(s, lo, hi, key)] == None
    ensures forall j :: 0 <= j < |s| && j != FindIn(s, lo, hi, key) ==> res.0[j] == s[j]
  {
    var i := FindIn(s, lo, hi, key);
    if i == -1 then (s, false) else (s[i := None], true)
  }

  /** Set evicts exactly when the row holds neither the key nor an empty slot. */
  predicate Evicts<K(==), V>(s: seq<Slot<K, V>>, lo: int, hi: int, key: K)
    requires 0 <= lo <= hi <= |s|
  {
    forall j :: lo <= j < hi ==> s[j].Some? && s[j].value.key != key
  }

  // ---------------------------------------------------------------------------
  // Table invariants

  /** Every stored key sits in the row its hash code selects. */
  ghost predicate Placed<K, V>(s: seq<Slot<K, V>>, hash: K -> int32, numRows: int, numColumns: int)
    requires numRows > 0
  {
    forall i :: 0 <= i < |s| && s[i].Some? ==> InRow(i, RowOf(hash(s[i].value.key), numRows), numColumns)
  }

  /** No key is stored in two slots. */
  ghost predicate Unique<K, V>(s: seq<Slot<K, V>>)
  {
    forall i, j :: 0 <= i < |s| && 0 <= j < |s| && s[i].Some? && s[j].Some? && s[i].value.key == s[j].value.key ==> i == j
  }

  /** The invariant of a table with `numRows` rows of `numColumns` slots. */
  ghost predicate WellFormed<K, V>(s: seq<Slot<K, V>>, hash: K -> int32, numRows: int, numColumns: int)
  {
    0 < numRows && 0 < numColumns && |s| == numRows * numColumns &&
    Placed(s, hash, numRows, numColumns) && Unique(s)
  }

  /** All `n` slots empty, as after construction or Clear. */
  function Empty<K, V>(n: nat): (s: seq<Slot<K, V>>)
    ensures |s| == n && forall i :: 0 <= i < n ==> s[i].None?
  {
    seq(n, _ => None)
  }

  // ---------------------------------------------------------------------------
  // Counting and the abstract view

  /** The number of occupied slots. */
  function Occupied<K, V>(s: seq<Slot<K, V>>): (n: nat)
    ensures n <= |s|
  {
    if s == [] then 0 else Occupied(s[..|s| - 1]) + (if s[|s| - 1].Some? then 1 else 0)
  }

  /** The pairs of the occupied slots, in slot order. */
  function OccupiedEntries<K, V>(s: seq<Slot<K, V>>): (es: seq<Entry<K, V>>)
    ensures |es| == Occupied(s)
  {
    if s == [] then []
    else OccupiedEntries(s[..|s| - 1]) + (if s[|s| - 1].Some? then [s[|s| - 1].value] else [])
  }

  /** The map the slots stand for. */
  function View<K, V>(s: seq<Slot<K, V>>): map<K, V>
  {
    if s == [] then map[]
    else
      var m := View(s[..|s| - 1]);
      match s[|s| - 1]
      case None => m
      case Some(e) => m[e.key := e.value]
  }

  /** When every slot counts as occupied, every slot holds a pair. */
  lemma {:induction false} FullIsAllOccupied<K, V>(s: seq<Slot<K, V>>)
    requires Occupied(s) == |s|
    ensures forall i :: 0 <= i < |s| ==> s[i].Some?
  {
    if s != [] {
      var p := s[..|s| - 1];
      assert s[|s| - 1].Some?;
      FullIsAllOccupied(p);
      forall i | 0 <= i < |s| - 1 ensures s[i].Some? {
        assert s[i] == p[i];
      }
    }
  }

  /** A table with every slot occupied has no room in any row. */
  lemma FullHasNoRoom<K, V>(s: seq<Slot<K, V>>, lo: int, hi: int)
    requires 0 <= lo <= hi <= |s| && Occupied(s) == |s|
    ensures !HasRoom(s, lo, hi)
  {
    FullIsAllOccupied(s);
  }

  lemma {:induction false} OccupiedAppend<K, V>(a: seq<Slot<K, V>>, b: seq<Slot<K, V>>)
    ensures Occupied(a + b) == Occupied(a) + Occupied(b)
    decreases |b|
  {
    if b != [] {
      var b' := b[..|b| - 1];
      assert (a + b)[..|a + b| - 1] == a + b';
      OccupiedAppend(a, b');
    } else {
      assert a + b == a;
    }
  }

  lemma {:induction false} OccupiedEntriesAppend<K, V>(a: seq<Slot<K, V>>, b: seq<Slot<K, V>>)
    ensures OccupiedEntries(a + b) == OccupiedEntries(a) + OccupiedEntries(b)
    decreases |b|
  {
    if b != [] {
      var b' := b[..|b| - 1];
      assert (a + b)[..|a + b| - 1] == a + b';
      OccupiedEntriesAppend(a, b');
    } else {
      assert a + b == a;
    }
  }

  /** Writing one slot changes the count by what left and what arrived. */
  lemma OccupiedUpdate<K, V>(s: seq<Slot<K, V>>, i: int, x: Slot<K, V>)
    requires 0 <= i < |s|
    ensures Occupied(s[i := x]) ==
            Occupied(s) - (if s[i].Some? then 1 else 0) + (if x.Some? then 1 else 0)
  {
    var pre, post := s[..i], s[i + 1..];
    assert s == pre + [s[i]] + post;
    assert s[i := x] == pre + [x] + post;
    OccupiedAppend(pre + [s[i]], post);
    OccupiedAppend(pre, [s[i]]);
    OccupiedAppend(pre + [x], post);
    OccupiedAppend(pre, [x]);
    assert [s[i]][..0] == [];
    assert [x][..0] == [];
  }

  /** An all-empty table holds nothing. */
  lemma {:induction false} EmptyHoldsNothing<K, V>(s: seq<Slot<K, V>>)
    requires forall i :: 0 <= i < |s| ==> s[i].None?
    ensures Occupied(s) == 0 && View(s) == map[] && OccupiedEntries(s) == []
  {
    if s != [] {
      EmptyHoldsNothing(s[..|s| - 1]);
    }
  }

  /**
   * With unique keys, the view holds exactly the stored pairs: a key is in the view iff
   * some slot holds it, and the view maps it to that slot's value.
   */
  lemma {:induction false} ViewFacts<K, V>(s: seq<Slot<K, V>>)
    requires Unique(s)
    ensures forall k :: k in View(s) <==> exists i :: 0 <= i < |s| && Holds(s[i], k)
    ensures forall i :: 0 <= i < |s| && s[i].Some? ==> s[i].value.key in View(s) && View(s)[s[i].value.key] == s[i].value.value
  {
    if s != [] {
      var p := s[..|s| - 1];
      assert Unique(p);
      ViewFacts(p);
    }
  }

  /** Every key of the view is held by some slot. */
  lemma {:induction false} ViewHas<K, V>(s: seq<Slot<K, V>>, k: K) returns (i: int)
    requires k in View(s)
    ensures 0 <= i < |s| && Holds(s[i], k)
  {
    var p := s[..|s| - 1];
    if s[|s| - 1].Some? && s[|s| - 1].value.key == k {
      i := |s| - 1;
    } else {
      i := ViewHas(p, k);
      assert s[i] == p[i];
    }
  }

  /** With unique keys, the view has one key per occupied slot. */
  lemma {:induction false} ViewSize<K, V>(s: seq<Slot<K, V>>)
    requires Unique(s)
    ensures |View(s)| == Occupied(s)
  {
    if s != [] {
      var p := s[..|s| - 1];
      assert Unique(p);
      ViewSize(p);
      ViewFacts(p);
      match s[|s| - 1]
      case None =>
      case Some(e) =>
        assert e.key !in View(p);
        assert View(s).Keys == View(p).Keys + {e.key};
    }
  }

  /** With unique keys, enumeration yields exactly the pairs of the view. */
  lemma {:induction false} EntriesAreView<K, V>(s: seq<Slot<K, V>>)
    requires Unique(s)
    ensures forall e :: e in OccupiedEntries(s) <==> e.key in View(s) && View(s)[e.key] == e.value
  {
    ViewFacts(s);
    forall e
      ensures e in OccupiedEntries(s) <==> exists i :: 0 <= i < |s| && s[i] == Some(e)
    {
      EntriesAreSlots(s, e);
    }
  }

  lemma {:induction false} EntriesAreSlots<K, V>(s: seq<Slot<K, V>>, e: Entry<K, V>)
    ensures e in OccupiedEntries(s) <==> exists i :: 0 <= i < |s| && s[i] == Some(e)
  {
    if s != [] {
      var p := s[..|s| - 1];
      EntriesAreSlots(p, e);
      if e in OccupiedEntries(s) && e !in OccupiedEntries(p) {
        assert s[|s| - 1] == Some(e);
      }
      if exists i :: 0 <= i < |s| && s[i] == Some(e) {
        var i :| 0 <= i < |s| && s[i] == Some(e);
        if i < |s| - 1 {
          assert p[i] == Some(e);
        }
      }
    }
  }

  // ---------------------------------------------------------------------------
  // Row lookups on a well-formed table

  /** `[lo, hi)` is the slot range of the row `key` hashes to. */
  predicate IsKeyRow<K>(hash: K -> int32, numRows: int, numColumns: int, key: K, lo: int, hi: int)
  {
    0 < numRows && lo == RowOf(hash(key), numRows) * numColumns && hi == lo + numColumns
  }

  /** A stored key lies in the row of its hash code. */
  lemma KeyInItsRow<K, V>(s: seq<Slot<K, V>>, hash: K -> int32, numRows: int, numColumns: int, key: K, i: int)
    requires WellFormed(s, hash, numRows, numColumns)
    requires 0 <= i < |s| && Holds(s[i], key)
    ensures InRow(i, RowOf(hash(key), numRows), numColumns)
  {
  }

  /** The key's row lies inside a well-formed table. */
  lemma KeyRowFits<K, V>(s: seq<Slot<K, V>>, hash: K -> int32, numRows: int, numColumns: int, key: K, lo: int, hi: int)
    requires WellFormed(s, hash, numRows, numColumns) && IsKeyRow(hash, numRows, numColumns, key, lo, hi)
    ensures 0 <= lo <= hi <= |s|
  {
    RowFits(RowOf(hash(key), numRows), numRows, numColumns);
  }

  /**
   * Scanning the key's own row answers for the whole table: the row lookup finds the
   * value the view maps the key to, and finds nothing when the key is not stored.
   */
  lemma LookupIsView<K, V>(s: seq<Slot<K, V>>, hash: K -> int32, numRows: int, numColumns: int, key: K, lo: int, hi: int)
    requires WellFormed(s, hash, numRows, numColumns) && IsKeyRow(hash, numRows, numColumns, key, lo, hi)
    ensures 0 <= lo <= hi <= |s|
    ensures LookupIn(s, lo, hi, key) == if key in View(s) then Some(View(s)[key]) else None
  {
    KeyRowFits(s, hash, numRows, numColumns, key, lo, hi);
    ViewFacts(s);
    var r := LookupIn(s, lo, hi, key);
    if key in View(s) {
      var i :| 0 <= i < |s| && Holds(s[i], key);
      KeyInItsRow(s, hash, numRows, numColumns, key, i);
      var j :| lo <= j < hi && s[j] == Some(Entry(key, r.value));
      assert i == j;
    }
  }
  /** The keys of `m` that hash to the same row as `key`. */
  ghost function RowKeys<K, V>(m: map<K, V>, hash: K -> int32, numRows: int, key: K): set<K>
    requires 0 < numRows
  {
    set k | k in m && RowOf(hash(k), numRows) == RowOf(hash(key), numRows)
  }

  /** A range whose slots are all occupied counts every slot. */
  lemma {:induction false} AllOccupiedIsFull<K, V>(s: seq<Slot<K, V>>)
    requires forall i :: 0 <= i < |s| ==> s[i].Some?
    ensures Occupied(s) == |s|
  {
    if s != [] {
      var p := s[..|s| - 1];
      forall i | 0 <= i < |p| ensures p[i].Some? {
        assert p[i] == s[i];
      }
      AllOccupiedIsFull(p);
    }
  }

  /** A slice of a table with unique keys has unique keys. */
  lemma SliceUnique<K, V>(s: seq<Slot<K, V>>, lo: int, hi: int)
    requires 0 <= lo <= hi <= |s| && Unique(s)
    ensures Unique(s[lo..hi])
  {
    var t := s[lo..hi];
    forall i, j | 0 <= i < |t| && 0 <= j < |t| && t[i].Some? && t[j].Some? && t[i].value.key == t[j].value.key
      ensures i == j
    {
      assert t[i] == s[lo + i] && t[j] == s[lo + j];
    }
  }

  /** A key held in the key's row hashes to that row. */
  lemma RowSliceKeyInRow<K, V>(s: seq<Slot<K, V>>, hash: K -> int32, numRows: int, numColumns: int,
                               key: K, lo: int, hi: int, k: K)
    requires WellFormed(s, hash, numRows, numColumns) && IsKeyRow(hash, numRows, numColumns, key, lo, hi)
    requires 0 <= lo <= hi <= |s| && k in View(s[lo..hi])
    ensures k in View(s) && RowOf(hash(k), numRows) == RowOf(hash(key), numRows)
  {
    var t := s[lo..hi];
    var row := RowOf(hash(key), numRows);
    var i := ViewHas(t, k);
    assert t[i] == s[lo + i];
    ViewFacts(s);
    KeyInItsRow(s, hash, numRows, numColumns, k, lo + i);
    assert InRow(lo + i, row, numColumns);
    InRowIsQuotient(lo + i, row, numColumns);
    InRowIsQuotient(lo + i, RowOf(hash(k), numRows), numColumns);
  }

  /** A key of the map that hashes to the key's row is held in that row. */
  lemma RowKeyInRowSlice<K, V>(s: seq<Slot<K, V>>, hash: K -> int32, numRows: int, numColumns: int,
                               key: K, lo: int, hi: int, k: K)
    requires WellFormed(s, hash, numRows, numColumns) && IsKeyRow(hash, numRows, numColumns, key, lo, hi)
    requires 0 <= lo <= hi <= |s| && k in View(s) && RowOf(hash(k), numRows) == RowOf(hash(key), numRows)
    ensures k in View(s[lo..hi])
  {
    var t := s[lo..hi];
    var i := ViewHas(s, k);
    KeyInItsRow(s, hash, numRows, numColumns, k, i);
    assert t[i - lo] == s[i];
    SliceUnique(s, lo, hi);
    ViewFacts(t);
  }

  /**
   * On a well-formed table, the keys held in the slots of the key's row are exactly the
   * keys of the map that hash to that row.
   */
  lemma RowSliceKeys<K, V>(s: seq<Slot<K, V>>, hash: K -> int32, numRows: int, numColumns: int, key: K, lo: int, hi: int)
    requires WellFormed(s, hash, numRows, numColumns) && IsKeyRow(hash, numRows, numColumns, key, lo, hi)
    ensures 0 <= lo <= hi <= |s|
    ensures View(s[lo..hi]).Keys == RowKeys(View(s), hash, numRows, key)
  {
    KeyRowFits(s, hash, numRows, numColumns, key, lo, hi);
    forall k | k in View(s[lo..hi]) ensures k in RowKeys(View(s), hash, numRows, key) {
      RowSliceKeyInRow(s, hash, numRows, numColumns, key, lo, hi, k);
    }
    forall k | k in RowKeys(View(s), hash, numRows, key) ensures k in View(s[lo..hi]) {
      RowKeyInRowSlice(s, hash, numRows, numColumns, key, lo, hi, k);
    }
  }

  /** A range with an empty slot counts fewer occupied slots than its length. */
  lemma {:induction false} EmptySlotNotFull<K, V>(s: seq<Slot<K, V>>, j: int)
    requires 0 <= j < |s| && s[j].None?
    ensures Occupied(s) < |s|
  {
    var p := s[..|s| - 1];
    if j < |s| - 1 {
      assert p[j] == s[j];
      EmptySlotNotFull(p, j);
    }
  }

  /**
   * The key's row has an empty slot exactly when fewer than `numColumns` keys of the map
   * hash to that row: the row takes a new key without eviction until it holds
   * `numColumns` of them, and it never holds more.
   */
  lemma RoomIsRowKeys<K, V>(s: seq<Slot<K, V>>, hash: K -> int32, numRows: int, numColumns: int, key: K, lo: int, hi: int)
    requires WellFormed(s, hash, numRows, numColumns) && IsKeyRow(hash, numRows, numColumns, key, lo, hi)
    ensures 0 <= lo <= hi <= |s|
    ensures |RowKeys(View(s), hash, numRows, key)| <= numColumns
    ensures HasRoom(s, lo, hi) <==> |RowKeys(View(s), hash, numRows, key)| < numColumns
  {
    RowSliceKeys(s, hash, numRows, numColumns, key, lo, hi);
    SliceUnique(s, lo, hi);
    ViewSize(s[lo..hi]);
    RoomIsNotFull(s, lo, hi);
    assert |View(s[lo..hi]).Keys| == |View(s[lo..hi])|;
  }

  /** A range has an empty slot exactly when it counts fewer occupied slots than its length. */
  lemma RoomIsNotFull<K, V>(s: seq<Slot<K, V>>, lo: int, hi: int)
    requires 0 <= lo <= hi <= |s|
    ensures HasRoom(s, lo, hi) <==> Occupied(s[lo..hi]) < hi - lo
  {
    var t := s[lo..hi];
    if HasRoom(s, lo, hi) {
      var j :| lo <= j < hi && s[j].None?;
      assert t[j - lo] == s[j];
      EmptySlotNotFull(t, j - lo);
    } else {
      forall i | 0 <= i < |t| ensures t[i].Some? {
        assert t[i] == s[lo + i];
      }
      AllOccupiedIsFull(t);
    }
  }



  /**
   * The pair Set evicts from a full row (the one in column `r`) belongs to the same row
   * as the key being set: only keys of the key's own row can be evicted.
   */
  lemma EvictedFromKeyRow<K, V>(s: seq<Slot<K, V>>, hash: K -> int32, numRows: int, numColumns: int,
                                key: K, r: int, lo: int, hi: int)
    requires WellFormed(s, hash, numRows, numColumns) && IsKeyRow(hash, numRows, numColumns, key, lo, hi)
    requires 0 <= r < numColumns && lo + r < |s| && s[lo + r].Some?
    ensures RowOf(hash(s[lo + r].value.key), numRows) == RowOf(hash(key), numRows)
  {
    var k := s[lo + r].value.key;
    var row, krow := RowOf(hash(key), numRows), RowOf(hash(k), numRows);
    KeyInItsRow(s, hash, numRows, numColumns, k, lo + r);
    assert InRow(lo + r, row, numColumns);
    InRowIsQuotient(lo + r, row, numColumns);
    InRowIsQuotient(lo + r, krow, numColumns);
  }

  /** Set keeps the table well formed when it writes into the key's own row. */
  lemma SetInWellFormed<K, V>(s: seq<Slot<K, V>>, hash: K -> int32, numRows: int, numColumns: int,
                              key: K, value: V, r: int, lo: int, hi: int)
    requires WellFormed(s, hash, numRows, numColumns) && IsKeyRow(hash, numRows, numColumns, key, lo, hi)
    requires 0 <= r < numColumns
    ensures 0 <= lo <= hi <= |s|
    ensures WellFormed(SetIn(s, lo, hi, key, value, r).0, hash, numRows, numColumns)
  {
    KeyRowFits(s, hash, numRows, numColumns, key, lo, hi);
    var s' := SetIn(s, lo, hi, key, value, r).0;
    var t := SetTarget(s, lo, hi, key, r);
    forall i, j | 0 <= i < |s'| && 0 <= j < |s'| && s'[i].Some? && s'[j].Some? && s'[i].value.key == s'[j].value.key
      ensures i == j
    {
      if i != t && j != t {
      } else if (exists m :: lo <= m < hi && Holds(s[m], key)) {
        var m :| lo <= m < hi && Holds(s[m], key);
        assert Holds(s[t], key);
      } else {
        forall m | 0 <= m < |s| && Holds(s[m], key) ensures false {
          KeyInItsRow(s, hash, numRows, numColumns, key, m);
        }
      }
    }
  }

  /** Writing a pair into one slot of a table with unique keys replaces what the slot held. */
  lemma ViewStore<K, V>(s: seq<Slot<K, V>>, t: int, e: Entry<K, V>)
    requires 0 <= t < |s| && Unique(s) && Unique(s[t := Some(e)])
    ensures View(s[t := Some(e)]) ==
            (if s[t].Some? then View(s) - {s[t].value.key} else View(s))[e.key := e.value]
  {
    var s' := s[t := Some(e)];
    var expected := (if s[t].Some? then View(s) - {s[t].value.key} else View(s))[e.key := e.value];
    ViewFacts(s);
    ViewFacts(s');
    forall k | k in View(s') ensures k in expected && View(s')[k] == expected[k] {
      var i := ViewHas(s', k);
      assert View(s')[k] == s'[i].value.value;
      if i == t {
        assert k == e.key;
      } else {
        assert s[i] == s'[i];
        assert k in View(s) && View(s)[k] == s[i].value.value;
        assert s'[i].value.key != s'[t].value.key;
        assert s[t].Some? ==> s[i].value.key != s[t].value.key;
      }
    }
    forall k | k in expected ensures k in View(s') {
      if k != e.key {
        var i := ViewHas(s, k);
        assert i != t;
        assert s'[i] == s[i];
      } else {
        assert Holds(s'[t], k);
      }
    }
  }

  /** Emptying one slot of a table with unique keys removes the key it held. */
  lemma ViewErase<K, V>(s: seq<Slot<K, V>>, t: int)
    requires 0 <= t < |s| && Unique(s) && s[t].Some?
    ensures View(s[t := None]) == View(s) - {s[t].value.key}
  {
    var s' := s[t := None];
    assert Unique(s');
    ViewFacts(s);
    ViewFacts(s');
    forall k | k in View(s') ensures k in View(s) - {s[t].value.key} && View(s')[k] == View(s)[k] {
      var i := ViewHas(s', k);
      assert s[i] == s'[i];
    }
    forall k | k in View(s) - {s[t].value.key} ensures k in View(s') {
      var i := ViewHas(s, k);
      assert s'[i] == s[i];
    }
  }

  /** Writing one slot inside a range is writing the same slot of the range's slice. */
  lemma SliceUpdate<T>(s: seq<T>, lo: int, hi: int, t: int, x: T)
    requires 0 <= lo <= t < hi <= |s|
    ensures s[t := x][lo..hi] == s[lo..hi][t - lo := x]
  {
  }

  /**
   * `after` is `before` with one other key of the key's own row dropped and the key
   * mapped to `value`: what an eviction does to the view.
   */
  ghost predicate EvictedFromRow<K, V>(before: map<K, V>, after: map<K, V>, hash: K -> int32, numRows: int,
                                       key: K, value: V)
  {
    0 < numRows &&
    exists k :: k in before && k != key && RowOf(hash(k), numRows) == RowOf(hash(key), numRows) &&
      after == (before - {k})[key := value]
  }

  /**
   * Set on the key's row, in terms of the view: the key maps to `value`; it went into
   * an empty slot exactly when it was new and the row had room; when it was new and the
   * row was full, the key stored in column `r` is evicted and nothing else changes.
   */
  lemma SetInView<K, V>(s: seq<Slot<K, V>>, hash: K -> int32, numRows: int, numColumns: int,
                        key: K, value: V, r: int, lo: int, hi: int)
    requires WellFormed(s, hash, numRows, numColumns) && IsKeyRow(hash, numRows, numColumns, key, lo, hi)
    requires 0 <= r < numColumns
    ensures 0 <= lo <= hi <= |s|
    ensures var s', inserted := SetIn(s, lo, hi, key, value, r).0, SetIn(s, lo, hi, key, value, r).1;
      (inserted <==> key !in View(s) && HasRoom(s, lo, hi)) &&
      (key in View(s) || inserted ==> View(s') == View(s)[key := value]) &&
      (key !in View(s) && !inserted ==>
         s[lo + r].Some? && s[lo + r].value.key in View(s) && s[lo + r].value.key != key &&
         View(s') == (View(s) - {s[lo + r].value.key})[key := value])
  {
    SetInWellFormed(s, hash, numRows, numColumns, key, value, r, lo, hi);
    LookupIsView(s, hash, numRows, numColumns, key, lo, hi);
    SetInInserted(s, lo, hi, key, value, r);
    if key in View(s) {
      SetInRowUpdates(s, lo, hi, key, value, r);
    } else if SetIn(s, lo, hi, key, value, r).1 {
      SetInRowInserts(s, lo, hi, key, value, r);
    } else {
      SetInRowEvicts(s, lo, hi, key, value, r);
    }
  }

  /** Set reports an insertion exactly when the key was not stored and its row had room. */
  lemma SetInInserted<K, V>(s: seq<Slot<K, V>>, lo: int, hi: int, key: K, value: V, r: int)
    requires 0 <= lo <= hi <= |s| && 0 <= r < hi - lo
    requires LookupIn(s, lo, hi, key) == if key in View(s) then Some(View(s)[key]) else None
    ensures key in View(s) <==> exists j :: lo <= j < hi && Holds(s[j], key)
    ensures SetIn(s, lo, hi, key, value, r).1 <==> key !in View(s) && HasRoom(s, lo, hi)
  {
  }

  /** When the key was stored, Set only replaces its value. */
  lemma SetInRowUpdates<K, V>(s: seq<Slot<K, V>>, lo: int, hi: int, key: K, value: V, r: int)
    requires 0 <= lo <= hi <= |s| && 0 <= r < hi - lo
    requires Unique(s) && Unique(SetIn(s, lo, hi, key, value, r).0)
    requires LookupIn(s, lo, hi, key) == if key in View(s) then Some(View(s)[key]) else None
    requires key in View(s)
    ensures View(SetIn(s, lo, hi, key, value, r).0) == View(s)[key := value]
  {
    var t := SetTarget(s, lo, hi, key, r);
    var e := Entry(key, value);
    assert SetIn(s, lo, hi, key, value, r).0 == s[t := Some(e)];
    ViewStore(s, t, e);
    SetInInserted(s, lo, hi, key, value, r);
    assert Holds(s[t], key);
    RemoveThenStore(View(s), key, value);
  }

  /** Dropping a key and then storing it again is storing it. */
  lemma RemoveThenStore<K, V>(m: map<K, V>, k: K, v: V)
    ensures (m - {k})[k := v] == m[k := v]
  {
  }

  /** When the key was new and went into an empty slot, Set only adds it. */
  lemma SetInRowInserts<K, V>(s: seq<Slot<K, V>>, lo: int, hi: int, key: K, value: V, r: int)
    requires 0 <= lo <= hi <= |s| && 0 <= r < hi - lo
    requires Unique(s) && Unique(SetIn(s, lo, hi, key, value, r).0)
    requires SetIn(s, lo, hi, key, value, r).1
    ensures View(SetIn(s, lo, hi, key, value, r).0) == View(s)[key := value]
  {
    var t := SetTarget(s, lo, hi, key, r);
    var e := Entry(key, value);
    assert SetIn(s, lo, hi, key, value, r).0 == s[t := Some(e)];
    ViewStore(s, t, e);
    SetInsertsIntoEmpty(s, lo, hi, key, value, r);
  }

  /**
   * When the key was new and its row full, Set evicts the other key stored in column `r`
   * and maps the key to the new value.
   */
  lemma SetInRowEvicts<K, V>(s: seq<Slot<K, V>>, lo: int, hi: int, key: K, value: V, r: int)
    requires 0 <= lo <= hi <= |s| && 0 <= r < hi - lo
    requires Unique(s) && Unique(SetIn(s, lo, hi, key, value, r).0)
    requires LookupIn(s, lo, hi, key) == if key in View(s) then Some(View(s)[key]) else None
    requires key !in View(s) && !SetIn(s, lo, hi, key, value, r).1
    ensures s[lo + r].Some? && s[lo + r].value.key in View(s) && s[lo + r].value.key != key
    ensures View(SetIn(s, lo, hi, key, value, r).0) == (View(s) - {s[lo + r].value.key})[key := value]
  {
    var t := SetTarget(s, lo, hi, key, r);
    var e := Entry(key, value);
    assert SetIn(s, lo, hi, key, value, r).0 == s[t := Some(e)];
    ViewStore(s, t, e);
    SetInInserted(s, lo, hi, key, value, r);
    assert t == lo + r && s[t].Some?;
    ViewFacts(s);
  }

  /** Set adds one to the row's count exactly when it filled an empty slot. */
  lemma SetInCount<K, V>(s: seq<Slot<K, V>>, lo: int, hi: int, key: K, value: V, r: int)
    requires 0 <= lo <= hi <= |s| && 0 <= r < hi - lo
    ensures var (s', inserted) := SetIn(s, lo, hi, key, value, r);
      Occupied(s'[lo..hi]) == Occupied(s[lo..hi]) + (if inserted then 1 else 0) &&
      Occupied(s') == Occupied(s) + (if inserted then 1 else 0)
  {
    var t := SetTarget(s, lo, hi, key, r);
    var x := Some(Entry(key, value));
    assert SetIn(s, lo, hi, key, value, r) == (s[t := x], s[t].None?) by {
      SetInsertsIntoEmpty(s, lo, hi, key, value, r);
    }
    WriteCount(s, lo, hi, t, x);
  }

  /** Set reports an insertion exactly when the slot it wrote was empty. */
  lemma SetInsertsIntoEmpty<K, V>(s: seq<Slot<K, V>>, lo: int, hi: int, key: K, value: V, r: int)
    requires 0 <= lo <= hi <= |s| && 0 <= r < hi - lo
    ensures SetIn(s, lo, hi, key, value, r).1 <==> s[SetTarget(s, lo, hi, key, r)].None?
  {
  }

  /** Writing one slot of row `[lo, hi)` changes the row's count and the table's alike. */
  lemma WriteCount<K, V>(s: seq<Slot<K, V>>, lo: int, hi: int, t: int, x: Slot<K, V>)
    requires 0 <= lo <= t < hi <= |s|
    ensures Occupied(s[t := x][lo..hi]) ==
            Occupied(s[lo..hi]) - (if s[t].Some? then 1 else 0) + (if x.Some? then 1 else 0)
    ensures Occupied(s[t := x]) ==
            Occupied(s) - (if s[t].Some? then 1 else 0) + (if x.Some? then 1 else 0)
  {
    OccupiedUpdate(s, t, x);
    SliceUpdate(s, lo, hi, t, x);
    OccupiedUpdate(s[lo..hi], t - lo, x);
  }

  /** Remove keeps the table well formed. */
  lemma RemoveInWellFormed<K, V>(s: seq<Slot<K, V>>, hash: K -> int32, numRows: int, numColumns: int,
                                 lo: int, hi: int, key: K)
    requires WellFormed(s, hash, numRows, numColumns)
    requires 0 <= lo <= hi <= |s|
    ensures WellFormed(RemoveIn(s, lo, hi, key).0, hash, numRows, numColumns)
  {
  }

  /**
   * Remove on the key's row, in terms of the view: it reports whether the key was
   * stored, and afterwards exactly that key is gone.
   */
  lemma RemoveInView<K, V>(s: seq<Slot<K, V>>, hash: K -> int32, numRows: int, numColumns: int,
                           key: K, lo: int, hi: int)
    requires WellFormed(s, hash, numRows, numColumns) && IsKeyRow(hash, numRows, numColumns, key, lo, hi)
    ensures 0 <= lo <= hi <= |s|
    ensures var s', removed := RemoveIn(s, lo, hi, key).0, RemoveIn(s, lo, hi, key).1;
      (removed <==> key in View(s)) && View(s') == View(s) - {key}
  {
    LookupIsView(s, hash, numRows, numColumns, key, lo, hi);
    var f := FindIn(s, lo, hi, key);
    if f != -1 {
      ViewErase(s, f);
    }
  }

  /** Remove takes one off the row's count exactly when it emptied a slot. */
  lemma RemoveInCount<K, V>(s: seq<Slot<K, V>>, lo: int, hi: int, key: K)
    requires 0 <= lo <= hi <= |s|
    ensures var (s', removed) := RemoveIn(s, lo, hi, key);
      Occupied(s'[lo..hi]) == Occupied(s[lo..hi]) - (if removed then 1 else 0) &&
      Occupied(s') == Occupied(s) - (if removed then 1 else 0)
  {
    var f := FindIn(s, lo, hi, key);
    if f != -1 {
      assert RemoveIn(s, lo, hi, key) == (s[f := None], true);
      WriteCount(s, lo, hi, f, None);
    }
  }
}
