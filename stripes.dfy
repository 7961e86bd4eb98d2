/**
 * Row-by-row views of the slot sequence, for the lock-striped cache
 * (CacheTable/ConcurrentCacheTable.cs): the occupancy and the pairs of one row, rows
 * grouped into stripes by `row % concurrency`, and the order in which the striped
 * enumerator visits rows. The main facts: that order visits every row exactly once, and
 * what it yields is a permutation of the slot-order enumeration.
 */
module Stripes {
  import opened Arith
  import opened Layout

  // ---------------------------------------------------------------------------
  // Division facts

  /** Division by a positive `c` is unique: `x == q * c + r` with `0 <= r < c` fixes both. */
  lemma DivModUnique(x: int, q: int, r: int, c: int)
    requires 0 <= r < c && x == q * c + r
    ensures x / c == q && x % c == r
  {
    var q', r' := x / c, x % c;
    assert q' * c + r' == x;
    MulSign(q - q', c);
    assert q * c - q' * c == (q - q') * c;
  }

  lemma MulSucc(a: int, c: int)
    ensures (a + 1) * c == a * c + c
  {
  }

  /** The remainder of a non-negative value is at most the value. */
  lemma ModAtMost(x: int, c: int)
    requires 0 <= x && 0 < c
    ensures x % c <= x
  {
    if x < c {
      DivModUnique(x, 0, x, c);
    }
  }

  /** Adding the divisor keeps the remainder. */
  lemma ModAddDivisor(x: int, c: int)
    requires 0 < c
    ensures (x + c) % c == x % c
  {
    DivModUnique(x + c, x / c + 1, x % c, c);
  }

  /** Two values less than `c` apart with the same remainder are equal. */
  lemma ModCloseEqual(x: int, y: int, c: int)
    requires 0 < c && x <= y < x + c && x % c == y % c
    ensures x == y
  {
    var q, r := x / c, x % c;
    var d := y - x;
    if r + d < c {
      DivModUnique(y, q, r + d, c);
    } else {
      DivModUnique(y, q + 1, r + d - c, c);
    }
  }

  // ---------------------------------------------------------------------------
  // Rows of a table

  /** The number of occupied slots of `row` (`counts[row]` in the source). */
  function RowCount<K, V>(s: seq<Slot<K, V>>, numRows: int, numColumns: int, row: int): (n: nat)
    requires 0 <= row < numRows && 0 < numColumns && |s| == numRows * numColumns
    ensures n <= numColumns
  {
    RowFits(row, numRows, numColumns);
    Occupied(s[row * numColumns..row * numColumns + numColumns])
  }

  /** The pairs of the occupied slots of `row`, in column order. */
  function RowEntries<K, V>(s: seq<Slot<K, V>>, numRows: int, numColumns: int, row: int): (es: seq<Entry<K, V>>)
    requires 0 <= row < numRows && 0 < numColumns && |s| == numRows * numColumns
    ensures |es| == RowCount(s, numRows, numColumns, row)
  {
    RowFits(row, numRows, numColumns);
    OccupiedEntries(s[row * numColumns..row * numColumns + numColumns])
  }

  predicate RowsIn(rows: seq<int>, numRows: int)
  {
    forall i :: 0 <= i < |rows| ==> 0 <= rows[i] < numRows
  }

  /** The pairs of the given rows, row after row. */
  function EntriesOfRows<K, V>(s: seq<Slot<K, V>>, numRows: int, numColumns: int, rows: seq<int>): seq<Entry<K, V>>
    requires 0 < numColumns && |s| == numRows * numColumns && RowsIn(rows, numRows)
  {
    if rows == [] then []
    else RowEntries(s, numRows, numColumns, rows[0]) + EntriesOfRows(s, numRows, numColumns, rows[1..])
  }

  lemma {:induction false} EntriesOfRowsAppend<K, V>(s: seq<Slot<K, V>>, numRows: int, numColumns: int,
                                                      a: seq<int>, b: seq<int>)
    requires 0 < numColumns && |s| == numRows * numColumns && RowsIn(a, numRows) && RowsIn(b, numRows)
    ensures RowsIn(a + b, numRows)
    ensures EntriesOfRows(s, numRows, numColumns, a + b) ==
            EntriesOfRows(s, numRows, numColumns, a) + EntriesOfRows(s, numRows, numColumns, b)
  {
    if a != [] {
      assert (a + b)[1..] == a[1..] + b;
      EntriesOfRowsAppend(s, numRows, numColumns, a[1..], b);
    } else {
      assert a + b == b;
    }
  }

  /** Rows `0, 1, ..., n - 1`. */
  function Range(n: nat): (rows: seq<int>)
    ensures |rows| == n
  {
    seq(n, i => i)
  }

  /** Taking the rows in order reproduces the slot-order enumeration of the first `n` rows. */
  lemma {:induction false} RowsInOrder<K, V>(s: seq<Slot<K, V>>, numRows: int, numColumns: int, n: nat)
    requires 0 < numColumns && |s| == numRows * numColumns && n <= numRows
    ensures RowsIn(Range(n), numRows)
    ensures n * numColumns <= |s|
    ensures EntriesOfRows(s, numRows, numColumns, Range(n)) == OccupiedEntries(s[..n * numColumns])
  {
    if n == 0 {
      assert s[..0] == [];
    } else {
      var row := n - 1;
      RowsInOrder(s, numRows, numColumns, row);
      RowFits(row, numRows, numColumns);
      var lo := row * numColumns;
      var hi := lo + numColumns;
      MulSucc(row, numColumns);
      assert n * numColumns == hi;
      var prev := Range(row);
      assert Range(n) == prev + [row];
      EntriesOfRowsSingle(s, numRows, numColumns, row);
      EntriesOfRowsAppend(s, numRows, numColumns, prev, [row]);
      RowEntriesPrefix(s, numRows, numColumns, row, lo, hi);
      assert EntriesOfRows(s, numRows, numColumns, Range(n)) ==
             OccupiedEntries(s[..lo]) + RowEntries(s, numRows, numColumns, row);
    }
  }

  /** The pairs of a one-row list are that row's pairs. */
  lemma EntriesOfRowsSingle<K, V>(s: seq<Slot<K, V>>, numRows: int, numColumns: int, row: int)
    requires 0 < numColumns && |s| == numRows * numColumns && 0 <= row < numRows
    ensures RowsIn([row], numRows)
    ensures EntriesOfRows(s, numRows, numColumns, [row]) == RowEntries(s, numRows, numColumns, row)
  {
    assert [row][1..] == [];
    assert EntriesOfRows(s, numRows, numColumns, [row]) == RowEntries(s, numRows, numColumns, row) + [];
  }

  /** The slot-order pairs up to the end of `row` are those before it followed by the row's. */
  lemma RowEntriesPrefix<K, V>(s: seq<Slot<K, V>>, numRows: int, numColumns: int, row: int, lo: int, hi: int)
    requires 0 < numColumns && |s| == numRows * numColumns && 0 <= row < numRows
    requires lo == row * numColumns && hi == lo + numColumns
    ensures 0 <= lo <= hi <= |s|
    ensures OccupiedEntries(s[..hi]) == OccupiedEntries(s[..lo]) + RowEntries(s, numRows, numColumns, row)
  {
    RowFits(row, numRows, numColumns);
    assert s[..hi] == s[..lo] + s[lo..hi];
    OccupiedEntriesAppend(s[..lo], s[lo..hi]);
  }

  /** Rows in the same multiset yield the same pairs, in some order. */
  lemma {:induction false} PermutedRows<K, V>(s: seq<Slot<K, V>>, numRows: int, numColumns: int,
                                              a: seq<int>, b: seq<int>)
    requires 0 < numColumns && |s| == numRows * numColumns && RowsIn(a, numRows) && RowsIn(b, numRows)
    requires multiset(a) == multiset(b)
    ensures multiset(EntriesOfRows(s, numRows, numColumns, a)) == multiset(EntriesOfRows(s, numRows, numColumns, b))
    decreases |a|
  {
    if a == [] {
      assert |b| == |multiset(b)| == 0;
    } else {
      var r := a[0];
      var pre, post := PickOut(a, b, numRows);
      EntriesOfRowsMove(s, numRows, numColumns, pre, r, post);
      PermutedRows(s, numRows, numColumns, a[1..], pre + post);
      assert EntriesOfRows(s, numRows, numColumns, a) ==
             RowEntries(s, numRows, numColumns, r) + EntriesOfRows(s, numRows, numColumns, a[1..]);
    }
  }

  /** The first row of `a` occurs in its permutation `b`; taking it out of both leaves permutations. */
  lemma PickOut(a: seq<int>, b: seq<int>, numRows: int) returns (pre: seq<int>, post: seq<int>)
    requires a != [] && multiset(a) == multiset(b) && RowsIn(a, numRows) && RowsIn(b, numRows)
    ensures b == pre + [a[0]] + post
    ensures multiset(a[1..]) == multiset(pre + post)
    ensures RowsIn(a[1..], numRows) && RowsIn(pre, numRows) && RowsIn(post, numRows) && 0 <= a[0] < numRows
  {
    var r := a[0];
    assert r in multiset(b) by {
      assert a == [r] + a[1..];
    }
    var k :| 0 <= k < |b| && b[k] == r;
    pre, post := b[..k], b[k + 1..];
    assert b == pre + [r] + post;
    MultisetWithout(a, b, k);
    RowsInSlice(b, 0, k, numRows);
    RowsInSlice(b, k + 1, |b|, numRows);
    RowsInSlice(a, 1, |a|, numRows);
  }

  /** A slice of rows is rows. */
  lemma RowsInSlice(xs: seq<int>, i: int, j: int, numRows: int)
    requires RowsIn(xs, numRows) && 0 <= i <= j <= |xs|
    ensures RowsIn(xs[i..j], numRows)
  {
    forall t | 0 <= t < j - i ensures 0 <= xs[i..j][t] < numRows {
      assert xs[i..j][t] == xs[i + t];
    }
  }

  /** Taking the first element of `a` out of its permutation `b` (at `k`) leaves permutations. */
  lemma MultisetWithout(a: seq<int>, b: seq<int>, k: int)
    requires a != [] && multiset(a) == multiset(b) && 0 <= k < |b| && b[k] == a[0]
    ensures multiset(a[1..]) == multiset(b[..k] + b[k + 1..])
  {
    var r := a[0];
    assert a == [r] + a[1..];
    assert b == b[..k] + [r] + b[k + 1..];
    var rest := b[..k] + b[k + 1..];
    assert multiset(b) == multiset(rest) + multiset{r};
    assert multiset(a) == multiset(a[1..]) + multiset{r};
    forall x ensures multiset(a[1..])[x] == multiset(rest)[x] {
      assert multiset(a)[x] == multiset(b)[x];
    }
  }

  /** Taking one row out of the middle of a row list takes its pairs out of the pairs. */
  lemma EntriesOfRowsMove<K, V>(s: seq<Slot<K, V>>, numRows: int, numColumns: int, pre: seq<int>, r: int, post: seq<int>)
    requires 0 < numColumns && |s| == numRows * numColumns && 0 <= r < numRows
    requires RowsIn(pre, numRows) && RowsIn(post, numRows)
    ensures RowsIn(pre + [r] + post, numRows) && RowsIn(pre + post, numRows)
    ensures multiset(EntriesOfRows(s, numRows, numColumns, pre + [r] + post)) ==
            multiset(RowEntries(s, numRows, numColumns, r)) + multiset(EntriesOfRows(s, numRows, numColumns, pre + post))
  {
    EntriesOfRowsSingle(s, numRows, numColumns, r);
    EntriesOfRowsAppend(s, numRows, numColumns, pre, post);
    EntriesOfRowsAppend(s, numRows, numColumns, pre + [r], post);
    EntriesOfRowsAppend(s, numRows, numColumns, pre, [r]);
  }

  /** Counting the rows one at a time counts the slots of the first `n` rows. */
  lemma RowCountsPrefix<K, V>(s: seq<Slot<K, V>>, numRows: int, numColumns: int, n: int)
    requires 0 <= n < numRows && 0 < numColumns && |s| == numRows * numColumns
    ensures 0 <= n * numColumns && n * numColumns + numColumns <= |s|
    ensures Occupied(s[..n * numColumns + numColumns]) ==
            Occupied(s[..n * numColumns]) + RowCount(s, numRows, numColumns, n)
  {
    RowFits(n, numRows, numColumns);
    var lo := n * numColumns;
    assert s[..lo + numColumns] == s[..lo] + s[lo..lo + numColumns];
    OccupiedAppend(s[..lo], s[lo..lo + numColumns]);
  }

  /** A row whose slots did not change keeps its count. */
  lemma OtherRowsKeepCounts<K, V>(s: seq<Slot<K, V>>, s': seq<Slot<K, V>>, numRows: int, numColumns: int, row: int)
    requires 0 <= row < numRows && 0 < numColumns && |s| == |s'| == numRows * numColumns
    requires forall i :: 0 <= i < |s| && !InRow(i, row, numColumns) ==> s'[i] == s[i]
    ensures forall other :: 0 <= other < numRows && other != row ==>
              RowCount(s', numRows, numColumns, other) == RowCount(s, numRows, numColumns, other)
  {
    forall other | 0 <= other < numRows && other != row
      ensures RowCount(s', numRows, numColumns, other) == RowCount(s, numRows, numColumns, other)
    {
      RowFits(other, numRows, numColumns);
      var lo := other * numColumns;
      forall i | lo <= i < lo + numColumns ensures s'[i] == s[i] {
        InRowIsQuotient(i, other, numColumns);
        InRowIsQuotient(i, row, numColumns);
      }
      assert s'[lo..lo + numColumns] == s[lo..lo + numColumns];
    }
  }

  // ---------------------------------------------------------------------------
  // Row counters

  /** The sum of `xs`. */
  function Sum(xs: seq<int>): int
  {
    if xs == [] then 0 else Sum(xs[..|xs| - 1]) + xs[|xs| - 1]
  }

  /** The number of occupied slots of each of the first `n` rows of `s`, row by row. */
  function RowCounts<K, V>(s: seq<Slot<K, V>>, numRows: int, numColumns: int, n: nat): (cs: seq<int>)
    requires 0 < numColumns && |s| == numRows * numColumns && n <= numRows
    ensures |cs| == n
  {
    if n == 0 then [] else RowCounts(s, numRows, numColumns, n - 1) + [RowCount(s, numRows, numColumns, n - 1)]
  }

  /** Entry `row` of RowCounts is the count of `row`. */
  lemma {:induction false} RowCountsAt<K, V>(s: seq<Slot<K, V>>, numRows: int, numColumns: int, n: nat, row: int)
    requires 0 < numColumns && |s| == numRows * numColumns && n <= numRows && 0 <= row < n
    ensures RowCounts(s, numRows, numColumns, n)[row] == RowCount(s, numRows, numColumns, row)
  {
    if row < n - 1 {
      RowCountsAt(s, numRows, numColumns, n - 1, row);
    }
  }

  /** `cs` holds the number of occupied slots of every row of `s`. */
  predicate CountsMatch<K, V>(s: seq<Slot<K, V>>, numRows: nat, numColumns: int, cs: seq<int>)
    requires 0 < numColumns && |s| == numRows * numColumns
  {
    cs == RowCounts(s, numRows, numColumns, numRows)
  }

  /** CountsMatch, slot by slot. */
  lemma CountsMatchAt<K, V>(s: seq<Slot<K, V>>, numRows: nat, numColumns: int, cs: seq<int>)
    requires 0 < numColumns && |s| == numRows * numColumns
    ensures CountsMatch(s, numRows, numColumns, cs) <==>
              |cs| == numRows && forall row :: 0 <= row < numRows ==> cs[row] == RowCount(s, numRows, numColumns, row)
  {
    forall row | 0 <= row < numRows {
      RowCountsAt(s, numRows, numColumns, numRows, row);
    }
  }

  /** Adding up the counters of the first `n` rows counts the occupied slots of those rows. */
  lemma {:induction false} SumOfCounts<K, V>(s: seq<Slot<K, V>>, numRows: int, numColumns: int, cs: seq<int>, n: nat)
    requires 0 < numColumns && |s| == numRows * numColumns && CountsMatch(s, numRows, numColumns, cs)
    requires n <= numRows
    ensures n <= |cs| && n * numColumns <= |s|
    ensures Sum(cs[..n]) == Occupied(s[..n * numColumns])
  {
    CountsMatchAt(s, numRows, numColumns, cs);
    if n == 0 {
      assert cs[..0] == [];
      assert s[..0] == [];
    } else {
      SumOfCounts(s, numRows, numColumns, cs, n - 1);
      RowCountsPrefix(s, numRows, numColumns, n - 1);
      MulSucc(n - 1, numColumns);
      assert cs[..n][..n - 1] == cs[..n - 1];
    }
  }

  /** Every row of an all-empty table counts zero. */
  lemma EmptyCounts<K, V>(s: seq<Slot<K, V>>, numRows: int, numColumns: int, cs: seq<int>)
    requires 0 < numColumns && |s| == numRows * numColumns
    requires forall i :: 0 <= i < |s| ==> s[i].None?
    requires |cs| == numRows && forall row :: 0 <= row < numRows ==> cs[row] == 0
    ensures CountsMatch(s, numRows, numColumns, cs)
  {
    forall row | 0 <= row < numRows
      ensures RowCount(s, numRows, numColumns, row) == 0
    {
      RowFits(row, numRows, numColumns);
      EmptyHoldsNothing(s[row * numColumns..row * numColumns + numColumns]);
    }
    CountsMatchAt(s, numRows, numColumns, cs);
  }

  /** A write confined to `row` that changes its occupancy by `delta` changes only that row's counter. */
  lemma CountsAfterRowWrite<K, V>(s: seq<Slot<K, V>>, s': seq<Slot<K, V>>, numRows: int, numColumns: int,
                                  cs: seq<int>, row: int, lo: int, hi: int, delta: int)
    requires 0 <= row < numRows && 0 < numColumns && |s| == |s'| == numRows * numColumns
    requires lo == row * numColumns && hi == lo + numColumns
    requires CountsMatch(s, numRows, numColumns, cs)
    requires forall i :: 0 <= i < |s| && !(lo <= i < hi) ==> s'[i] == s[i]
    requires RowCount(s', numRows, numColumns, row) == RowCount(s, numRows, numColumns, row) + delta
    ensures CountsMatch(s', numRows, numColumns, cs[row := cs[row] + delta])
  {
    CountsMatchAt(s, numRows, numColumns, cs);
    CountsMatchAt(s', numRows, numColumns, cs[row := cs[row] + delta]);
    OtherRowsKeepCounts(s, s', numRows, numColumns, row);
  }

  /**
   * Writing slot `t` of `row` changes that row's counter by the change in occupancy of
   * the slot, and leaves the other counters alone.
   */
  lemma CountsAfterSlotWrite<K, V>(s: seq<Slot<K, V>>, numRows: int, numColumns: int, cs: seq<int>,
                                   row: int, lo: int, hi: int, t: int, x: Slot<K, V>, delta: int)
    requires 0 <= row < numRows && 0 < numColumns && |s| == numRows * numColumns
    requires lo == row * numColumns && hi == lo + numColumns && lo <= t < hi <= |s|
    requires delta == (if x.Some? then 1 else 0) - (if s[t].Some? then 1 else 0)
    requires CountsMatch(s, numRows, numColumns, cs)
    ensures CountsMatch(s[t := x], numRows, numColumns, cs[row := cs[row] + delta])
  {
    RowFits(row, numRows, numColumns);
    WriteCount(s, lo, hi, t, x);
    var s' := s[t := x];
    assert RowCount(s', numRows, numColumns, row) == Occupied(s'[lo..hi]);
    assert RowCount(s, numRows, numColumns, row) == Occupied(s[lo..hi]);
    CountsAfterRowWrite(s, s', numRows, numColumns, cs, row, lo, hi, delta);
  }

  /**
   * Storing into `row` (the engine's Set) raises that row's counter by one exactly when
   * it reports an insertion, and leaves the other counters alone.
   */
  lemma SetInCounts<K, V>(s: seq<Slot<K, V>>, numRows: int, numColumns: int, cs: seq<int>,
                          row: int, lo: int, hi: int, key: K, value: V, r: int)
    requires 0 <= row < numRows && 0 < numColumns && |s| == numRows * numColumns && 0 <= r < numColumns
    requires lo == row * numColumns && hi == lo + numColumns
    requires CountsMatch(s, numRows, numColumns, cs)
    ensures 0 <= lo <= hi <= |s|
    ensures var res := SetIn(s, lo, hi, key, value, r);
      CountsMatch(res.0, numRows, numColumns, if res.1 then cs[row := cs[row] + 1] else cs)
  {
    RowFits(row, numRows, numColumns);
    var t := SetTarget(s, lo, hi, key, r);
    var x := Some(Entry(key, value));
    SetInsertsIntoEmpty(s, lo, hi, key, value, r);
    assert SetIn(s, lo, hi, key, value, r) == (s[t := x], s[t].None?);
    if s[t].None? {
      CountsAfterSlotWrite(s, numRows, numColumns, cs, row, lo, hi, t, x, 1);
    } else {
      CountsAfterSlotWrite(s, numRows, numColumns, cs, row, lo, hi, t, x, 0);
      assert cs[row := cs[row] + 0] == cs;
    }
  }

  /**
   * Removing from `row` (the engine's Remove) lowers that row's counter by one exactly
   * when it reports a removal, and leaves the other counters alone.
   */
  lemma RemoveInCounts<K, V>(s: seq<Slot<K, V>>, numRows: int, numColumns: int, cs: seq<int>,
                             row: int, lo: int, hi: int, key: K)
    requires 0 <= row < numRows && 0 < numColumns && |s| == numRows * numColumns
    requires lo == row * numColumns && hi == lo + numColumns
    requires CountsMatch(s, numRows, numColumns, cs)
    ensures 0 <= lo <= hi <= |s|
    ensures var res := RemoveIn(s, lo, hi, key);
      CountsMatch(res.0, numRows, numColumns, if res.1 then cs[row := cs[row] - 1] else cs)
  {
    RowFits(row, numRows, numColumns);
    var f := FindIn(s, lo, hi, key);
    if f != -1 {
      assert RemoveIn(s, lo, hi, key) == (s[f := None], true);
      CountsAfterSlotWrite(s, numRows, numColumns, cs, row, lo, hi, f, None, -1);
    }
  }

  // ---------------------------------------------------------------------------
  // Stripes

  /** The rows `first, first + concurrency, ...` below `numRows`: one stripe's rows, ascending. */
  function StripeRows(first: int, concurrency: int, numRows: int): (rows: seq<int>)
    requires 0 <= first && 0 < concurrency
    ensures RowsIn(rows, numRows)
    decreases numRows - first
  {
    if first >= numRows then [] else [first] + StripeRows(first + concurrency, concurrency, numRows)
  }

  /** A stripe's rows start at `first` and stay inside the table. */
  lemma {:induction false} StripeRowsInRange(first: int, concurrency: int, numRows: int)
    requires 0 <= first && 0 < concurrency
    ensures forall i :: 0 <= i < |StripeRows(first, concurrency, numRows)| ==>
              first <= StripeRows(first, concurrency, numRows)[i] < numRows
    decreases numRows - first
  {
    if first < numRows {
      var rows := StripeRows(first, concurrency, numRows);
      var rest := StripeRows(first + concurrency, concurrency, numRows);
      assert rows == [first] + rest;
      StripeRowsInRange(first + concurrency, concurrency, numRows);
      forall i | 0 <= i < |rows| ensures first <= rows[i] < numRows {
        if i > 0 {
          assert rows[i] == rest[i - 1];
        }
      }
    }
  }

  /** A stripe is traversed in ascending row order. */
  lemma {:induction false} StripeRowsAscending(first: int, concurrency: int, numRows: int)
    requires 0 <= first && 0 < concurrency
    ensures forall i, j :: 0 <= i < j < |StripeRows(first, concurrency, numRows)| ==>
              StripeRows(first, concurrency, numRows)[i] < StripeRows(first, concurrency, numRows)[j]
    decreases numRows - first
  {
    if first < numRows {
      var rows := StripeRows(first, concurrency, numRows);
      var rest := StripeRows(first + concurrency, concurrency, numRows);
      assert rows == [first] + rest;
      StripeRowsAscending(first + concurrency, concurrency, numRows);
      StripeRowsInRange(first + concurrency, concurrency, numRows);
      forall i, j | 0 <= i < j < |rows|
        ensures rows[i] < rows[j]
      {
        assert rows[j] == rest[j - 1] && first + concurrency <= rest[j - 1];
        if i == 0 {
          assert rows[i] == first;
        } else {
          assert rows[i] == rest[i - 1] && rest[i - 1] < rest[j - 1];
        }
      }
    }
  }

  /** Every row of a stripe's traversal has the stripe's remainder, so it belongs to that stripe. */
  lemma {:induction false} StripeRowsShareRemainder(first: int, concurrency: int, numRows: int)
    requires 0 <= first && 0 < concurrency
    ensures forall row :: row in StripeRows(first, concurrency, numRows) ==> row % concurrency == first % concurrency
    decreases numRows - first
  {
    if first < numRows {
      StripeRowsShareRemainder(first + concurrency, concurrency, numRows);
      ModAddDivisor(first, concurrency);
    }
  }

  /** The rows the traversal visits while holding lock `lockNum` are exactly rows of stripe `lockNum`. */
  lemma StripeRowsBelongToStripe(lockNum: int, concurrency: int, numRows: int)
    requires 0 <= lockNum < concurrency
    ensures forall row :: row in StripeRows(lockNum, concurrency, numRows) ==> row % concurrency == lockNum
  {
    StripeRowsShareRemainder(lockNum, concurrency, numRows);
    DivModUnique(lockNum, 0, lockNum, concurrency);
  }

  /**
   * One step of a stripe's traversal: after the pairs `done`, visiting `row` (slots
   * `lo .. hi`) and then the rows `concurrency` on still yields `target`.
   */
  lemma StripeRowsStep<K, V>(s: seq<Slot<K, V>>, numRows: int, numColumns: int, concurrency: int,
                             row: int, next: int, lo: int, hi: int,
                             done: seq<Entry<K, V>>, done': seq<Entry<K, V>>, target: seq<Entry<K, V>>)
    requires 0 <= row < numRows && 0 < concurrency && 0 < numColumns && |s| == numRows * numColumns
    requires next == row + concurrency && lo == row * numColumns && hi == lo + numColumns
    requires done + EntriesOfRows(s, numRows, numColumns, StripeRows(row, concurrency, numRows)) == target
    requires 0 <= lo <= hi <= |s| && done' == done + OccupiedEntries(s[lo..hi])
    ensures done' + EntriesOfRows(s, numRows, numColumns, StripeRows(next, concurrency, numRows)) == target
  {
    var rest := StripeRows(next, concurrency, numRows);
    assert StripeRows(row, concurrency, numRows) == [row] + rest;
    EntriesOfRowsCons(s, numRows, numColumns, row, rest);
    assert RowEntries(s, numRows, numColumns, row) == OccupiedEntries(s[lo..hi]);
  }

  /** The pairs of `[row] + rest` are the row's pairs followed by those of `rest`. */
  lemma EntriesOfRowsCons<K, V>(s: seq<Slot<K, V>>, numRows: int, numColumns: int, row: int, rest: seq<int>)
    requires 0 < numColumns && |s| == numRows * numColumns && 0 <= row < numRows && RowsIn(rest, numRows)
    ensures RowsIn([row] + rest, numRows)
    ensures EntriesOfRows(s, numRows, numColumns, [row] + rest) ==
            RowEntries(s, numRows, numColumns, row) + EntriesOfRows(s, numRows, numColumns, rest)
  {
    var rows := [row] + rest;
    assert rows[0] == row && rows[1..] == rest;
  }

  /** Extending a slice by one slot extends its pairs by that slot's pair, if it holds one. */
  lemma OccupiedEntriesStep<K, V>(s: seq<Slot<K, V>>, lo: int, i: int, done: seq<Entry<K, V>>)
    requires 0 <= lo <= i < |s|
    ensures done + OccupiedEntries(s[lo..i + 1]) ==
            (done + OccupiedEntries(s[lo..i])) + (if s[i].Some? then [s[i].value] else [])
  {
    assert s[lo..i + 1][..i - lo] == s[lo..i];
  }

  /** Stripes `0 .. n - 1`, one after the other, each with its rows ascending. */
  function StripeOrder(n: nat, concurrency: int, numRows: int): (rows: seq<int>)
    requires 0 < concurrency
    ensures RowsIn(rows, numRows)
  {
    if n == 0 then [] else StripeOrder(n - 1, concurrency, numRows) + StripeRows(n - 1, concurrency, numRows)
  }

  /** A stripe holds a row once when the row is in range and shares the stripe's remainder. */
  lemma {:induction false} StripeRowsCount(first: int, concurrency: int, numRows: int, row: int)
    requires 0 <= first && 0 < concurrency
    ensures multiset(StripeRows(first, concurrency, numRows))[row] ==
            if first <= row < numRows && row % concurrency == first % concurrency then 1 else 0
    decreases numRows - first
  {
    if first < numRows {
      var next := first + concurrency;
      var rest := StripeRows(next, concurrency, numRows);
      assert StripeRows(first, concurrency, numRows) == [first] + rest;
      ConsCount(first, rest, row);
      StripeRowsCount(next, concurrency, numRows, row);
      ModAddDivisor(first, concurrency);
      if first < row < next && row % concurrency == first % concurrency {
        ModCloseEqual(first, row, concurrency);
      }
      StripeCountStep(first, next, concurrency, numRows, row, row % concurrency, first % concurrency,
                      multiset(rest)[row]);
    }
  }

  /** Putting `x` in front adds one occurrence of `x`. */
  lemma ConsCount(x: int, rest: seq<int>, y: int)
    ensures multiset([x] + rest)[y] == (if y == x then 1 else 0) + multiset(rest)[y]
  {
    assert multiset([x] + rest) == multiset{x} + multiset(rest);
  }

  /** Putting `x` at the end adds one occurrence of `x`. */
  lemma SnocCount(xs: seq<int>, x: int, y: int)
    ensures multiset(xs + [x])[y] == multiset(xs)[y] + if y == x then 1 else 0
  {
    assert multiset(xs + [x]) == multiset(xs) + multiset{x};
  }

  /** The arithmetic step of StripeRowsCount, with the remainders named `rowRem` and `firstRem`. */
  lemma StripeCountStep(first: int, next: int, concurrency: int, numRows: int, row: int,
                        rowRem: int, firstRem: int, restCount: int)
    requires first < numRows && next == first + concurrency && 0 < concurrency
    requires restCount == if next <= row < numRows && rowRem == firstRem then 1 else 0
    requires first < row < next && rowRem == firstRem ==> row == first
    requires row == first ==> rowRem == firstRem
    ensures (if row == first then 1 else 0) + restCount ==
            if first <= row < numRows && rowRem == firstRem then 1 else 0
  {
  }

  /** The first `n` stripes hold each row in range whose remainder is below `n`, once. */
  lemma {:induction false} StripeOrderCount(n: nat, concurrency: int, numRows: int, row: int)
    requires n <= concurrency
    requires 0 < concurrency
    ensures multiset(StripeOrder(n, concurrency, numRows))[row] ==
            if 0 <= row < numRows && row % concurrency < n then 1 else 0
  {
    if n > 0 {
      var earlier := StripeOrder(n - 1, concurrency, numRows);
      var last := StripeRows(n - 1, concurrency, numRows);
      assert multiset(StripeOrder(n, concurrency, numRows))[row] == multiset(earlier)[row] + multiset(last)[row];
      StripeOrderCount(n - 1, concurrency, numRows, row);
      StripeRowsCount(n - 1, concurrency, numRows, row);
      DivModUnique(n - 1, 0, n - 1, concurrency);
      if 0 <= row {
        ModAtMost(row, concurrency);
      }
      CountStep(multiset(earlier)[row], multiset(last)[row], row, row % concurrency, n, numRows);
    }
  }

  /** The case split behind StripeOrderCount, on plain integers (`m` is the row's remainder). */
  lemma CountStep(a: int, b: int, row: int, m: int, n: int, numRows: int)
    requires 1 <= n
    requires a == if 0 <= row < numRows && m < n - 1 then 1 else 0
    requires b == if n - 1 <= row < numRows && m == n - 1 then 1 else 0
    requires 0 <= row ==> 0 <= m <= row
    ensures a + b == if 0 <= row < numRows && m < n then 1 else 0
  {
  }

  /** The striped traversal visits every row of the table exactly once, and nothing else. */
  lemma StripeOrderIsPermutation(concurrency: int, numRows: nat)
    requires 0 < concurrency
    ensures multiset(StripeOrder(concurrency, concurrency, numRows)) == multiset(Range(numRows))
  {
    forall row
      ensures multiset(StripeOrder(concurrency, concurrency, numRows))[row] == multiset(Range(numRows))[row]
    {
      StripeOrderCount(concurrency, concurrency, numRows, row);
      RangeCount(numRows, row);
    }
  }

  /** The arithmetic step of RangeCount: `a` counts `row` among the first `n - 1` rows. */
  lemma RangeCountStep(a: int, row: int, n: int)
    requires 1 <= n
    requires a == if 0 <= row < n - 1 then 1 else 0
    ensures a + (if row == n - 1 then 1 else 0) == if 0 <= row < n then 1 else 0
  {
  }

  /** Rows `0 .. n - 1` hold each row below `n` once and nothing else. */
  lemma {:induction false} RangeCount(n: nat, row: int)
    ensures multiset(Range(n))[row] == if 0 <= row < n then 1 else 0
  {
    if n > 0 {
      var prev := Range(n - 1);
      assert Range(n) == prev + [n - 1];
      RangeCount(n - 1, row);
      SnocCount(prev, n - 1, row);
      RangeCountStep(multiset(prev)[row], row, n);
    } else {
      assert Range(n) == [];
    }
  }

  /**
   * The striped enumeration yields the same pairs as the slot-order one, each as often,
   * in a different order.
   */
  lemma StripedEntriesArePermutation<K, V>(s: seq<Slot<K, V>>, numRows: nat, numColumns: int, concurrency: int)
    requires 0 < numColumns && |s| == numRows * numColumns && 0 < concurrency
    ensures multiset(EntriesOfRows(s, numRows, numColumns, StripeOrder(concurrency, concurrency, numRows))) ==
            multiset(OccupiedEntries(s))
  {
    StripeOrderIsPermutation(concurrency, numRows);
    RowsInOrder(s, numRows, numColumns, numRows);
    assert s[..numRows * numColumns] == s;
    PermutedRows(s, numRows, numColumns, StripeOrder(concurrency, concurrency, numRows), Range(numRows));
  }
}
