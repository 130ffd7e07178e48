/**
 * Rectangular grids of cells, shared by the chess and hoppers boards: shape,
 * bounds, single-cell update and cell counting.
 */
module Grids {

  type Grid<T> = seq<seq<T>>

  /** `g` has exactly `rows` rows of exactly `cols` cells each. */
  predicate Shaped<T>(g: Grid<T>, rows: nat, cols: nat) {
    |g| == rows && forall r :: 0 <= r < rows ==> |g[r]| == cols
  }

  predicate InBounds(rows: int, cols: int, r: int, c: int) {
    0 <= r < rows && 0 <= c < cols
  }

  /** The grid `g` with the single cell (r, c) replaced by `v`. */
  function Set<T>(g: Grid<T>, r: int, c: int, v: T): (h: Grid<T>)
    requires 0 <= r < |g| && 0 <= c < |g[r]|
    ensures |h| == |g|
    ensures forall i :: 0 <= i < |g| ==> |h[i]| == |g[i]|
    ensures h[r][c] == v
    ensures forall i, j :: 0 <= i < |g| && 0 <= j < |g[i]| && (i != r || j != c) ==> h[i][j] == g[i][j]
  {
    g[r := g[r][c := v]]
  }

  function Indicator(b: bool): nat {
    if b then 1 else 0
  }

  function Abs(x: int): nat {
    if x < 0 then -x else x
  }

  /** Number of cells of `row` that satisfy `f`. */
  function RowCount<T>(row: seq<T>, f: T -> bool): nat {
    if |row| == 0 then 0 else Indicator(f(row[0])) + RowCount(row[1..], f)
  }

  /** Number of cells of `g` that satisfy `f`. */
  function Count<T>(g: Grid<T>, f: T -> bool): nat {
    if |g| == 0 then 0 else RowCount(g[0], f) + Count(g[1..], f)
  }

  /** Replacing one cell changes a row's count by what leaves and what arrives. */
  lemma {:induction false} RowCountSet<T>(row: seq<T>, c: int, v: T, f: T -> bool)
    requires 0 <= c < |row|
    ensures RowCount(row[c := v], f) + Indicator(f(row[c])) == RowCount(row, f) + Indicator(f(v))
    decreases |row|
  {
    if c > 0 {
      assert row[c := v][1..] == row[1..][c - 1 := v];
      RowCountSet(row[1..], c - 1, v, f);
    } else {
      assert row[c := v][1..] == row[1..];
    }
  }

  /** Replacing one cell changes a grid's count by what leaves and what arrives. */
  lemma {:induction false} CountSet<T>(g: Grid<T>, r: int, c: int, v: T, f: T -> bool)
    requires 0 <= r < |g| && 0 <= c < |g[r]|
    ensures Count(Set(g, r, c, v), f) + Indicator(f(g[r][c])) == Count(g, f) + Indicator(f(v))
    decreases |g|
  {
    var h := Set(g, r, c, v);
    if r > 0 {
      assert h[1..] == Set(g[1..], r - 1, c, v);
      CountSet(g[1..], r - 1, c, v, f);
    } else {
      assert h[1..] == g[1..];
      RowCountSet(g[0], c, v, f);
    }
  }

  /** A row with a cell satisfying `f` has a positive count. */
  lemma {:induction false} RowCountPositive<T>(row: seq<T>, c: int, f: T -> bool)
    requires 0 <= c < |row| && f(row[c])
    ensures RowCount(row, f) >= 1
    decreases |row|
  {
    if c > 0 {
      RowCountPositive(row[1..], c - 1, f);
    }
  }

  /** A grid with a cell satisfying `f` has a positive count. */
  lemma {:induction false} CountPositive<T>(g: Grid<T>, r: int, c: int, f: T -> bool)
    requires 0 <= r < |g| && 0 <= c < |g[r]| && f(g[r][c])
    ensures Count(g, f) >= 1
    decreases |g|
  {
    if r > 0 {
      CountPositive(g[1..], r - 1, c, f);
    } else {
      RowCountPositive(g[0], c, f);
    }
  }

  /** Two distinct cells satisfying `f` make the count at least two (`e` is any value `f` rejects). */
  lemma CountAtLeastTwo<T>(g: Grid<T>, r1: int, c1: int, r2: int, c2: int, f: T -> bool, e: T)
    requires 0 <= r1 < |g| && 0 <= c1 < |g[r1]| && f(g[r1][c1])
    requires 0 <= r2 < |g| && 0 <= c2 < |g[r2]| && f(g[r2][c2])
    requires r1 != r2 || c1 != c2
    requires !f(e)
    ensures Count(g, f) >= 2
  {
    var h := Set(g, r1, c1, e);
    CountSet(g, r1, c1, e, f);
    CountPositive(h, r2, c2, f);
  }

  // ---------------------------------------------------------------------------
  // Row-major scans: what each cell contributes, concatenated row by row, left to right

  /** What the cells (r, col), (r, col + 1), ... (r, cols - 1) contribute, in that order. */
  function RowScan<T>(r: int, col: int, cols: int, f: (int, int) -> seq<T>): (xs: seq<T>)
    decreases cols - col
  {
    if col >= cols then [] else f(r, col) + RowScan(r, col + 1, cols, f)
  }

  /** What the cells of rows r, r + 1, ... rows - 1 contribute, row by row. */
  function Scan<T>(r: int, rows: int, cols: int, f: (int, int) -> seq<T>): (xs: seq<T>)
    decreases rows - r
  {
    if r >= rows then [] else RowScan(r, 0, cols, f) + Scan(r + 1, rows, cols, f)
  }

  lemma {:induction false} RowScanMembers<T>(r: int, col: int, cols: int, f: (int, int) -> seq<T>, x: T)
    ensures x in RowScan(r, col, cols, f) <==> exists k :: col <= k < cols && x in f(r, k)
    decreases cols - col
  {
    if col < cols {
      var head, tail := f(r, col), RowScan(r, col + 1, cols, f);
      assert RowScan(r, col, cols, f) == head + tail;
      assert x in head + tail <==> x in head || x in tail;
      RowScanMembers(r, col + 1, cols, f, x);
      if x in tail {
        var k :| col + 1 <= k < cols && x in f(r, k);
        assert col <= k < cols && x in f(r, k);
      }
    }
  }

  /** An element appears in a scan exactly when some scanned cell contributes it. */
  lemma {:induction false} ScanMembers<T>(r: int, rows: int, cols: int, f: (int, int) -> seq<T>, x: T)
    ensures x in Scan(r, rows, cols, f) <==> exists i, k :: r <= i < rows && 0 <= k < cols && x in f(i, k)
    decreases rows - r
  {
    if r < rows {
      var head, tail := RowScan(r, 0, cols, f), Scan(r + 1, rows, cols, f);
      assert Scan(r, rows, cols, f) == head + tail;
      assert x in head + tail <==> x in head || x in tail;
      RowScanMembers(r, 0, cols, f, x);
      ScanMembers(r + 1, rows, cols, f, x);
      if x in head {
        var k :| 0 <= k < cols && x in f(r, k);
        assert r <= r < rows && 0 <= k < cols && x in f(r, k);
      }
      if x in tail {
        var i, k :| r + 1 <= i < rows && 0 <= k < cols && x in f(i, k);
        assert r <= i < rows && 0 <= k < cols && x in f(i, k);
      }
    }
  }

  /** `a` is scanned no later than `b`: an earlier row, or the same row and a column no further right. */
  predicate RowMajor(a: (int, int), b: (int, int)) {
    a.0 < b.0 || (a.0 == b.0 && a.1 <= b.1)
  }

  /** Every element a cell contributes names that cell through `pos`. */
  ghost predicate Located<T>(f: (int, int) -> seq<T>, pos: T -> (int, int)) {
    forall i, k, x :: x in f(i, k) ==> pos(x) == (i, k)
  }

  /** Two ordered lists, every element of the first scanned no later than every element of the second, concatenate to an ordered list. */
  lemma ConcatOrdered<T>(head: seq<T>, tail: seq<T>, pos: T -> (int, int))
    requires forall a, b :: 0 <= a < b < |head| ==> RowMajor(pos(head[a]), pos(head[b]))
    requires forall a, b :: 0 <= a < b < |tail| ==> RowMajor(pos(tail[a]), pos(tail[b]))
    requires forall a, b :: 0 <= a < |head| && 0 <= b < |tail| ==> RowMajor(pos(head[a]), pos(tail[b]))
    ensures forall a, b :: 0 <= a < b < |head + tail| ==> RowMajor(pos((head + tail)[a]), pos((head + tail)[b]))
  {
  }

  lemma {:induction false} RowScanOrdered<T>(r: int, col: int, cols: int, f: (int, int) -> seq<T>, pos: T -> (int, int))
    requires Located(f, pos)
    ensures forall a :: 0 <= a < |RowScan(r, col, cols, f)| ==>
              pos(RowScan(r, col, cols, f)[a]).0 == r && col <= pos(RowScan(r, col, cols, f)[a]).1
    ensures forall a, b :: 0 <= a < b < |RowScan(r, col, cols, f)| ==>
              RowMajor(pos(RowScan(r, col, cols, f)[a]), pos(RowScan(r, col, cols, f)[b]))
    decreases cols - col
  {
    if col < cols {
      var head, tail := f(r, col), RowScan(r, col + 1, cols, f);
      var xs := head + tail;
      assert RowScan(r, col, cols, f) == xs;
      RowScanOrdered(r, col + 1, cols, f, pos);
      assert forall a :: 0 <= a < |head| ==> pos(head[a]) == (r, col) by {
        forall a | 0 <= a < |head| ensures pos(head[a]) == (r, col) {
          assert head[a] in f(r, col);
        }
      }
      forall a | 0 <= a < |xs| ensures pos(xs[a]).0 == r && col <= pos(xs[a]).1 {
        if a < |head| {
          assert xs[a] == head[a];
        } else {
          assert xs[a] == tail[a - |head|];
        }
      }
      ConcatOrdered(head, tail, pos);
    }
  }

  /** A scan lists what the cells contribute in row-major order of the cells. */
  lemma {:induction false} ScanOrdered<T>(r: int, rows: int, cols: int, f: (int, int) -> seq<T>, pos: T -> (int, int))
    requires Located(f, pos)
    ensures forall a :: 0 <= a < |Scan(r, rows, cols, f)| ==> r <= pos(Scan(r, rows, cols, f)[a]).0
    ensures forall a, b :: 0 <= a < b < |Scan(r, rows, cols, f)| ==>
              RowMajor(pos(Scan(r, rows, cols, f)[a]), pos(Scan(r, rows, cols, f)[b]))
    decreases rows - r
  {
    if r < rows {
      var head, tail := RowScan(r, 0, cols, f), Scan(r + 1, rows, cols, f);
      var xs := head + tail;
      assert Scan(r, rows, cols, f) == xs;
      RowScanOrdered(r, 0, cols, f, pos);
      ScanOrdered(r + 1, rows, cols, f, pos);
      forall a | 0 <= a < |xs| ensures r <= pos(xs[a]).0 {
        if a < |head| {
          assert xs[a] == head[a];
        } else {
          assert xs[a] == tail[a - |head|];
        }
      }
      ConcatOrdered(head, tail, pos);
    }
  }

  // ---------------------------------------------------------------------------
  // Positions in a table

  /** Place of the first `x` in `xs`, or `|xs|` when there is none. */
  function IndexOf<T(==)>(xs: seq<T>, x: T): (n: nat)
    ensures n <= |xs|
    ensures n < |xs| <==> x in xs
    ensures n < |xs| ==> xs[n] == x
  {
    if |xs| == 0 then 0 else if xs[0] == x then 0 else 1 + IndexOf(xs[1..], x)
  }

  /** No entry of `xs` occurs twice. */
  predicate Distinct<T(==)>(xs: seq<T>) {
    forall i, j :: 0 <= i < j < |xs| ==> xs[i] != xs[j]
  }

  /** A table without repeats stays so without its first entry, which occurs nowhere later. */
  lemma DistinctRest<T>(xs: seq<T>)
    requires Distinct(xs) && |xs| > 0
    ensures Distinct(xs[1..]) && xs[0] !in xs[1..]
  {
  }

  /** Every element of `xs` has its key in `table`. */
  ghost predicate KeyedIn<T, K>(xs: seq<T>, table: seq<K>, key: T -> K) {
    forall a :: 0 <= a < |xs| ==> key(xs[a]) in table
  }

  /** The keys of `xs` come in strictly increasing places of `table`. */
  ghost predicate InTableOrder<T, K>(xs: seq<T>, table: seq<K>, key: T -> K) {
    forall a, b :: 0 <= a < b < |xs| ==> IndexOf(table, key(xs[a])) < IndexOf(table, key(xs[b]))
  }

  /**
   * Generating from a table entry by entry keeps table order: at most one
   * element keyed by the first entry, followed by elements in table order
   * keyed by the later entries.
   */
  lemma ConsInTableOrder<T, K>(table: seq<K>, head: seq<T>, tail: seq<T>, key: T -> K)
    requires Distinct(table) && |table| > 0 && |head| <= 1
    requires forall a :: 0 <= a < |head| ==> key(head[a]) == table[0]
    requires KeyedIn(tail, table[1..], key) && InTableOrder(tail, table[1..], key)
    ensures KeyedIn(head + tail, table, key) && InTableOrder(head + tail, table, key)
  {
    DistinctRest(table);
    var xs := head + tail;
    forall a | 0 <= a < |xs| ensures key(xs[a]) in table && (a < |head| || IndexOf(table, key(xs[a])) == 1 + IndexOf(table[1..], key(xs[a]))) {
      if a < |head| {
        assert xs[a] == head[a];
      } else {
        assert xs[a] == tail[a - |head|];
        assert table == [table[0]] + table[1..];
      }
    }
    forall a, b | 0 <= a < b < |xs| ensures IndexOf(table, key(xs[a])) < IndexOf(table, key(xs[b])) {
      if a < |head| {
        assert xs[a] == head[a];
      } else {
        assert xs[a] == tail[a - |head|] && xs[b] == tail[b - |head|];
      }
    }
  }

  /** In a joined table without repeats, an entry of the second part is not in the first. */
  lemma DistinctParts<K>(t1: seq<K>, t2: seq<K>, k: K)
    requires Distinct(t1 + t2) && k in t2
    ensures k !in t1
  {
    var j := IndexOf(t2, k);
    forall i | 0 <= i < |t1| ensures t1[i] != k {
      assert (t1 + t2)[i] == t1[i] && (t1 + t2)[|t1| + j] == t2[j];
    }
  }

  /** Lists in the order of two tables concatenate to a list in the order of the joined table. */
  lemma AppendInTableOrder<T, K>(xs: seq<T>, ys: seq<T>, t1: seq<K>, t2: seq<K>, key: T -> K)
    requires Distinct(t1 + t2)
    requires KeyedIn(xs, t1, key) && InTableOrder(xs, t1, key)
    requires KeyedIn(ys, t2, key) && InTableOrder(ys, t2, key)
    ensures KeyedIn(xs + ys, t1 + t2, key) && InTableOrder(xs + ys, t1 + t2, key)
  {
    var zs := xs + ys;
    forall a | 0 <= a < |zs|
      ensures key(zs[a]) in t1 + t2
      ensures a < |xs| ==> IndexOf(t1 + t2, key(zs[a])) == IndexOf(t1, key(zs[a])) < |t1|
      ensures a >= |xs| ==> IndexOf(t1 + t2, key(zs[a])) == |t1| + IndexOf(t2, key(zs[a]))
    {
      var k := key(zs[a]);
      IndexOfAppend(t1, t2, k);
      if a < |xs| {
        assert zs[a] == xs[a];
      } else {
        assert zs[a] == ys[a - |xs|];
        DistinctParts(t1, t2, k);
      }
    }
    forall a, b | 0 <= a < b < |zs| ensures IndexOf(t1 + t2, key(zs[a])) < IndexOf(t1 + t2, key(zs[b])) {
      if b < |xs| {
        assert zs[a] == xs[a] && zs[b] == xs[b];
      } else if a >= |xs| {
        assert zs[a] == ys[a - |xs|] && zs[b] == ys[b - |xs|];
      }
    }
  }

  /** A rank that is the place of the key in the table increases along a list in table order. */
  lemma RankFollowsTable<T, K>(xs: seq<T>, table: seq<K>, key: T -> K, rank: T -> int)
    requires InTableOrder(xs, table, key)
    requires forall a :: 0 <= a < |xs| ==> rank(xs[a]) == IndexOf(table, key(xs[a]))
    ensures forall a, b :: 0 <= a < b < |xs| ==> rank(xs[a]) < rank(xs[b])
  {
  }

  /** In a table made of two parts, an entry of the first part keeps its place and one found only in the second comes after the whole first part. */
  lemma {:induction false} IndexOfAppend<T>(xs: seq<T>, ys: seq<T>, x: T)
    ensures x in xs ==> IndexOf(xs + ys, x) == IndexOf(xs, x)
    ensures x !in xs ==> IndexOf(xs + ys, x) == |xs| + IndexOf(ys, x)
    decreases |xs|
  {
    if |xs| > 0 {
      assert (xs + ys)[1..] == xs[1..] + ys;
      IndexOfAppend(xs[1..], ys, x);
    } else {
      assert xs + ys == ys;
    }
  }

  // ---------------------------------------------------------------------------
  // Order within one cell's contribution

  /** Within every cell's contribution, `rank` strictly increases. */
  ghost predicate Ranked<T>(f: (int, int) -> seq<T>, rank: T -> int) {
    forall i, k, a, b :: 0 <= a < b < |f(i, k)| ==> rank(f(i, k)[a]) < rank(f(i, k)[b])
  }

  /** Elements of `xs` that name the same cell come in strictly increasing `rank`. */
  ghost predicate RankedAt<T>(xs: seq<T>, pos: T -> (int, int), rank: T -> int) {
    forall a, b :: 0 <= a < b < |xs| && pos(xs[a]) == pos(xs[b]) ==> rank(xs[a]) < rank(xs[b])
  }

  /** Two lists ranked within each cell, naming disjoint cells, concatenate to a list ranked within each cell. */
  lemma ConcatRankedAt<T>(head: seq<T>, tail: seq<T>, pos: T -> (int, int), rank: T -> int)
    requires RankedAt(head, pos, rank) && RankedAt(tail, pos, rank)
    requires forall a, b :: 0 <= a < |head| && 0 <= b < |tail| ==> pos(head[a]) != pos(tail[b])
    ensures RankedAt(head + tail, pos, rank)
  {
    var xs := head + tail;
    forall a, b | 0 <= a < b < |xs| ensures pos(xs[a]) == pos(xs[b]) ==> rank(xs[a]) < rank(xs[b]) {
      if b < |head| {
        assert xs[a] == head[a] && xs[b] == head[b];
      } else if a >= |head| {
        assert xs[a] == tail[a - |head|] && xs[b] == tail[b - |head|];
      } else {
        assert xs[a] == head[a] && xs[b] == tail[b - |head|];
      }
    }
  }

  lemma {:induction false} RowScanRanked<T>(r: int, col: int, cols: int, f: (int, int) -> seq<T>, pos: T -> (int, int), rank: T -> int)
    requires Located(f, pos) && Ranked(f, rank)
    ensures RankedAt(RowScan(r, col, cols, f), pos, rank)
    decreases cols - col
  {
    if col < cols {
      var head, tail := f(r, col), RowScan(r, col + 1, cols, f);
      assert RowScan(r, col, cols, f) == head + tail;
      RowScanRanked(r, col + 1, cols, f, pos, rank);
      RowScanOrdered(r, col + 1, cols, f, pos);
      forall a, b | 0 <= a < |head| && 0 <= b < |tail| ensures pos(head[a]) != pos(tail[b]) {
        assert head[a] in f(r, col);
      }
      ConcatRankedAt(head, tail, pos, rank);
    }
  }

  /** A scan keeps each cell's contribution in its own order: elements naming the same cell come in increasing `rank`. */
  lemma {:induction false} ScanRanked<T>(r: int, rows: int, cols: int, f: (int, int) -> seq<T>, pos: T -> (int, int), rank: T -> int)
    requires Located(f, pos) && Ranked(f, rank)
    ensures RankedAt(Scan(r, rows, cols, f), pos, rank)
    decreases rows - r
  {
    if r < rows {
      var head, tail := RowScan(r, 0, cols, f), Scan(r + 1, rows, cols, f);
      assert Scan(r, rows, cols, f) == head + tail;
      RowScanRanked(r, 0, cols, f, pos, rank);
      RowScanOrdered(r, 0, cols, f, pos);
      ScanRanked(r + 1, rows, cols, f, pos, rank);
      ScanOrdered(r + 1, rows, cols, f, pos);
      ConcatRankedAt(head, tail, pos, rank);
    }
  }
}
