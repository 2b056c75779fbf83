/** Board geometry and the read-only queries of the solver: coordinates and
    linear indices, the row/column/subgrid index lists and value lists, the
    values present in a group, and the candidates of a cell. Everything here is
    a pure function of a board value. Coordinates follow the source: `x` is the
    column, `y` the row, and the linear index is `y * 9 + x`. */
module Board {

  datatype Option<T> = None | Some(value: T)

  /** A board: cells in row-major order, each empty (None) or holding a value. */
  type Cells = seq<Option<int>>

  predicate InBoard(x: int, y: int) {
    0 <= x < 9 && 0 <= y < 9
  }

  predicate Distinct(s: seq<int>) {
    forall a, b :: 0 <= a < b < |s| ==> s[a] != s[b]
  }

  predicate Increasing(s: seq<int>) {
    forall a, b :: 0 <= a < b < |s| ==> s[a] < s[b]
  }

  // ---------------------------------------------------------------------
  // Python list primitives
  // ---------------------------------------------------------------------

  /** `range(lo, hi)`. */
  function Range(lo: int, hi: int): (r: seq<int>)
    ensures |r| == if lo <= hi then hi - lo else 0
    ensures forall k :: 0 <= k < |r| ==> r[k] == lo + k
  {
    seq(if lo <= hi then hi - lo else 0, k => lo + k)
  }

  /** `range(lo, hi, 9)`. */
  function RangeStep9(lo: int, hi: int): (r: seq<int>)
    ensures forall k :: 0 <= k < |r| ==> lo <= r[k] < hi
    decreases hi - lo
  {
    if lo < hi then [lo] + RangeStep9(lo + 9, hi) else []
  }

  /** `s[i]` with Python's negative indexing. */
  function PyIndex<T>(s: seq<T>, i: int): T
    requires -|s| <= i < |s|
  {
    if i < 0 then s[|s| + i] else s[i]
  }

  predicate Indexable(n: nat, ids: seq<int>) {
    forall k :: 0 <= k < |ids| ==> -(n as int) <= ids[k] < n
  }

  /** `[s[i] for i in ids]`. */
  function Gather<T>(s: seq<T>, ids: seq<int>): (r: seq<T>)
    requires Indexable(|s|, ids)
    ensures |r| == |ids|
    ensures forall k :: 0 <= k < |ids| ==> r[k] == PyIndex(s, ids[k])
  {
    seq(|ids|, k requires 0 <= k < |ids| => PyIndex(s, ids[k]))
  }

  /** A slice bound as Python normalises it: negative counts from the end,
      then clamped to `0..n`. */
  function SliceBound(i: int, n: nat): (b: nat)
    ensures b <= n
  {
    if i < 0 then (if i + n < 0 then 0 else i + n) else if i > n then n else i
  }

  /** `s[lo:hi]`. */
  function PySlice<T>(s: seq<T>, lo: int, hi: int): seq<T> {
    var a, b := SliceBound(lo, |s|), SliceBound(hi, |s|);
    if a < b then s[a..b] else []
  }

  /** `s.remove(v)`: drops the first occurrence; Python raises when `v` is absent. */
  function RemoveFirst(s: seq<int>, v: int): (r: seq<int>)
    requires v in s
    ensures |r| == |s| - 1
    ensures forall w :: w in r ==> w in s
    ensures Distinct(s) ==> forall w :: w in r <==> w in s && w != v
  {
    if s[0] == v then
      assert Distinct(s) ==> v !in s[1..] by {
        if Distinct(s) {
          forall k | 0 <= k < |s[1..]| ensures s[1..][k] != v {
            assert s[0] != s[k + 1];
          }
        }
      }
      s[1..]
    else
      assert Distinct(s) ==> Distinct(s[1..]) by {
        if Distinct(s) {
          forall a, b | 0 <= a < b < |s[1..]| ensures s[1..][a] != s[1..][b] {
            assert s[a + 1] != s[b + 1];
          }
        }
      }
      [s[0]] + RemoveFirst(s[1..], v)
  }

  /** `[v for v in s if v not in bad]`. */
  function Keep(s: seq<int>, bad: set<int>): (r: seq<int>)
    ensures |r| <= |s|
    ensures forall v :: v in r ==> v in s
  {
    if s == [] then [] else (if s[0] in bad then [] else [s[0]]) + Keep(s[1..], bad)
  }

  /** Keep drops exactly the bad values and keeps the order. */
  lemma {:induction false} KeepSpec(s: seq<int>, bad: set<int>)
    ensures forall v :: v in Keep(s, bad) <==> v in s && v !in bad
    ensures Increasing(s) ==> Increasing(Keep(s, bad))
  {
    if s != [] {
      var rest := Keep(s[1..], bad);
      KeepSpec(s[1..], bad);
      if Increasing(s) {
        forall b | 0 <= b < |rest| ensures s[0] < rest[b] {
          assert rest[b] in s[1..];
        }
      }
    }
  }

  /** The concatenation computed by `merge_lists`. */
  function Flatten(lists: seq<seq<int>>): seq<int> {
    if lists == [] then [] else Flatten(lists[..|lists| - 1]) + lists[|lists| - 1]
  }

  /** A value is in the merged list exactly when it is in one of the lists. */
  lemma {:induction false} FlattenMembership(lists: seq<seq<int>>)
    ensures forall v :: v in Flatten(lists) <==> exists k :: 0 <= k < |lists| && v in lists[k]
  {
    if lists != [] {
      var init := lists[..|lists| - 1];
      FlattenMembership(init);
      assert forall k :: 0 <= k < |init| ==> init[k] == lists[k];
    }
  }

  /** `merge_lists`: appends the elements of every list, in order. */
  method MergeLists(lists: seq<seq<int>>) returns (result: seq<int>)
    ensures result == Flatten(lists)
  {
    result := [];
    for i := 0 to |lists|
      invariant result == Flatten(lists[..i])
    {
      for j := 0 to |lists[i]|
        invariant result == Flatten(lists[..i]) + lists[i][..j]
      {
        result := result + [lists[i][j]];
      }
      assert lists[i][..|lists[i]|] == lists[i];
      assert lists[..i + 1][..i] == lists[..i];
    }
    assert lists[..|lists|] == lists;
  }

  // ---------------------------------------------------------------------
  // Coordinates
  // ---------------------------------------------------------------------

  /** `coordinate_to_index(x, y)`: column `x`, row `y`. */
  function CoordinateToIndex(x: int, y: int): (i: int)
    ensures InBoard(x, y) ==> 0 <= i < 81 && i / 9 == y && i % 9 == x
  {
    y * 9 + x
  }

  /** `index_to_coordinate(i)`: the pair (row, column), the opposite order of
      CoordinateToIndex's arguments. Python's `//` and `%` round towards
      negative infinity; for the positive divisor 9 so do Dafny's. */
  function IndexToCoordinate(i: int): (rc: (int, int))
    ensures 0 <= rc.1 < 9
    ensures CoordinateToIndex(rc.1, rc.0) == i
    ensures 0 <= i < 81 ==> InBoard(rc.1, rc.0)
  {
    (i / 9, i % 9)
  }

  lemma CoordinateRoundTrip(x: int, y: int)
    requires InBoard(x, y)
    ensures IndexToCoordinate(CoordinateToIndex(x, y)) == (y, x)
  {
  }

  /** `at(x, y)`: the cell at the coordinate, or None when the linear index
      falls outside the board. */
  function At(g: Cells, x: int, y: int): (r: Option<int>)
    ensures var i := CoordinateToIndex(x, y);
            (0 <= i < |g| ==> r == g[i]) && (!(0 <= i < |g|) ==> r == None)
  {
    var index := CoordinateToIndex(x, y);
    if index < 0 || index >= |g| then None else g[index]
  }

  lemma AtInBoard(g: Cells, x: int, y: int)
    requires |g| == 81 && InBoard(x, y)
    ensures 0 <= CoordinateToIndex(x, y) < 81
    ensures At(g, x, y) == g[CoordinateToIndex(x, y)]
  {
  }

  // ---------------------------------------------------------------------
  // Groups: index lists
  // ---------------------------------------------------------------------

  /** `row_indices(y)`. */
  function RowIndices(y: int): (r: seq<int>)
    ensures |r| == 9
    ensures 0 <= y < 9 ==> forall k :: 0 <= k < 9 ==> 0 <= r[k] < 81
  {
    Range(y * 9, y * 9 + 9)
  }

  /** `column_indices(x)` on a board of `n` cells. */
  function ColumnIndices(x: int, n: int): (r: seq<int>)
    ensures forall k :: 0 <= k < |r| ==> x <= r[k] < n
  {
    RangeStep9(x, n)
  }

  /** `subgrid_indices(x, y)`: the 3x3 block whose top-left cell is at column
      `3 * (x // 3)`, row `3 * (y // 3)`, listed column by column. */
  function SubgridIndices(x: int, y: int): (r: seq<int>)
    ensures |r| == 9
    ensures InBoard(x, y) ==> forall k :: 0 <= k < 9 ==> 0 <= r[k] < 81
  {
    var startX, startY := 3 * (x / 3), 3 * (y / 3);
    seq(9, k => CoordinateToIndex(startX + k / 3, startY + k % 3))
  }

  lemma {:induction false} RangeStep9Shape(lo: int, hi: int, m: nat)
    requires hi - 9 * m <= lo < hi - 9 * m + 9
    ensures |RangeStep9(lo, hi)| == m
    ensures forall k :: 0 <= k < m ==> RangeStep9(lo, hi)[k] == lo + 9 * k
    decreases m
  {
    if m > 0 {
      RangeStep9Shape(lo + 9, hi, m - 1);
    }
  }

  /** In a 9x9 board the row of `y` is the nine cells with `i / 9 == y`. */
  lemma RowIndicesShape(y: int)
    requires 0 <= y < 9
    ensures |RowIndices(y)| == 9 && Distinct(RowIndices(y))
    ensures forall i :: i in RowIndices(y) <==> 0 <= i < 81 && i / 9 == y
  {
    var r := RowIndices(y);
    forall i | 0 <= i < 81 && i / 9 == y ensures i in r {
      assert r[i - y * 9] == i;
    }
  }

  /** In a 9x9 board the column of `x` is the nine cells with `i % 9 == x`. */
  lemma ColumnIndicesShape(x: int)
    requires 0 <= x < 9
    ensures |ColumnIndices(x, 81)| == 9 && Distinct(ColumnIndices(x, 81))
    ensures forall i :: i in ColumnIndices(x, 81) <==> 0 <= i < 81 && i % 9 == x
  {
    RangeStep9Shape(x, 81, 9);
    var r := ColumnIndices(x, 81);
    forall i | 0 <= i < 81 && i % 9 == x ensures i in r {
      assert r[i / 9] == i;
    }
  }

  /** The subgrid of `(x, y)` is the nine cells in the same 3-column band and
      the same 3-row band. */
  lemma SubgridIndicesShape(x: int, y: int)
    requires InBoard(x, y)
    ensures |SubgridIndices(x, y)| == 9 && Distinct(SubgridIndices(x, y))
    ensures forall i :: i in SubgridIndices(x, y) <==>
              0 <= i < 81 && (i % 9) / 3 == x / 3 && (i / 9) / 3 == y / 3
  {
    var r := SubgridIndices(x, y);
    var startX, startY := 3 * (x / 3), 3 * (y / 3);
    forall k | 0 <= k < 9
      ensures 0 <= r[k] < 81 && (r[k] % 9) / 3 == x / 3 && (r[k] / 9) / 3 == y / 3
      ensures r[k] % 9 == startX + k / 3 && r[k] / 9 == startY + k % 3
    {
      SubgridEntry(x, y, k);
    }
    forall i | 0 <= i < 81 && (i % 9) / 3 == x / 3 && (i / 9) / 3 == y / 3
      ensures i in r
    {
      var dx, dy := i % 9 - startX, i / 9 - startY;
      SameBand(i % 9, x);
      SameBand(i / 9, y);
      DigitsBase3(dx, dy);
      assert r[dx * 3 + dy] == i;
    }
    forall a, b | 0 <= a < b < 9 ensures r[a] != r[b] {
      assert a / 3 != b / 3 || a % 3 != b % 3;
    }
  }

  /** Entry `k` of the subgrid list is column `k / 3`, row `k % 3` of the block. */
  lemma SubgridEntry(x: int, y: int, k: int)
    requires InBoard(x, y) && 0 <= k < 9
    ensures var r, startX, startY := SubgridIndices(x, y)[k], 3 * (x / 3), 3 * (y / 3);
            0 <= r < 81 && (r % 9) / 3 == x / 3 && (r / 9) / 3 == y / 3
            && r % 9 == startX + k / 3 && r / 9 == startY + k % 3
  {
  }

  lemma SameBand(a: int, b: int)
    requires 0 <= a && 0 <= b && a / 3 == b / 3
    ensures 3 * (b / 3) <= a < 3 * (b / 3) + 3
  {
  }

  lemma DigitsBase3(p: int, q: int)
    requires 0 <= p < 3 && 0 <= q < 3
    ensures (p * 3 + q) / 3 == p && (p * 3 + q) % 3 == q
  {
  }

  /** The three groups of an in-board cell each hold nine distinct in-board
      indices, among them the cell's own, so `.remove(index)` cannot fail. */
  lemma GroupsOfCell(x: int, y: int)
    requires InBoard(x, y)
    ensures var i := CoordinateToIndex(x, y);
            i in RowIndices(y) && i in ColumnIndices(x, 81) && i in SubgridIndices(x, y)
    ensures |RowIndices(y)| == 9 && Distinct(RowIndices(y))
    ensures |ColumnIndices(x, 81)| == 9 && Distinct(ColumnIndices(x, 81))
    ensures |SubgridIndices(x, y)| == 9 && Distinct(SubgridIndices(x, y))
    ensures forall i :: i in RowIndices(y) ==> 0 <= i < 81
    ensures forall i :: i in ColumnIndices(x, 81) ==> 0 <= i < 81
    ensures forall i :: i in SubgridIndices(x, y) ==> 0 <= i < 81
  {
    RowIndicesShape(y);
    ColumnIndicesShape(x);
    SubgridIndicesShape(x, y);
  }

  // ---------------------------------------------------------------------
  // Groups: values
  // ---------------------------------------------------------------------

  /** `row(y)`: the slice `grid[y*9 : y*9 + 9]`. */
  function Row(g: Cells, y: int): (r: Cells)
    ensures |g| == 81 && 0 <= y < 9 ==>
              |r| == 9 && forall k :: 0 <= k < 9 ==> r[k] == g[CoordinateToIndex(k, y)]
  {
    PySlice(g, y * 9, y * 9 + 9)
  }

  /** `column(x)`. */
  function Column(g: Cells, x: int): (r: Cells)
    requires Indexable(|g|, ColumnIndices(x, |g|))
    ensures |g| == 81 && 0 <= x < 9 ==>
              |r| == 9 && forall k :: 0 <= k < 9 ==> r[k] == g[CoordinateToIndex(x, k)]
  {
    if |g| == 81 && 0 <= x < 9 then
      RangeStep9Shape(x, |g|, 9);
      Gather(g, ColumnIndices(x, |g|))
    else
      Gather(g, ColumnIndices(x, |g|))
  }

  /** `subgrid(x, y)`. */
  function Subgrid(g: Cells, x: int, y: int): (r: Cells)
    requires Indexable(|g|, SubgridIndices(x, y))
    ensures |r| == 9
    ensures |g| == 81 && InBoard(x, y) ==>
              forall k :: 0 <= k < 9 ==>
                r[k] == g[CoordinateToIndex(3 * (x / 3) + k / 3, 3 * (y / 3) + k % 3)]
    ensures |g| == 81 && InBoard(x, y) ==> forall k :: 0 <= k < 9 ==> r[k] in g
  {
    Gather(g, SubgridIndices(x, y))
  }

  /** On a 9x9 board the row slice is exactly the cells at `row_indices`. */
  lemma RowIsRowIndices(g: Cells, y: int)
    requires |g| == 81 && 0 <= y < 9
    ensures Indexable(|g|, RowIndices(y))
    ensures Row(g, y) == Gather(g, RowIndices(y))
  {
  }

  /** `[value for value in cells if value]`: Python's truth test drops both
      None and 0. */
  function Present(cells: Cells): seq<int> {
    if cells == [] then []
    else (if cells[0].Some? && cells[0].value != 0 then [cells[0].value] else []) + Present(cells[1..])
  }

  /** The values present in a group are exactly its non-zero assigned values. */
  lemma {:induction false} PresentMembership(cells: Cells)
    ensures forall v :: v in Present(cells) <==> v != 0 && Some(v) in cells
  {
    if cells != [] {
      PresentMembership(cells[1..]);
      assert forall c :: c in cells <==> c == cells[0] || c in cells[1..];
    }
  }

  /** `in_row(y)`. */
  function InRow(g: Cells, y: int): (r: seq<int>)
    ensures forall v :: v in r <==> v != 0 && Some(v) in Row(g, y)
  {
    PresentMembership(Row(g, y));
    Present(Row(g, y))
  }

  /** `in_column(x)`. */
  function InColumn(g: Cells, x: int): (r: seq<int>)
    requires Indexable(|g|, ColumnIndices(x, |g|))
    ensures forall v :: v in r <==> v != 0 && Some(v) in Column(g, x)
  {
    PresentMembership(Column(g, x));
    Present(Column(g, x))
  }

  /** `in_subgrid(x, y)`. */
  function InSubgrid(g: Cells, x: int, y: int): (r: seq<int>)
    requires Indexable(|g|, SubgridIndices(x, y))
    ensures forall v :: v in r <==> v != 0 && Some(v) in Subgrid(g, x, y)
  {
    PresentMembership(Subgrid(g, x, y));
    Present(Subgrid(g, x, y))
  }

  // ---------------------------------------------------------------------
  // Candidates
  // ---------------------------------------------------------------------

  /** `list(range(1, 10))`. */
  function Digits(): (r: seq<int>)
    ensures |r| == 9 && Increasing(r)
    ensures forall v :: v in r <==> 1 <= v <= 9
  {
    var r := Range(1, 10);
    assert forall v :: 1 <= v <= 9 ==> v in r by {
      forall v | 1 <= v <= 9 ensures v in r {
        assert r[v - 1] == v;
      }
    }
    r
  }

  /** Every assigned value is in 0..9. A `0` is falsy in Python, so the group
      queries ignore it; any other value would make `candidates_at` raise. */
  predicate ValuesInRange(g: Cells) {
    forall i :: 0 <= i < |g| && g[i].Some? ==> 0 <= g[i].value <= 9
  }

  /** `in_row(y) + in_column(x) + in_subgrid(x, y)`: the values that rule a
      candidate out. */
  function Eliminated(g: Cells, x: int, y: int): (r: seq<int>)
    requires |g| == 81 && InBoard(x, y)
    ensures forall v :: v in r <==>
              v != 0 && (Some(v) in Row(g, y) || Some(v) in Column(g, x) || Some(v) in Subgrid(g, x, y))
  {
    InRow(g, y) + InColumn(g, x) + InSubgrid(g, x, y)
  }

  /** On a board whose values are in 0..9 every value that eliminates is a
      digit, so `options.remove` in `candidates_at` never raises. */
  lemma EliminatedAreDigits(g: Cells, x: int, y: int)
    requires |g| == 81 && InBoard(x, y) && ValuesInRange(g)
    ensures forall v :: v in Eliminated(g, x, y) ==> 1 <= v <= 9
  {
    var row, column, subgrid := Row(g, y), Column(g, x), Subgrid(g, x, y);
    forall k | 0 <= k < 9 ensures row[k] in g && column[k] in g {
      assert row[k] == g[CoordinateToIndex(k, y)];
      assert column[k] == g[CoordinateToIndex(x, k)];
    }
    forall v | v in Eliminated(g, x, y) ensures 1 <= v <= 9 {
      var cells := if Some(v) in row then row else if Some(v) in column then column else subgrid;
      var k :| 0 <= k < 9 && cells[k] == Some(v);
      assert Some(v) in g;
    }
  }

  /** `candidates_at(x, y)`: an assigned cell's own value; for an empty cell,
      the digits that occur in none of its row, column and subgrid. */
  function Candidates(g: Cells, x: int, y: int): (r: seq<int>)
    requires |g| == 81 && InBoard(x, y) && ValuesInRange(g)
    ensures At(g, x, y).Some? ==> r == [At(g, x, y).value]
    ensures At(g, x, y).None? ==> |r| <= 9 && forall v :: v in r ==> 1 <= v <= 9
  {
    match At(g, x, y)
    case Some(v) => [v]
    case None => Keep(Digits(), ValueSet(Eliminated(g, x, y)))
  }

  /** An empty cell's candidates are, in ascending order, exactly the digits
      missing from its row, its column and its subgrid. */
  lemma CandidatesSpec(g: Cells, x: int, y: int)
    requires |g| == 81 && InBoard(x, y) && ValuesInRange(g) && At(g, x, y).None?
    ensures forall v :: v in Candidates(g, x, y) <==> 1 <= v <= 9 && v !in Eliminated(g, x, y)
    ensures Increasing(Candidates(g, x, y))
  {
    KeepSpec(Digits(), set v | v in Eliminated(g, x, y));
  }

  /** Cell `i` lies in the row, the column or the subgrid of `(x, y)`. */
  predicate SharesGroup(i: int, x: int, y: int) {
    i / 9 == y || i % 9 == x || ((i % 9) / 3 == x / 3 && (i / 9) / 3 == y / 3)
  }

  /** A value is among the gathered cells exactly when some listed index
      holds it. */
  lemma GatherMembership(g: Cells, ids: seq<int>, w: Option<int>)
    requires forall k :: 0 <= k < |ids| ==> 0 <= ids[k] < |g|
    ensures w in Gather(g, ids) <==> exists i :: i in ids && g[i] == w
  {
    if w in Gather(g, ids) {
      var k :| 0 <= k < |ids| && Gather(g, ids)[k] == w;
      assert ids[k] in ids && g[ids[k]] == w;
    }
    if exists i :: i in ids && g[i] == w {
      var i :| i in ids && g[i] == w;
      var k :| 0 <= k < |ids| && ids[k] == i;
      assert Gather(g, ids)[k] == w;
    }
  }

  /** `candidates_at` for an empty cell, stated on the board alone: a value
      is a candidate exactly when it is a digit that no cell of the row, the
      column or the subgrid of `(x, y)` holds. */
  lemma CandidatesExcludeGroups(g: Cells, x: int, y: int, v: int)
    requires |g| == 81 && InBoard(x, y) && ValuesInRange(g) && At(g, x, y).None?
    ensures v in Candidates(g, x, y) <==>
              1 <= v <= 9 && forall i :: 0 <= i < 81 && SharesGroup(i, x, y) ==> g[i] != Some(v)
  {
    CandidatesSpec(g, x, y);
    RowIsRowIndices(g, y);
    RowIndicesShape(y);
    ColumnIndicesShape(x);
    SubgridIndicesShape(x, y);
    PresentMembership(Row(g, y));
    PresentMembership(Column(g, x));
    PresentMembership(Subgrid(g, x, y));
    GatherMembership(g, RowIndices(y), Some(v));
    GatherMembership(g, ColumnIndices(x, 81), Some(v));
    GatherMembership(g, SubgridIndices(x, y), Some(v));
    if 1 <= v <= 9 {
      if v in Eliminated(g, x, y) {
        var i :| (i in RowIndices(y) || i in ColumnIndices(x, 81) || i in SubgridIndices(x, y))
                 && g[i] == Some(v);
        assert 0 <= i < 81 && SharesGroup(i, x, y);
      } else {
        forall i | 0 <= i < 81 && SharesGroup(i, x, y) ensures g[i] != Some(v) {
          assert i in RowIndices(y) || i in ColumnIndices(x, 81) || i in SubgridIndices(x, y);
        }
      }
    }
  }

  /** Taking `v` out of the kept digits is keeping one more digit out. */
  lemma {:induction false} RemoveFromKept(s: seq<int>, bad: set<int>, v: int)
    requires Distinct(s) && v in s && v !in bad
    ensures v in Keep(s, bad)
    ensures RemoveFirst(Keep(s, bad), v) == Keep(s, bad + {v})
  {
    var tail := s[1..];
    DistinctTail(s);
    if s[0] != v {
      assert v in tail;
      RemoveFromKept(tail, bad, v);
      var kept := Keep(tail, bad);
      if s[0] !in bad {
        assert Keep(s, bad) == [s[0]] + kept;
        assert Keep(s, bad + {v}) == [s[0]] + Keep(tail, bad + {v});
        var both := [s[0]] + kept;
        assert both[0] == s[0] && both[1..] == kept;
      } else {
        assert Keep(s, bad) == kept;
        assert Keep(s, bad + {v}) == Keep(tail, bad + {v});
      }
    } else {
      KeepSkipsAbsent(tail, bad, v);
    }
  }

  /** The tail of a list without repeats has none either, and does not hold
      the head. */
  lemma DistinctTail(s: seq<int>)
    requires Distinct(s) && s != []
    ensures Distinct(s[1..]) && s[0] !in s[1..]
  {
    forall a, b | 0 <= a < b < |s[1..]| ensures s[1..][a] != s[1..][b] {
      assert s[a + 1] != s[b + 1];
    }
    forall k | 0 <= k < |s[1..]| ensures s[1..][k] != s[0] {
      assert s[0] != s[k + 1];
    }
  }

  /** `set(s)`: the values of a list. */
  function ValueSet(s: seq<int>): set<int> {
    set v | v in s
  }

  /** `list(set(s))`: the values of `s` without repeats. Python leaves the
      order of a set's elements to the implementation; this model lists
      them in the order of their first occurrence. */
  function Dedup(s: seq<int>): (r: seq<int>)
    ensures Distinct(r)
    ensures forall v :: v in r <==> v in s
  {
    if s == [] then []
    else
      var d, last := Dedup(s[..|s| - 1]), s[|s| - 1];
      assert forall v :: v in s <==> v in s[..|s| - 1] || v == last by {
        assert s == s[..|s| - 1] + [last];
      }
      if last in d then d else d + [last]
  }

  /** The elimination loop of `candidates_at`: `options.remove(value)` for
      every value of `invalid` in turn, starting from a list without repeats
      that holds all of them (the nine digits, there). Whatever the order of
      `invalid`, what remains is the start list without the invalid values,
      in its original order. */
  method RemoveAll(start: seq<int>, invalid: seq<int>) returns (options: seq<int>)
    requires Distinct(start) && Distinct(invalid)
    requires forall v :: v in invalid ==> v in start
    ensures options == Keep(start, ValueSet(invalid))
  {
    options := start;
    KeepNothing(start);
    assert ValueSet(invalid[..0]) == {};
    for i := 0 to |invalid|
      invariant options == Keep(start, ValueSet(invalid[..i]))
    {
      var value := invalid[i];
      ghost var removed := ValueSet(invalid[..i]);
      assert value !in removed by {
        forall k | 0 <= k < i ensures invalid[k] != value {
        }
      }
      RemoveFromKept(start, removed, value);
      options := RemoveFirst(options, value);
      assert ValueSet(invalid[..i + 1]) == removed + {value} by {
        assert invalid[..i + 1] == invalid[..i] + [value];
      }
    }
    assert invalid[..|invalid|] == invalid;
  }

  lemma {:induction false} KeepNothing(s: seq<int>)
    ensures Keep(s, {}) == s
  {
    if s != [] {
      KeepNothing(s[1..]);
    }
  }

  lemma {:induction false} KeepSkipsAbsent(s: seq<int>, bad: set<int>, v: int)
    requires v !in s
    ensures Keep(s, bad) == Keep(s, bad + {v})
  {
    if s != [] {
      KeepSkipsAbsent(s[1..], bad, v);
    }
  }

  // ---------------------------------------------------------------------
  // Empty cells
  // ---------------------------------------------------------------------

  /** `is_solved`: no cell is None. */
  function IsSolved(g: Cells): (r: bool)
    ensures r <==> None !in g
  {
    forall i :: 0 <= i < |g| ==> g[i].Some?
  }

  /** The number of empty cells. */
  function NoneCount(g: Cells): (n: nat)
    ensures n <= |g|
  {
    if g == [] then 0 else NoneCount(g[..|g| - 1]) + (if g[|g| - 1].None? then 1 else 0)
  }

  /** `is_solved` holds exactly when no cell is counted as empty. */
  lemma {:induction false} SolvedIffNoneCountZero(g: Cells)
    ensures IsSolved(g) <==> NoneCount(g) == 0
  {
    if g != [] {
      var init := g[..|g| - 1];
      SolvedIffNoneCountZero(init);
      assert forall i :: 0 <= i < |init| ==> init[i] == g[i];
    }
  }

  /** Filling one empty cell lowers the count by exactly one. */
  lemma {:induction false} NoneCountFill(g: Cells, i: int, v: int)
    requires 0 <= i < |g| && g[i].None?
    ensures NoneCount(g[i := Some(v)]) == NoneCount(g) - 1
  {
    var h := g[i := Some(v)];
    if i < |g| - 1 {
      assert h[..|h| - 1] == g[..|g| - 1][i := Some(v)];
      NoneCountFill(g[..|g| - 1], i, v);
    } else {
      assert h[..|h| - 1] == g[..|g| - 1];
    }
  }
}
