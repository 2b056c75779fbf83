/** What `reduce` computes, stated on values. One step processes one cell, a
    sweep runs the step over the 81 cells with `x` outer and `y` inner, and the
    reduction repeats sweeps until one makes no assignment or a step finds an
    empty cell without candidates. The `Sudoku.Reduce` method is proved to
    compute exactly `Reduce` below. */
module Propagation {
  import opened Board

  /** A solver state: the board and the stored candidates of every cell. */
  datatype State = State(grid: Cells, candidates: seq<seq<int>>)

  /** A state in the middle of a sweep, with the sweep's `continue_reducing`. */
  datatype Pass = Pass(grid: Cells, candidates: seq<seq<int>>, changed: bool)

  /** The invariant of a solver object: 81 cells and 81 candidate lists,
      assigned values in 0..9, an assigned cell's candidates exactly its
      value, an empty cell's candidates digits. */
  predicate Consistent(g: Cells, c: seq<seq<int>>) {
    && |g| == 81 && |c| == 81
    && ValuesInRange(g)
    && (forall i :: 0 <= i < 81 && g[i].Some? ==> c[i] == [g[i].value])
    && (forall i, v :: 0 <= i < 81 && g[i].None? && v in c[i] ==> 1 <= v <= 9)
  }

  // ---------------------------------------------------------------------
  // The hidden-single scan
  // ---------------------------------------------------------------------

  /** All indices are on the board. */
  predicate OnBoard(ids: seq<int>) {
    forall k :: 0 <= k < |ids| ==> 0 <= ids[k] < 81
  }

  /** `merge_lists([candidates[i] for i in ids])`. */
  function Pool(c: seq<seq<int>>, ids: seq<int>): seq<int>
    requires |c| == 81 && OnBoard(ids)
  {
    Flatten(Gather(c, ids))
  }

  /** The indices of a group without the cell itself (`.remove(index)`). */
  function Others(ids: seq<int>, index: int): (r: seq<int>)
    requires index in ids && forall i :: i in ids ==> 0 <= i < 81
    ensures OnBoard(r)
  {
    var r := RemoveFirst(ids, index);
    assert forall k :: 0 <= k < |r| ==> r[k] in r;
    r
  }

  /** The pooled stored candidates of the other cells in the row of `(x, y)`. */
  function RowPool(c: seq<seq<int>>, x: int, y: int): seq<int>
    requires |c| == 81 && InBoard(x, y)
  {
    GroupsOfCell(x, y);
    Pool(c, Others(RowIndices(y), CoordinateToIndex(x, y)))
  }

  /** The pooled stored candidates of the other cells in the column of `(x, y)`. */
  function ColumnPool(c: seq<seq<int>>, x: int, y: int): seq<int>
    requires |c| == 81 && InBoard(x, y)
  {
    GroupsOfCell(x, y);
    Pool(c, Others(ColumnIndices(x, 81), CoordinateToIndex(x, y)))
  }

  /** The pooled stored candidates of the other cells in the subgrid of `(x, y)`. */
  function SubgridPool(c: seq<seq<int>>, x: int, y: int): seq<int>
    requires |c| == 81 && InBoard(x, y)
  {
    GroupsOfCell(x, y);
    Pool(c, Others(SubgridIndices(x, y), CoordinateToIndex(x, y)))
  }

  /** `only_candidate`: the value is missing from the row pool OR the column
      pool OR the subgrid pool. */
  predicate OnlyCandidate(rows: seq<int>, cols: seq<int>, subs: seq<int>, v: int) {
    v !in rows || v !in cols || v !in subs
  }

  /** The value the scan `for value in range(1, hi)` leaves in the cell: the
      last, so the largest, qualifying one. */
  function LastOnly(rows: seq<int>, cols: seq<int>, subs: seq<int>, hi: int): (r: Option<int>)
    ensures r.Some? ==> 1 <= r.value < hi
    decreases hi
  {
    if hi <= 1 then None
    else if OnlyCandidate(rows, cols, subs, hi - 1) then Some(hi - 1)
    else LastOnly(rows, cols, subs, hi - 1)
  }

  /** The value the hidden-single scan over 1..9 places in `(x, y)`, if any. */
  function HiddenSingle(c: seq<seq<int>>, x: int, y: int): (r: Option<int>)
    requires |c| == 81 && InBoard(x, y)
    ensures r.Some? ==> 1 <= r.value <= 9
  {
    LastOnly(RowPool(c, x, y), ColumnPool(c, x, y), SubgridPool(c, x, y), 10)
  }

  /** A digit the scan of `(x, y)` accepts. */
  predicate Qualifies(c: seq<seq<int>>, x: int, y: int, v: int)
    requires |c| == 81 && InBoard(x, y)
  {
    OnlyCandidate(RowPool(c, x, y), ColumnPool(c, x, y), SubgridPool(c, x, y), v)
  }

  /** A value is pooled exactly when one of the listed cells stores it. */
  lemma PoolMembership(c: seq<seq<int>>, ids: seq<int>, v: int)
    requires |c| == 81 && OnBoard(ids)
    ensures v in Pool(c, ids) <==> exists k :: 0 <= k < |ids| && v in c[ids[k]]
  {
    var lists := Gather(c, ids);
    FlattenMembership(lists);
    assert forall k :: 0 <= k < |ids| ==> lists[k] == c[ids[k]];
  }

  /** Pooling a group without the cell itself reads every other cell of the
      group and no other cell. */
  lemma OthersPoolMembership(c: seq<seq<int>>, ids: seq<int>, index: int, v: int)
    requires |c| == 81 && index in ids && Distinct(ids)
    requires forall i :: i in ids ==> 0 <= i < 81
    ensures v in Pool(c, Others(ids, index)) <==> exists j :: j in ids && j != index && v in c[j]
  {
    var others := Others(ids, index);
    PoolMembership(c, others, v);
    if v in Pool(c, others) {
      var k :| 0 <= k < |others| && v in c[others[k]];
      assert others[k] in others;
    }
    if exists j :: j in ids && j != index && v in c[j] {
      var j :| j in ids && j != index && v in c[j];
      assert j in others;
      var k :| 0 <= k < |others| && others[k] == j;
    }
  }

  /** `v` is in the row pool exactly when another cell of the row stores it. */
  lemma RowPoolMembership(c: seq<seq<int>>, x: int, y: int, v: int)
    requires |c| == 81 && InBoard(x, y)
    ensures v in RowPool(c, x, y) <==>
              exists j :: 0 <= j < 81 && j / 9 == y && j != CoordinateToIndex(x, y) && v in c[j]
  {
    GroupsOfCell(x, y);
    RowIndicesShape(y);
    OthersPoolMembership(c, RowIndices(y), CoordinateToIndex(x, y), v);
  }

  /** `v` is in the column pool exactly when another cell of the column stores it. */
  lemma ColumnPoolMembership(c: seq<seq<int>>, x: int, y: int, v: int)
    requires |c| == 81 && InBoard(x, y)
    ensures v in ColumnPool(c, x, y) <==>
              exists j :: 0 <= j < 81 && j % 9 == x && j != CoordinateToIndex(x, y) && v in c[j]
  {
    GroupsOfCell(x, y);
    ColumnIndicesShape(x);
    OthersPoolMembership(c, ColumnIndices(x, 81), CoordinateToIndex(x, y), v);
  }

  /** Cell `j` lies in the same 3-column band and 3-row band as `(x, y)`. */
  predicate SameSubgrid(j: int, x: int, y: int) {
    0 <= j < 81 && (j % 9) / 3 == x / 3 && (j / 9) / 3 == y / 3
  }

  /** `v` is in the subgrid pool exactly when another cell of the subgrid stores it. */
  lemma SubgridPoolMembership(c: seq<seq<int>>, x: int, y: int, v: int)
    requires |c| == 81 && InBoard(x, y)
    ensures v in SubgridPool(c, x, y) <==>
              exists j :: SameSubgrid(j, x, y) && j != CoordinateToIndex(x, y) && v in c[j]
  {
    GroupsOfCell(x, y);
    SubgridIndicesShape(x, y);
    OthersPoolMembership(c, SubgridIndices(x, y), CoordinateToIndex(x, y), v);
  }

  /** The scan accepts `v` at `(x, y)` exactly when, in the cell's row, its
      column or its subgrid, no other cell stores `v` among its candidates. */
  lemma QualifiesSpec(c: seq<seq<int>>, x: int, y: int, v: int)
    requires |c| == 81 && InBoard(x, y)
    ensures var i := CoordinateToIndex(x, y);
            Qualifies(c, x, y, v) <==>
              (forall j :: 0 <= j < 81 && j / 9 == y && j != i ==> v !in c[j])
              || (forall j :: 0 <= j < 81 && j % 9 == x && j != i ==> v !in c[j])
              || (forall j :: SameSubgrid(j, x, y) && j != i ==> v !in c[j])
  {
    RowPoolMembership(c, x, y, v);
    ColumnPoolMembership(c, x, y, v);
    SubgridPoolMembership(c, x, y, v);
  }

  lemma {:induction false} LastOnlyIsLargest(rows: seq<int>, cols: seq<int>, subs: seq<int>, hi: int)
    ensures var r := LastOnly(rows, cols, subs, hi);
            (r.Some? ==> 1 <= r.value < hi && OnlyCandidate(rows, cols, subs, r.value)
                         && forall w :: r.value < w < hi ==> !OnlyCandidate(rows, cols, subs, w))
            && (r.None? <==> forall w :: 1 <= w < hi ==> !OnlyCandidate(rows, cols, subs, w))
    decreases hi
  {
    if hi > 1 && !OnlyCandidate(rows, cols, subs, hi - 1) {
      LastOnlyIsLargest(rows, cols, subs, hi - 1);
    }
  }

  /** The scan stops at the largest qualifying digit below `hi`. */
  lemma {:induction false} LastOnlyFinds(rows: seq<int>, cols: seq<int>, subs: seq<int>, hi: int, v: int)
    requires 1 <= v < hi && OnlyCandidate(rows, cols, subs, v)
    requires forall w :: v < w < hi ==> !OnlyCandidate(rows, cols, subs, w)
    ensures LastOnly(rows, cols, subs, hi) == Some(v)
    decreases hi
  {
    if v < hi - 1 {
      LastOnlyFinds(rows, cols, subs, hi - 1, v);
    }
  }

  /** The scan places the largest digit that is missing from at least one of
      the three pools, and nothing when every digit is in all three. */
  lemma HiddenSingleIsLargest(c: seq<seq<int>>, x: int, y: int)
    requires |c| == 81 && InBoard(x, y)
    ensures var r := HiddenSingle(c, x, y);
            (r.Some? ==> 1 <= r.value <= 9 && Qualifies(c, x, y, r.value)
                         && forall w :: r.value < w <= 9 ==> !Qualifies(c, x, y, w))
            && (r.None? <==> forall w :: 1 <= w <= 9 ==> !Qualifies(c, x, y, w))
  {
    var rows, cols, subs := RowPool(c, x, y), ColumnPool(c, x, y), SubgridPool(c, x, y);
    LastOnlyIsLargest(rows, cols, subs, 10);
    assert forall w :: Qualifies(c, x, y, w) == OnlyCandidate(rows, cols, subs, w);
  }

  /** The pools never look at the cell's own candidates. */
  lemma PoolsIgnoreOwnCell(c: seq<seq<int>>, x: int, y: int, z: seq<int>)
    requires |c| == 81 && InBoard(x, y)
    ensures var i := CoordinateToIndex(x, y);
            RowPool(c[i := z], x, y) == RowPool(c, x, y)
            && ColumnPool(c[i := z], x, y) == ColumnPool(c, x, y)
            && SubgridPool(c[i := z], x, y) == SubgridPool(c, x, y)
  {
    var i := CoordinateToIndex(x, y);
    GroupsOfCell(x, y);
    var rows := Others(RowIndices(y), i);
    var cols := Others(ColumnIndices(x, 81), i);
    var subs := Others(SubgridIndices(x, y), i);
    assert i !in rows && i !in cols && i !in subs;
    assert Gather(c[i := z], rows) == Gather(c, rows) by {
      forall k | 0 <= k < |rows| ensures rows[k] != i { assert rows[k] in rows; }
    }
    assert Gather(c[i := z], cols) == Gather(c, cols) by {
      forall k | 0 <= k < |cols| ensures cols[k] != i { assert cols[k] in cols; }
    }
    assert Gather(c[i := z], subs) == Gather(c, subs) by {
      forall k | 0 <= k < |subs| ensures subs[k] != i { assert subs[k] in subs; }
    }
  }

  // ---------------------------------------------------------------------
  // One cell
  // ---------------------------------------------------------------------

  /** Only cells that were empty are filled, and only with digits. */
  predicate Extends(g: Cells, h: Cells) {
    |g| == |h| &&
    forall i :: 0 <= i < |g| ==>
      (g[i].Some? ==> h[i] == g[i]) && (g[i].None? && h[i].Some? ==> 1 <= h[i].value <= 9)
  }

  /** Filling cells twice is filling cells once. */
  lemma ExtendsTransitive(g: Cells, h: Cells, f: Cells)
    requires Extends(g, h) && Extends(h, f)
    ensures Extends(g, f)
  {
  }

  /** Stores `cs` as the candidates of the empty cell `i`. */
  function Store(p: Pass, i: int, cs: seq<int>): (r: Pass)
    requires Consistent(p.grid, p.candidates) && 0 <= i < 81 && p.grid[i].None?
    requires forall v :: v in cs ==> 1 <= v <= 9
    ensures Consistent(r.grid, r.candidates)
  {
    Pass(p.grid, p.candidates[i := cs], p.changed)
  }

  /** Places the digit `v` in cell `i`, with `[v]` as its candidates, and
      records that the sweep changed something. */
  function Place(p: Pass, i: int, v: int): (r: Pass)
    requires Consistent(p.grid, p.candidates) && 0 <= i < 81 && 1 <= v <= 9
    ensures Consistent(r.grid, r.candidates)
  {
    Pass(p.grid[i := Some(v)], p.candidates[i := [v]], true)
  }

  /** The cell state a step at an empty cell has reached before the
      hidden-single scan: its recomputed candidates stored and, when there is
      exactly one, that one placed. */
  function Stored(p: Pass, x: int, y: int): (q: Pass)
    requires Consistent(p.grid, p.candidates) && InBoard(x, y)
    requires At(p.grid, x, y).None? && Candidates(p.grid, x, y) != []
    ensures Consistent(q.grid, q.candidates)
    ensures var i, cs := CoordinateToIndex(x, y), Candidates(p.grid, x, y);
            && q.candidates == p.candidates[i := q.candidates[i]]
            && q.candidates[i] == cs
            && q.grid == p.grid[i := if |cs| == 1 then Some(cs[0]) else None]
            && q.changed == (p.changed || |cs| == 1)
  {
    var i, cs := CoordinateToIndex(x, y), Candidates(p.grid, x, y);
    var stored := Store(p, i, cs);
    assert cs[0] in cs;
    if |cs| == 1 then
      assert [cs[0]] == cs;
      Place(stored, i, cs[0])
    else stored
  }

  /** The body of `reduce`'s inner loop for the cell `(x, y)`: skip an assigned
      cell; otherwise store the recomputed candidates, fail when there are
      none, place a single candidate, then run the hidden-single scan on the
      pools of the other cells' stored candidates, whose last hit overwrites
      the cell. */
  function Step(p: Pass, x: int, y: int): (r: Option<Pass>)
    requires Consistent(p.grid, p.candidates) && InBoard(x, y)
    ensures r.Some? ==> Consistent(r.value.grid, r.value.candidates)
  {
    if At(p.grid, x, y).Some? then Some(p)
    else if Candidates(p.grid, x, y) == [] then None
    else
      var q := Stored(p, x, y);
      match HiddenSingle(q.candidates, x, y)
      case None => Some(q)
      case Some(v) => Some(Place(q, CoordinateToIndex(x, y), v))
  }

  /** A step fails exactly at an empty cell without candidates. */
  lemma StepFails(p: Pass, x: int, y: int)
    requires Consistent(p.grid, p.candidates) && InBoard(x, y)
    ensures Step(p, x, y).None? <==>
              p.grid[CoordinateToIndex(x, y)].None? && Candidates(p.grid, x, y) == []
  {
  }

  /** A step at an assigned cell changes nothing. */
  lemma StepSkipsAssigned(p: Pass, x: int, y: int)
    requires Consistent(p.grid, p.candidates) && InBoard(x, y)
    requires p.grid[CoordinateToIndex(x, y)].Some?
    ensures Step(p, x, y) == Some(p)
  {
  }

  /** A step writes only the value and the candidates of its own cell. */
  lemma StepWritesOnlyCell(p: Pass, x: int, y: int)
    requires Consistent(p.grid, p.candidates) && InBoard(x, y) && Step(p, x, y).Some?
    ensures var t, i := Step(p, x, y).value, CoordinateToIndex(x, y);
            t.grid == p.grid[i := t.grid[i]] && t.candidates == p.candidates[i := t.candidates[i]]
  {
  }

  /** `changed` records whether the step filled its cell. */
  lemma StepChanged(p: Pass, x: int, y: int)
    requires Consistent(p.grid, p.candidates) && InBoard(x, y) && Step(p, x, y).Some?
    ensures var t, i := Step(p, x, y).value, CoordinateToIndex(x, y);
            t.changed == (p.changed || t.grid[i] != p.grid[i])
  {
  }

  /** A step can only fill an empty cell, and only with a digit. */
  lemma StepFills(p: Pass, x: int, y: int)
    requires Consistent(p.grid, p.candidates) && InBoard(x, y) && Step(p, x, y).Some?
    ensures var t, i := Step(p, x, y).value, CoordinateToIndex(x, y);
            t.grid[i] != p.grid[i] ==> p.grid[i].None? && t.grid[i].Some? && 1 <= t.grid[i].value <= 9
  {
    var i := CoordinateToIndex(x, y);
    if p.grid[i].None? {
      var cs := Candidates(p.grid, x, y);
      assert cs[0] in cs;
    }
  }

  /** At an empty cell with candidates, the step is the stored state, then
      the hidden single of the other cells' stored candidates, if any. */
  lemma StepAtEmpty(p: Pass, x: int, y: int)
    requires Consistent(p.grid, p.candidates) && InBoard(x, y)
    requires At(p.grid, x, y).None? && Candidates(p.grid, x, y) != []
    ensures var q, i := Stored(p, x, y), CoordinateToIndex(x, y);
            Step(p, x, y) == match HiddenSingle(p.candidates, x, y)
                             case None => Some(q)
                             case Some(v) => Some(Pass(q.grid[i := Some(v)], q.candidates[i := [v]], true))
  {
    var q, i := Stored(p, x, y), CoordinateToIndex(x, y);
    PoolsIgnoreOwnCell(p.candidates, x, y, q.candidates[i]);
    assert HiddenSingle(q.candidates, x, y) == HiddenSingle(p.candidates, x, y);
  }

  /** The hidden-single rule with its quirks: when some digit is missing from
      the row pool OR the column pool OR the subgrid pool of the other cells'
      stored candidates, the cell ends the step holding the largest such
      digit, whatever its own candidates were and even over a single
      candidate just placed. */
  lemma StepPlacesHiddenSingle(p: Pass, x: int, y: int, v: int)
    requires Consistent(p.grid, p.candidates) && InBoard(x, y)
    requires At(p.grid, x, y).None? && Candidates(p.grid, x, y) != []
    requires 1 <= v <= 9 && Qualifies(p.candidates, x, y, v)
    requires forall w :: v < w <= 9 ==> !Qualifies(p.candidates, x, y, w)
    ensures Step(p, x, y).Some?
    ensures var t, i := Step(p, x, y).value, CoordinateToIndex(x, y);
            t.grid[i] == Some(v) && t.candidates[i] == [v] && t.changed
  {
    var c := p.candidates;
    var rows, cols, subs := RowPool(c, x, y), ColumnPool(c, x, y), SubgridPool(c, x, y);
    assert forall w :: Qualifies(c, x, y, w) == OnlyCandidate(rows, cols, subs, w);
    LastOnlyFinds(rows, cols, subs, 10, v);
    StepAtEmpty(p, x, y);
  }

  /** Without a hidden single the step only stores the recomputed candidates
      and places the value when there is exactly one. */
  lemma StepWithoutHiddenSingle(p: Pass, x: int, y: int)
    requires Consistent(p.grid, p.candidates) && InBoard(x, y)
    requires At(p.grid, x, y).None? && Candidates(p.grid, x, y) != []
    requires forall w :: 1 <= w <= 9 ==> !Qualifies(p.candidates, x, y, w)
    ensures Step(p, x, y) == Some(Stored(p, x, y))
  {
    StepAtEmpty(p, x, y);
    HiddenSingleIsLargest(p.candidates, x, y);
  }

  /** A step that leaves `changed` false at an empty cell stored the
      recomputed candidates, and there were at least two. */
  lemma StepQuiet(p: Pass, x: int, y: int)
    requires Consistent(p.grid, p.candidates) && InBoard(x, y)
    requires Step(p, x, y).Some? && !Step(p, x, y).value.changed
    requires At(p.grid, x, y).None?
    ensures var t, i := Step(p, x, y).value, CoordinateToIndex(x, y);
            t.candidates[i] == Candidates(p.grid, x, y) && |t.candidates[i]| >= 2
  {
    StepAtEmpty(p, x, y);
  }

  // ---------------------------------------------------------------------
  // One sweep
  // ---------------------------------------------------------------------

  /** A point of a sweep: the outer loop has finished `x` rounds and the
      inner loop `y` steps of the next; `(9, 0)` is the end of the sweep. */
  predicate Position(x: int, y: int) {
    0 <= x <= 9 && 0 <= y <= 9 && (x == 9 ==> y == 0)
  }

  /** Cell `(a, b)` comes before point `(x, y)` of a sweep. */
  predicate Visited(a: int, b: int, x: int, y: int) {
    a < x || (a == x && b < y)
  }

  /** The state of a sweep that starts on `(g, c)`, at point `(x, y)`. */
  function Sweep(g: Cells, c: seq<seq<int>>, x: int, y: int): (r: Option<Pass>)
    requires Consistent(g, c) && Position(x, y)
    ensures r.Some? ==> Consistent(r.value.grid, r.value.candidates)
    decreases x, y
  {
    if y == 0 then
      if x == 0 then Some(Pass(g, c, false)) else Sweep(g, c, x - 1, 9)
    else
      match Sweep(g, c, x, y - 1)
      case None => None
      case Some(p) => Step(p, x, y - 1)
  }

  /** The cell `(x, y)` is one more step on the state reached before it. */
  lemma SweepNext(g: Cells, c: seq<seq<int>>, x: int, y: int)
    requires Consistent(g, c) && InBoard(x, y) && Sweep(g, c, x, y).Some?
    ensures Sweep(g, c, x, y + 1) == Step(Sweep(g, c, x, y).value, x, y)
  {
  }

  /** The end of one round of the outer loop is the start of the next. */
  lemma SweepRoundEnd(g: Cells, c: seq<seq<int>>, x: int)
    requires Consistent(g, c) && 0 <= x < 9
    ensures Sweep(g, c, x + 1, 0) == Sweep(g, c, x, 9)
  {
  }

  /** What a sweep keeps true of its running state against its start board. */
  predicate SweepInvariant(g: Cells, t: Pass) {
    && Extends(g, t.grid)
    && (t.changed <==> NoneCount(t.grid) < NoneCount(g))
    && (!t.changed ==> t.grid == g)
  }

  /** Changing at most cell `i`, by filling it with a digit when it was
      empty, and recording exactly that in `changed`, keeps the invariant. */
  lemma FillKeepsSweepInvariant(g: Cells, p: Pass, t: Pass, i: int)
    requires |g| == 81 && |p.grid| == 81 && |t.grid| == 81 && 0 <= i < 81 && SweepInvariant(g, p)
    requires t.grid == p.grid[i := t.grid[i]]
    requires t.changed == (p.changed || t.grid[i] != p.grid[i])
    requires t.grid[i] != p.grid[i] ==> p.grid[i].None? && t.grid[i].Some? && 1 <= t.grid[i].value <= 9
    ensures SweepInvariant(g, t)
  {
    if t.grid[i] != p.grid[i] {
      NoneCountFill(p.grid, i, t.grid[i].value);
      assert Extends(p.grid, t.grid);
      ExtendsTransitive(g, p.grid, t.grid);
    } else {
      assert t.grid == p.grid;
    }
  }

  lemma StepKeepsSweepInvariant(g: Cells, p: Pass, x: int, y: int)
    requires Consistent(p.grid, p.candidates) && InBoard(x, y) && Step(p, x, y).Some?
    requires |g| == 81 && SweepInvariant(g, p)
    ensures SweepInvariant(g, Step(p, x, y).value)
  {
    StepWritesOnlyCell(p, x, y);
    StepChanged(p, x, y);
    StepFills(p, x, y);
    FillKeepsSweepInvariant(g, p, Step(p, x, y).value, CoordinateToIndex(x, y));
  }

  /** A sweep only fills empty cells, with digits; `continue_reducing` is
      set exactly when it filled at least one, and a sweep that leaves it
      unset has not changed the board. */
  lemma {:induction false} SweepProgress(g: Cells, c: seq<seq<int>>, x: int, y: int)
    requires Consistent(g, c) && Position(x, y) && Sweep(g, c, x, y).Some?
    ensures SweepInvariant(g, Sweep(g, c, x, y).value)
    decreases x, y
  {
    if y == 0 {
      if x > 0 {
        SweepProgress(g, c, x - 1, 9);
      }
    } else {
      SweepProgress(g, c, x, y - 1);
      StepKeepsSweepInvariant(g, Sweep(g, c, x, y - 1).value, x, y - 1);
    }
  }

  /** Once a step fails, the sweep stays failed at every later point. */
  lemma {:induction false} SweepFailureSticks(g: Cells, c: seq<seq<int>>, x: int, y: int, x': int, y': int)
    requires Consistent(g, c) && Position(x, y) && Position(x', y')
    requires x < x' || (x == x' && y <= y')
    requires Sweep(g, c, x, y).None?
    ensures Sweep(g, c, x', y').None?
    decreases x', y'
  {
    if y' == 0 {
      if x < x' {
        SweepFailureSticks(g, c, x, y, x' - 1, 9);
      }
    } else if x < x' || y < y' {
      SweepFailureSticks(g, c, x, y, x', y' - 1);
    }
  }

  /** Every empty cell of `g` visited before point `(x, y)` of a sweep has
      its recomputed candidates in `t`, at least two of them. */
  ghost predicate QuietSoFar(g: Cells, t: Pass, x: int, y: int)
    requires |g| == 81 && |t.candidates| == 81 && ValuesInRange(g)
  {
    forall a, b :: InBoard(a, b) && Visited(a, b, x, y) && g[CoordinateToIndex(a, b)].None? ==>
      t.candidates[CoordinateToIndex(a, b)] == Candidates(g, a, b)
      && |t.candidates[CoordinateToIndex(a, b)]| >= 2
  }

  /** A quiet step at cell `(x, y)` of a sweep over `g` extends `QuietSoFar`
      by that cell. */
  lemma StepKeepsQuiet(g: Cells, p: Pass, x: int, y: int)
    requires Consistent(p.grid, p.candidates) && InBoard(x, y) && p.grid == g
    requires Step(p, x, y).Some? && !Step(p, x, y).value.changed
    requires QuietSoFar(g, p, x, y)
    ensures QuietSoFar(g, Step(p, x, y).value, x, y + 1)
  {
    var t := Step(p, x, y).value;
    StepWritesOnlyCell(p, x, y);
    forall a, b | InBoard(a, b) && Visited(a, b, x, y + 1) && g[CoordinateToIndex(a, b)].None?
      ensures t.candidates[CoordinateToIndex(a, b)] == Candidates(g, a, b)
      ensures |t.candidates[CoordinateToIndex(a, b)]| >= 2
    {
      if a == x && b == y {
        StepQuiet(p, x, y);
      } else {
        assert CoordinateToIndex(a, b) != CoordinateToIndex(x, y);
      }
    }
  }

  /** A sweep that assigns nothing leaves every empty cell it has visited with
      its recomputed candidates, at least two of them. */
  lemma {:induction false} QuietSweep(g: Cells, c: seq<seq<int>>, x: int, y: int)
    requires Consistent(g, c) && Position(x, y)
    requires Sweep(g, c, x, y).Some? && !Sweep(g, c, x, y).value.changed
    ensures QuietSoFar(g, Sweep(g, c, x, y).value, x, y)
    decreases x, y
  {
    if y == 0 {
      if x > 0 {
        QuietSweep(g, c, x - 1, 9);
      }
    } else {
      var p := Sweep(g, c, x, y - 1).value;
      StepChanged(p, x, y - 1);
      SweepProgress(g, c, x, y - 1);
      QuietSweep(g, c, x, y - 1);
      StepKeepsQuiet(g, p, x, y - 1);
    }
  }

  // ---------------------------------------------------------------------
  // The reduction
  // ---------------------------------------------------------------------

  /** `reduce`: sweep until a sweep assigns nothing (the result) or a step
      fails (None). Each repeated sweep fills at least one empty cell. */
  function Reduce(g: Cells, c: seq<seq<int>>): (r: Option<State>)
    requires Consistent(g, c)
    ensures r.Some? ==> Consistent(r.value.grid, r.value.candidates)
    decreases NoneCount(g)
  {
    match Sweep(g, c, 9, 0)
    case None => None
    case Some(p) =>
      if p.changed then
        SweepProgress(g, c, 9, 0);
        Reduce(p.grid, p.candidates)
      else Some(State(p.grid, p.candidates))
  }

  /** One sweep of `reduce`: a failed sweep fails the reduction; a sweep that
      assigned something fills at least one empty cell and the reduction
      continues from its result; a quiet sweep ends the reduction. */
  lemma ReduceAfterSweep(g: Cells, c: seq<seq<int>>)
    requires Consistent(g, c)
    ensures Sweep(g, c, 9, 0).None? ==> Reduce(g, c).None?
    ensures Sweep(g, c, 9, 0).Some? ==>
              var p := Sweep(g, c, 9, 0).value;
              && (p.changed ==> Reduce(g, c) == Reduce(p.grid, p.candidates) && NoneCount(p.grid) < NoneCount(g))
              && (!p.changed ==> Reduce(g, c) == Some(State(p.grid, p.candidates)))
  {
    if Sweep(g, c, 9, 0).Some? {
      SweepProgress(g, c, 9, 0);
    }
  }

  /** `reduce` only ever fills cells that were empty on entry, and only with
      digits 1..9; cells assigned on entry keep their values. */
  lemma {:induction false} ReduceExtends(g: Cells, c: seq<seq<int>>)
    requires Consistent(g, c) && Reduce(g, c).Some?
    ensures Extends(g, Reduce(g, c).value.grid)
    ensures NoneCount(Reduce(g, c).value.grid) <= NoneCount(g)
    decreases NoneCount(g)
  {
    var p := Sweep(g, c, 9, 0).value;
    SweepProgress(g, c, 9, 0);
    if p.changed {
      ReduceExtends(p.grid, p.candidates);
      ExtendsTransitive(g, p.grid, Reduce(p.grid, p.candidates).value.grid);
    }
  }

  /** The result of `reduce` is a fixed point of candidate computation: every
      cell still empty stores exactly its candidates for the returned board,
      and has at least two. */
  lemma {:induction false} ReduceFixedPoint(g: Cells, c: seq<seq<int>>)
    requires Consistent(g, c) && Reduce(g, c).Some?
    ensures var s := Reduce(g, c).value;
            forall i :: 0 <= i < 81 && s.grid[i].None? ==>
              s.candidates[i] == Candidates(s.grid, i % 9, i / 9) && |s.candidates[i]| >= 2
    decreases NoneCount(g)
  {
    var p := Sweep(g, c, 9, 0).value;
    SweepProgress(g, c, 9, 0);
    if p.changed {
      ReduceFixedPoint(p.grid, p.candidates);
    } else {
      QuietSweep(g, c, 9, 0);
      forall i | 0 <= i < 81 && p.grid[i].None?
        ensures p.candidates[i] == Candidates(p.grid, i % 9, i / 9) && |p.candidates[i]| >= 2
      {
        var (b, a) := IndexToCoordinate(i);
        assert InBoard(a, b) && Visited(a, b, 9, 0);
      }
    }
  }

  /** A board with no empty cell passes through a sweep untouched. */
  lemma {:induction false} SweepOfSolved(g: Cells, c: seq<seq<int>>, x: int, y: int)
    requires Consistent(g, c) && IsSolved(g) && Position(x, y)
    ensures Sweep(g, c, x, y) == Some(Pass(g, c, false))
    decreases x, y
  {
    if y == 0 {
      if x > 0 {
        SweepOfSolved(g, c, x - 1, 9);
      }
    } else {
      SweepOfSolved(g, c, x, y - 1);
      assert g[CoordinateToIndex(x, y - 1)].Some?;
      StepSkipsAssigned(Pass(g, c, false), x, y - 1);
    }
  }

  /** Reducing a full board returns it unchanged. */
  lemma ReduceOfSolved(g: Cells, c: seq<seq<int>>)
    requires Consistent(g, c) && IsSolved(g)
    ensures Reduce(g, c) == Some(State(g, c))
  {
    SweepOfSolved(g, c, 9, 0);
  }
}
