/** The solver object. A `Sudoku` owns its board and its candidate table and
    updates them in place; `Reduce` propagates constraints, `ExpandOptions`
    branches on the stored candidates and `Solve` runs the depth-first search
    over fresh objects. Each method is proved to compute exactly a function
    of `Board`, `Propagation` or `Search`: `CandidatesAt` computes
    `Candidates`, `PoolOf` computes `Pool`, `ScanValues` applies `LastOnly`
    through `Place`, `ReduceCell` computes `Step`, `SweepBoard` computes
    `Sweep`, `Reduce` computes `Propagation.Reduce`, `ExpandOptions` computes
    `Options`, `Solve` computes `Search.Solve`, and the constructor builds
    `InitialCandidates` when it is given no table. */
module Solver {
  import opened Board
  import opened Propagation
  import opened Search

  /** The objects hold, in order, the given states. */
  predicate Represents(objs: seq<Sudoku>, states: seq<State>)
    reads objs
  {
    |objs| == |states| &&
    forall k :: 0 <= k < |objs| ==>
      objs[k].grid == states[k].grid && objs[k].candidates == states[k].candidates
  }

  /** No object occurs twice. */
  predicate Unaliased(objs: seq<Sudoku>) {
    forall a, b :: 0 <= a < b < |objs| ==> objs[a] != objs[b]
  }

  lemma RepresentsPop(objs: seq<Sudoku>, states: seq<State>)
    requires Represents(objs, states) && Unaliased(objs) && objs != []
    ensures Represents(objs[..|objs| - 1], states[..|states| - 1])
    ensures Unaliased(objs[..|objs| - 1]) && objs[|objs| - 1] !in objs[..|objs| - 1]
    ensures objs[|objs| - 1].grid == states[|states| - 1].grid
    ensures objs[|objs| - 1].candidates == states[|states| - 1].candidates
  {
  }

  lemma RepresentsAppend(a: seq<Sudoku>, sa: seq<State>, b: seq<Sudoku>, sb: seq<State>)
    requires Represents(a, sa) && Represents(b, sb)
    requires Unaliased(a) && Unaliased(b) && forall o :: o in b ==> o !in a
    ensures Represents(a + b, sa + sb) && Unaliased(a + b)
  {
    forall i, j | 0 <= i < j < |a + b| ensures (a + b)[i] != (a + b)[j] {
      if j < |a| {
        assert (a + b)[i] == a[i] && (a + b)[j] == a[j];
      } else if i < |a| {
        assert (a + b)[i] == a[i] && a[i] in a;
        assert (a + b)[j] == b[j - |a|] && b[j - |a|] in b;
      } else {
        assert (a + b)[i] == b[i - |a|] && (a + b)[j] == b[j - |a|];
      }
    }
  }

  class Sudoku {
    var grid: Cells
    var candidates: seq<seq<int>>

    predicate Valid()
      reads this
    {
      Consistent(grid, candidates)
    }

    /** `Sudoku(grid, candidates)`: copies the board, and copies a non-empty
        candidate table or, without one, builds the default table. */
    constructor(g: Cells, given: seq<seq<int>>)
      requires |g| == 81 && ValuesInRange(g)
      requires given != [] ==> Consistent(g, given)
      ensures Valid()
      ensures grid == g
      ensures candidates == if given != [] then given else InitialCandidates(g)
    {
      grid := g;
      if given != [] {
        candidates := given;
      } else {
        var table: seq<seq<int>> := [];
        for index := 0 to |g|
          invariant table == InitialCandidates(g)[..index]
        {
          if g[index].None? {
            table := table + [Digits()];
          } else {
            table := table + [[g[index].value]];
          }
        }
        candidates := table;
        InitialConsistent(g);
      }
    }

    /** `candidates_at(x, y)`: starts from the nine digits and removes every
        value present in the row, column or subgrid, in whatever order the
        set of those values yields them. */
    method CandidatesAt(x: int, y: int) returns (options: seq<int>)
      requires Valid() && InBoard(x, y)
      ensures options == Candidates(grid, x, y)
    {
      var cell := At(grid, x, y);
      if cell.Some? {
        return [cell.value];
      }
      EliminatedAreDigits(grid, x, y);
      var digits := Digits();
      assert Distinct(digits);
      var invalidOptions := Dedup(Eliminated(grid, x, y));
      options := RemoveAll(digits, invalidOptions);
      assert ValueSet(invalidOptions) == ValueSet(Eliminated(grid, x, y));
    }

    /** `merge_lists([candidates[i] for i in ids])`. */
    method PoolOf(ids: seq<int>) returns (values: seq<int>)
      requires |candidates| == 81 && OnBoard(ids)
      ensures values == Pool(candidates, ids)
    {
      values := MergeLists(Gather(candidates, ids));
    }

    /** The scan `for value in range(1, 10)` of `reduce`: every digit missing
        from one of the three pools is written into cell `index`, so the
        last, largest one stays. */
    method ScanValues(index: int, rows: seq<int>, columns: seq<int>, subgrids: seq<int>, changed: bool)
      returns (changedOut: bool)
      requires Valid() && 0 <= index < 81
      modifies this
      ensures Valid()
      ensures var q := Pass(old(grid), old(candidates), changed);
              Pass(grid, candidates, changedOut) ==
                match LastOnly(rows, columns, subgrids, 10)
                case None => q
                case Some(v) => Place(q, index, v)
    {
      ghost var q := Pass(grid, candidates, changed);
      changedOut := changed;
      var rowCandidates := ValueSet(rows);
      var columnCandidates := ValueSet(columns);
      var subgridCandidates := ValueSet(subgrids);
      for value := 1 to 10
        invariant Valid()
        invariant Pass(grid, candidates, changedOut) ==
                    match LastOnly(rows, columns, subgrids, value)
                    case None => q
                    case Some(v) => Place(q, index, v)
      {
        var onlyCandidate := value !in rowCandidates || value !in columnCandidates
                             || value !in subgridCandidates;
        if onlyCandidate {
          grid := grid[index := Some(value)];
          candidates := candidates[index := [value]];
          changedOut := true;
        }
      }
    }

    /** The body of `reduce`'s inner loop at `(x, y)`, with the sweep's
        `continue_reducing` flag passed in and out; `ok` is false where
        `reduce` returns None. */
    method ReduceCell(x: int, y: int, changed: bool) returns (ok: bool, changedOut: bool)
      requires Valid() && InBoard(x, y)
      modifies this
      ensures Valid()
      ensures var r := Step(Pass(old(grid), old(candidates), changed), x, y);
              ok == r.Some? && (ok ==> Pass(grid, candidates, changedOut) == r.value)
    {
      if At(grid, x, y).Some? {
        return true, changed;
      }
      ok, changedOut := StoreCell(x, y, changed);
      if ok {
        changedOut := ScanCell(x, y, changedOut);
      }
    }

    /** Lines 78-90 of `reduce` at the empty cell `(x, y)`: the recomputed
        candidates are stored, a single one is placed; `ok` is false where
        `reduce` returns None. */
    method StoreCell(x: int, y: int, changed: bool) returns (ok: bool, changedOut: bool)
      requires Valid() && InBoard(x, y) && At(grid, x, y).None?
      modifies this
      ensures Valid()
      ensures ok == (Candidates(old(grid), x, y) != [])
      ensures ok ==> Pass(grid, candidates, changedOut) == Stored(Pass(old(grid), old(candidates), changed), x, y)
    {
      ghost var p := Pass(grid, candidates, changed);
      var index := CoordinateToIndex(x, y);
      var cs := CandidatesAt(x, y);
      candidates := candidates[index := cs];
      if |cs| == 0 {
        return false, changed;
      }
      changedOut := changed;
      if |cs| == 1 {
        var value := cs[0];
        grid := grid[index := Some(value)];
        candidates := candidates[index := [value]];
        changedOut := true;
      }
      ok := true;
      assert Pass(grid, candidates, changedOut) == Stored(p, x, y);
    }

    /** The hidden-single part of `reduce`'s inner loop at `(x, y)`: the pools
        of the other cells' stored candidates, then the scan over 1..9. */
    method ScanCell(x: int, y: int, changed: bool) returns (changedOut: bool)
      requires Valid() && InBoard(x, y)
      modifies this
      ensures Valid()
      ensures var q, i := Pass(old(grid), old(candidates), changed), CoordinateToIndex(x, y);
              Pass(grid, candidates, changedOut) ==
                match HiddenSingle(old(candidates), x, y)
                case None => q
                case Some(v) => Place(q, i, v)
    {
      var index := CoordinateToIndex(x, y);
      GroupsOfCell(x, y);
      var rows := PoolOf(Others(RowIndices(y), index));
      var columns := PoolOf(Others(ColumnIndices(x, |grid|), index));
      var subgrids := PoolOf(Others(SubgridIndices(x, y), index));
      changedOut := ScanValues(index, rows, columns, subgrids, changed);
    }

    /** One pass of `reduce`'s `while` loop: the cells in order, `x` outer
        and `y` inner, each through `ReduceCell`; `ok` is false where `reduce`
        returns None, and `changed` is the pass's `continue_reducing`. */
    method SweepBoard() returns (ok: bool, changed: bool)
      requires Valid()
      modifies this
      ensures Valid()
      ensures var out := Sweep(old(grid), old(candidates), 9, 0);
              ok == out.Some? && (ok ==> out.value == Pass(grid, candidates, changed))
    {
      ghost var gs, cs := grid, candidates;
      changed := false;
      for x := 0 to 9
        invariant Valid()
        invariant Sweep(gs, cs, x, 0) == Some(Pass(grid, candidates, changed))
      {
        ok, changed := SweepRow(x, changed, gs, cs);
        SweepRoundEnd(gs, cs, x);
        if !ok {
          SweepFailureSticks(gs, cs, x + 1, 0, 9, 0);
          return;
        }
      }
      ok := true;
    }

    /** `reduce`'s loop over `y` for one `x`, continuing the sweep that
        started from `gs`, `cs`. */
    method SweepRow(x: int, changed: bool, ghost gs: Cells, ghost cs: seq<seq<int>>)
      returns (ok: bool, changedOut: bool)
      requires Valid() && Consistent(gs, cs) && 0 <= x < 9
      requires Sweep(gs, cs, x, 0) == Some(Pass(grid, candidates, changed))
      modifies this
      ensures Valid()
      ensures ok == Sweep(gs, cs, x, 9).Some?
      ensures ok ==> Sweep(gs, cs, x, 9) == Some(Pass(grid, candidates, changedOut))
    {
      changedOut := changed;
      for y := 0 to 9
        invariant Valid()
        invariant Sweep(gs, cs, x, y) == Some(Pass(grid, candidates, changedOut))
      {
        SweepNext(gs, cs, x, y);
        ok, changedOut := ReduceCell(x, y, changedOut);
        if !ok {
          SweepFailureSticks(gs, cs, x, y + 1, x, 9);
          return;
        }
      }
      ok := true;
    }

    /** `reduce`: sweeps the board until a sweep assigns nothing; returns the
        object itself, or null where a cell has no candidate left. */
    method Reduce() returns (r: Sudoku?)
      requires Valid()
      modifies this
      ensures Valid()
      ensures r == null || r == this
      ensures var out := Propagation.Reduce(old(grid), old(candidates));
              (r == null <==> out.None?) && (r != null ==> out == Some(State(grid, candidates)))
    {
      ghost var target := Propagation.Reduce(grid, candidates);
      var continueReducing := true;
      while continueReducing
        invariant Valid()
        invariant continueReducing ==> Propagation.Reduce(grid, candidates) == target
        invariant !continueReducing ==> target == Some(State(grid, candidates))
        decreases if continueReducing then NoneCount(grid) + 1 else 0
      {
        ghost var gs, cs := grid, candidates;
        ReduceAfterSweep(gs, cs);
        var ok;
        ok, continueReducing := SweepBoard();
        if !ok {
          return null;
        }
      }
      return this;
    }

    /** `expand_options`: one new object per empty cell and stored candidate,
        `x` outer and `y` inner, each a copy of this one with that candidate
        placed; this object is left as it was. */
    method ExpandOptions() returns (options: seq<Sudoku>)
      requires Valid()
      ensures Represents(options, Options(State(grid, candidates), 9, 0))
      ensures forall o :: o in options ==> fresh(o)
      ensures Unaliased(options)
    {
      ghost var s := State(grid, candidates);
      options := [];
      for x := 0 to 9
        invariant Represents(options, Options(s, x, 0))
        invariant forall o :: o in options ==> fresh(o)
        invariant Unaliased(options)
      {
        options := ExpandRow(x, options, s);
        OptionsRoundEnd(s, x);
      }
    }

    /** `expand_options`' loop over `y` for one `x`: the options of those
        cells that are empty, in order, appended to those collected so far. */
    method ExpandRow(x: int, options: seq<Sudoku>, ghost s: State) returns (extended: seq<Sudoku>)
      requires Valid() && s == State(grid, candidates) && 0 <= x < 9
      requires Represents(options, Options(s, x, 0)) && Unaliased(options)
      ensures Represents(extended, Options(s, x, 9)) && Unaliased(extended)
      ensures forall o :: o in extended ==> o in options || fresh(o)
    {
      extended := options;
      for y := 0 to 9
        invariant Represents(extended, Options(s, x, y)) && Unaliased(extended)
        invariant forall o :: o in extended ==> o in options || fresh(o)
      {
        OptionsNext(s, x, y);
        if At(grid, x, y).None? {
          var index := CoordinateToIndex(x, y);
          var more := OptionsAt(index);
          RepresentsAppend(extended, Options(s, x, y), more, CellOptions(s, index));
          extended := extended + more;
        }
      }
    }

    /** `expand_options`' loop over the stored candidates of the empty cell
        `index`: one copy of this object per candidate, in stored order. */
    method OptionsAt(index: int) returns (cellOptions: seq<Sudoku>)
      requires Valid() && 0 <= index < 81
      ensures Represents(cellOptions, CellOptions(State(grid, candidates), index))
      ensures forall o :: o in cellOptions ==> fresh(o)
      ensures Unaliased(cellOptions)
    {
      ghost var s := State(grid, candidates);
      cellOptions := [];
      for j := 0 to |candidates[index]|
        invariant Represents(cellOptions, CellOptions(s, index)[..j])
        invariant forall o :: o in cellOptions ==> fresh(o)
        invariant Unaliased(cellOptions)
      {
        var option := Assign(index, candidates[index][j]);
        cellOptions := cellOptions + [option];
        assert CellOptions(s, index)[..j + 1] == CellOptions(s, index)[..j] + [Child(s, index, candidates[index][j])];
      }
      assert CellOptions(s, index)[..|candidates[index]|] == CellOptions(s, index);
    }

    /** The body of `expand_options`' innermost loop: a new object built
        from copies of this one's board and candidate table, in which the
        cell `index` holds `value` and has `[value]` as its candidates. */
    method Assign(index: int, value: int) returns (option: Sudoku)
      requires Valid() && 0 <= index < 81
      ensures fresh(option)
      ensures option.grid == grid[index := Some(value)]
      ensures option.candidates == candidates[index := [value]]
    {
      option := new Sudoku(grid, candidates);
      option.grid := option.grid[index := Some(value)];
      option.candidates := option.candidates[index := [value]];
    }

    /** `solve`: depth-first search from a fresh object for this board with
        the default candidate table; returns the first full board it reaches,
        or nothing once the stack is empty. */
    method Solve() returns (solutions: seq<Sudoku>)
      requires Valid()
      ensures Represents(solutions, Search.Solve(grid))
    {
      solutions := [];
      var start := new Sudoku(grid, []);
      var stack := [start];
      ghost var states := [State(start.grid, start.candidates)];
      InitialConsistent(grid);
      while stack != []
        invariant Represents(stack, states) && AllConsistent(states) && Unaliased(stack)
        invariant forall o :: o in stack ==> fresh(o)
        invariant Dfs(states) == Search.Solve(grid)
        decreases Weight(states)
      {
        assert stack[|stack| - 1] in stack;
        var solution;
        stack, solution, states := SolveStep(stack, states);
        if solution != null {
          solutions := [solution];
          return;
        }
      }
    }
  }

  /** One turn of `solve`'s loop: pops the last object, reduces it, and
      either hands it back as the solution when its board is full, or drops
      it when the reduction fails, or pushes its options. */
  method SolveStep(stack: seq<Sudoku>, ghost states: seq<State>)
    returns (rest: seq<Sudoku>, solution: Sudoku?, ghost restStates: seq<State>)
    requires stack != [] && Represents(stack, states) && AllConsistent(states) && Unaliased(stack)
    modifies stack[|stack| - 1]
    ensures Represents(rest, restStates) && AllConsistent(restStates) && Unaliased(rest)
    ensures forall o :: o in rest ==> o in stack || fresh(o)
    ensures solution != null ==> Dfs(states) == [State(solution.grid, solution.candidates)]
    ensures solution == null ==> Dfs(restStates) == Dfs(states) && Weight(restStates) < Weight(states)
  {
    var current := stack[|stack| - 1];
    RepresentsPop(stack, states);
    DfsStep(states);
    rest, restStates := stack[..|stack| - 1], states[..|states| - 1];
    var reduced := current.Reduce();
    assert Represents(rest, restStates);
    solution := null;
    if reduced == null {
      return;
    }
    if IsSolved(reduced.grid) {
      solution := reduced;
      return;
    }
    rest, restStates := PushExpansion(rest, restStates, reduced);
  }

  /** The push at the end of a turn of `solve`: every option of `node`
      appended to the stack, in the order `expand_options` returns them. */
  method PushExpansion(stack: seq<Sudoku>, ghost states: seq<State>, node: Sudoku)
    returns (pushed: seq<Sudoku>, ghost pushedStates: seq<State>)
    requires node.Valid() && Represents(stack, states) && Unaliased(stack)
    ensures pushedStates == states + Options(State(node.grid, node.candidates), 9, 0)
    ensures Represents(pushed, pushedStates) && Unaliased(pushed)
    ensures forall o :: o in pushed ==> o in stack || fresh(o)
  {
    var next := node.ExpandOptions();
    RepresentsAppend(stack, states, next, Options(State(node.grid, node.candidates), 9, 0));
    pushed, pushedStates := stack + next, states + Options(State(node.grid, node.candidates), 9, 0);
  }
}
