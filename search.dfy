/** What `solve` and `expand_options` compute, stated on values. The search
    keeps a stack of states, pops the last one, reduces it, stops at the first
    reduced board that is full, and otherwise pushes one option per empty cell
    and stored candidate. The `Sudoku.Solve` and `Sudoku.ExpandOptions`
    methods are proved to compute exactly `Solve` and `Options` below. */
module Search {
  import opened Board
  import opened Propagation

  // ---------------------------------------------------------------------
  // The starting state
  // ---------------------------------------------------------------------

  /** The candidate table the constructor builds when it is given none:
      all nine digits for an empty cell, the value itself for an assigned one. */
  function InitialCandidates(g: Cells): (c: seq<seq<int>>)
    ensures |c| == |g|
  {
    seq(|g|, i requires 0 <= i < |g| => if g[i].None? then Digits() else [g[i].value])
  }

  /** The default table meets the solver's invariant. */
  lemma InitialConsistent(g: Cells)
    requires |g| == 81 && ValuesInRange(g)
    ensures Consistent(g, InitialCandidates(g))
  {
    var c := InitialCandidates(g);
    forall i, v | 0 <= i < 81 && g[i].None? && v in c[i] ensures 1 <= v <= 9 {
      assert c[i] == Digits();
    }
  }

  // ---------------------------------------------------------------------
  // Branching
  // ---------------------------------------------------------------------

  /** The option that assigns `v` to the cell `i`: a copy of the state with
      that value placed and `[v]` as the cell's candidates. */
  function Child(s: State, i: int, v: int): State
    requires 0 <= i < |s.grid| && 0 <= i < |s.candidates|
  {
    State(s.grid[i := Some(v)], s.candidates[i := [v]])
  }

  /** The options for one cell, one per stored candidate, in stored order. */
  function CellOptions(s: State, i: int): (r: seq<State>)
    requires Consistent(s.grid, s.candidates) && 0 <= i < 81
    ensures |r| == |s.candidates[i]|
  {
    seq(|s.candidates[i]|, j requires 0 <= j < |s.candidates[i]| => Child(s, i, s.candidates[i][j]))
  }

  /** The options `expand_options` has collected at point `(x, y)` of its
      scan over the cells, `x` outer and `y` inner; assigned cells are
      skipped. The whole scan is `Options(s, 9, 0)`. */
  function Options(s: State, x: int, y: int): seq<State>
    requires Consistent(s.grid, s.candidates) && Position(x, y)
    decreases x, y
  {
    if y == 0 then
      if x == 0 then [] else Options(s, x - 1, 9)
    else
      var before := Options(s, x, y - 1);
      if At(s.grid, x, y - 1).None? then before + CellOptions(s, CoordinateToIndex(x, y - 1)) else before
  }

  /** The cell `(x, y)` adds its options if it is empty. */
  lemma OptionsNext(s: State, x: int, y: int)
    requires Consistent(s.grid, s.candidates) && InBoard(x, y)
    ensures At(s.grid, x, y).Some? ==> Options(s, x, y + 1) == Options(s, x, y)
    ensures At(s.grid, x, y).None? ==>
              Options(s, x, y + 1) == Options(s, x, y) + CellOptions(s, CoordinateToIndex(x, y))
  {
  }

  /** The end of one round of the outer loop is the start of the next. */
  lemma OptionsRoundEnd(s: State, x: int)
    requires Consistent(s.grid, s.candidates) && 0 <= x < 9
    ensures Options(s, x + 1, 0) == Options(s, x, 9)
  {
  }

  /** Option `o` assigns a stored candidate to an empty cell visited before
      point `(x, y)`. */
  ghost predicate Assigns(s: State, o: State, x: int, y: int)
    requires Consistent(s.grid, s.candidates)
  {
    exists a, b, v :: InBoard(a, b) && Visited(a, b, x, y) && At(s.grid, a, b).None?
                      && v in s.candidates[CoordinateToIndex(a, b)]
                      && o == Child(s, CoordinateToIndex(a, b), v)
  }

  /** An assignment to a cell visited before one point of the scan is one
      to a cell visited before every later point. */
  lemma AssignsLater(s: State, o: State, x: int, y: int, x': int, y': int)
    requires Consistent(s.grid, s.candidates) && Assigns(s, o, x, y)
    requires x < x' || (x == x' && y <= y')
    ensures Assigns(s, o, x', y')
  {
    var a, b, v :| InBoard(a, b) && Visited(a, b, x, y) && At(s.grid, a, b).None?
                   && v in s.candidates[CoordinateToIndex(a, b)]
                   && o == Child(s, CoordinateToIndex(a, b), v);
    assert Visited(a, b, x', y');
  }

  /** The options of the empty cell `(x, y)` are assignments to a cell
      visited before the next point. */
  lemma CellOptionAssigns(s: State, x: int, y: int, j: int)
    requires Consistent(s.grid, s.candidates) && InBoard(x, y) && At(s.grid, x, y).None?
    requires 0 <= j < |s.candidates[CoordinateToIndex(x, y)]|
    ensures Assigns(s, CellOptions(s, CoordinateToIndex(x, y))[j], x, y + 1)
  {
    var i := CoordinateToIndex(x, y);
    assert Visited(x, y, x, y + 1) && s.candidates[i][j] in s.candidates[i];
  }

  /** Every option up to point `(x, y)` assigns one of the stored candidates
      to one empty cell visited so far. */
  lemma {:induction false} OptionsSound(s: State, x: int, y: int)
    requires Consistent(s.grid, s.candidates) && Position(x, y)
    ensures forall o :: o in Options(s, x, y) ==> Assigns(s, o, x, y)
    decreases x, y
  {
    if y == 0 {
      if x > 0 {
        OptionsSound(s, x - 1, 9);
        forall o | o in Options(s, x, y) ensures Assigns(s, o, x, y) {
          AssignsLater(s, o, x - 1, 9, x, y);
        }
      }
    } else {
      OptionsSound(s, x, y - 1);
      var before := Options(s, x, y - 1);
      var here := if At(s.grid, x, y - 1).None? then CellOptions(s, CoordinateToIndex(x, y - 1)) else [];
      assert Options(s, x, y) == before + here;
      forall o | o in Options(s, x, y) ensures Assigns(s, o, x, y) {
        if o in before {
          AssignsLater(s, o, x, y - 1, x, y);
        } else {
          var j :| 0 <= j < |here| && here[j] == o;
          CellOptionAssigns(s, x, y - 1, j);
        }
      }
    }
  }

  /** Every assignment of a stored candidate to an empty cell visited before
      point `(x, y)` is an option. */
  lemma {:induction false} OptionsComplete(s: State, x: int, y: int)
    requires Consistent(s.grid, s.candidates) && Position(x, y)
    ensures forall a, b, v :: InBoard(a, b) && Visited(a, b, x, y) && At(s.grid, a, b).None?
                              && v in s.candidates[CoordinateToIndex(a, b)]
                              ==> Child(s, CoordinateToIndex(a, b), v) in Options(s, x, y)
    decreases x, y
  {
    if y == 0 {
      if x > 0 {
        OptionsComplete(s, x - 1, 9);
      }
    } else {
      OptionsComplete(s, x, y - 1);
      var i := CoordinateToIndex(x, y - 1);
      var here := if At(s.grid, x, y - 1).None? then CellOptions(s, i) else [];
      assert Options(s, x, y) == Options(s, x, y - 1) + here;
      forall a, b, v | InBoard(a, b) && Visited(a, b, x, y) && At(s.grid, a, b).None?
                       && v in s.candidates[CoordinateToIndex(a, b)]
        ensures Child(s, CoordinateToIndex(a, b), v) in Options(s, x, y)
      {
        if a == x && b == y - 1 {
          var j :| 0 <= j < |s.candidates[i]| && s.candidates[i][j] == v;
          assert here[j] == Child(s, i, v);
        }
      }
    }
  }

  /** Expanding the whole board yields exactly the assignments of a stored
      candidate to an empty cell. */
  lemma ExpandSpec(s: State)
    requires Consistent(s.grid, s.candidates)
    ensures forall o :: o in Options(s, 9, 0) <==>
              exists i, v :: 0 <= i < 81 && s.grid[i].None? && v in s.candidates[i] && o == Child(s, i, v)
  {
    OptionsSound(s, 9, 0);
    OptionsComplete(s, 9, 0);
    forall o | o in Options(s, 9, 0)
      ensures exists i, v :: 0 <= i < 81 && s.grid[i].None? && v in s.candidates[i] && o == Child(s, i, v)
    {
      assert Assigns(s, o, 9, 0);
      var a, b, v :| InBoard(a, b) && Visited(a, b, 9, 0) && At(s.grid, a, b).None?
                     && v in s.candidates[CoordinateToIndex(a, b)]
                     && o == Child(s, CoordinateToIndex(a, b), v);
      assert 0 <= CoordinateToIndex(a, b) < 81;
    }
    forall i, v | 0 <= i < 81 && s.grid[i].None? && v in s.candidates[i]
      ensures Child(s, i, v) in Options(s, 9, 0)
    {
      var (b, a) := IndexToCoordinate(i);
      assert InBoard(a, b) && Visited(a, b, 9, 0) && At(s.grid, a, b).None?;
    }
  }

  /** An option is a consistent state with one empty cell fewer that keeps
      every value of its parent. */
  lemma ChildSpec(s: State, i: int, v: int)
    requires Consistent(s.grid, s.candidates) && 0 <= i < 81 && s.grid[i].None? && v in s.candidates[i]
    ensures var o := Child(s, i, v);
            Consistent(o.grid, o.candidates) && Extends(s.grid, o.grid)
            && NoneCount(o.grid) == NoneCount(s.grid) - 1
  {
    NoneCountFill(s.grid, i, v);
  }

  /** Every option of a consistent state is consistent and keeps the
      parent's values. */
  lemma {:induction false} OptionsShape(s: State, x: int, y: int)
    requires Consistent(s.grid, s.candidates) && Position(x, y)
    ensures forall j :: 0 <= j < |Options(s, x, y)| ==>
              var o := Options(s, x, y)[j];
              Consistent(o.grid, o.candidates) && Extends(s.grid, o.grid)
    decreases x, y
  {
    if y == 0 {
      if x > 0 {
        OptionsShape(s, x - 1, 9);
      }
    } else {
      OptionsShape(s, x, y - 1);
      var i := CoordinateToIndex(x, y - 1);
      var before := Options(s, x, y - 1);
      var here := if At(s.grid, x, y - 1).None? then CellOptions(s, i) else [];
      assert Options(s, x, y) == before + here;
      forall j | |before| <= j < |Options(s, x, y)|
        ensures var o := Options(s, x, y)[j];
                Consistent(o.grid, o.candidates) && Extends(s.grid, o.grid)
      {
        assert Options(s, x, y)[j] == here[j - |before|];
        ChildSpec(s, i, s.candidates[i][j - |before|]);
      }
    }
  }

  /** Every option has one empty cell fewer than its parent. */
  lemma {:induction false} OptionsNoneCount(s: State, x: int, y: int)
    requires Consistent(s.grid, s.candidates) && Position(x, y)
    ensures forall j :: 0 <= j < |Options(s, x, y)| ==>
              NoneCount(Options(s, x, y)[j].grid) == NoneCount(s.grid) - 1
    decreases x, y
  {
    if y == 0 {
      if x > 0 {
        OptionsNoneCount(s, x - 1, 9);
      }
    } else {
      OptionsNoneCount(s, x, y - 1);
      var i := CoordinateToIndex(x, y - 1);
      var before := Options(s, x, y - 1);
      var here := if At(s.grid, x, y - 1).None? then CellOptions(s, i) else [];
      assert Options(s, x, y) == before + here;
      forall j | |before| <= j < |Options(s, x, y)|
        ensures NoneCount(Options(s, x, y)[j].grid) == NoneCount(s.grid) - 1
      {
        assert Options(s, x, y)[j] == here[j - |before|];
        NoneCountFill(s.grid, i, s.candidates[i][j - |before|]);
      }
    }
  }

  /** With at most nine candidates per empty cell, the scan up to point
      `(x, y)`, which has visited `9 * x + y` cells, yields at most nine
      options per visited cell. */
  lemma {:induction false} OptionsCount(s: State, x: int, y: int)
    requires Consistent(s.grid, s.candidates) && Position(x, y)
    requires forall i :: 0 <= i < 81 && s.grid[i].None? ==> |s.candidates[i]| <= 9
    ensures |Options(s, x, y)| <= 9 * (9 * x + y)
    decreases x, y
  {
    if y == 0 {
      if x > 0 {
        OptionsCount(s, x - 1, 9);
      }
    } else {
      OptionsCount(s, x, y - 1);
    }
  }

  // ---------------------------------------------------------------------
  // The search
  // ---------------------------------------------------------------------

  /** Every state on the stack meets the solver's invariant. */
  predicate AllConsistent(stack: seq<State>) {
    forall k :: 0 <= k < |stack| ==> Consistent(stack[k].grid, stack[k].candidates)
  }

  function Pow(b: nat, n: nat): (r: nat)
    ensures b >= 1 ==> r >= 1
  {
    if n == 0 then 1 else b * Pow(b, n - 1)
  }

  lemma {:induction false} PowMonotone(b: nat, n: nat, m: nat)
    requires b >= 1 && n <= m
    ensures Pow(b, n) <= Pow(b, m)
    decreases m
  {
    if n < m {
      PowMonotone(b, n, m - 1);
      var p := Pow(b, m - 1);
      assert Pow(b, m) == b * p;
      ScaleUp(b, p);
    }
  }

  lemma ScaleUp(b: nat, p: nat)
    requires b >= 1
    ensures p <= b * p
  {
    assert b * p == p + (b - 1) * p;
  }

  /** The termination measure of the search: a state with `n` empty cells
      weighs `730^n`, more than the at most 729 options it can expand to. */
  function Weight(stack: seq<State>): nat {
    if stack == [] then 0
    else Weight(stack[..|stack| - 1]) + Pow(730, NoneCount(stack[|stack| - 1].grid))
  }

  lemma {:induction false} WeightAppend(a: seq<State>, b: seq<State>)
    ensures Weight(a + b) == Weight(a) + Weight(b)
    decreases |b|
  {
    if b == [] {
      assert a + b == a;
    } else {
      var last := |b| - 1;
      var ab := a + b;
      assert ab[..|ab| - 1] == a + b[..last];
      assert ab[|ab| - 1] == b[last];
      WeightAppend(a, b[..last]);
      assert Weight(ab) == Weight(a + b[..last]) + Pow(730, NoneCount(b[last].grid));
      assert Weight(b) == Weight(b[..last]) + Pow(730, NoneCount(b[last].grid));
    }
  }

  /** `a` items of weight `p` each, added up one at a time. */
  function Times(a: nat, p: nat): nat {
    if a == 0 then 0 else Times(a - 1, p) + p
  }

  lemma {:induction false} WeightUniform(stack: seq<State>, n: nat)
    requires forall k :: 0 <= k < |stack| ==> NoneCount(stack[k].grid) == n
    ensures Weight(stack) == Times(|stack|, Pow(730, n))
    decreases |stack|
  {
    if stack != [] {
      WeightUniform(stack[..|stack| - 1], n);
    }
  }

  lemma {:induction false} TimesIsProduct(a: nat, p: nat)
    ensures Times(a, p) == a * p
    decreases a
  {
    if a > 0 {
      TimesIsProduct(a - 1, p);
      assert (a - 1) * p + p == a * p;
    }
  }

  lemma MulBound(a: nat, p: nat)
    requires a <= 729 && p >= 1
    ensures a * p < 730 * p
  {
  }

  /** At most 729 states with `n - 1` empty cells each weigh less than one
      state with `n`. */
  lemma WeightBelow(kids: seq<State>, n: nat)
    requires |kids| <= 729 && n >= 1
    requires forall k :: 0 <= k < |kids| ==> NoneCount(kids[k].grid) == n - 1
    ensures Weight(kids) < Pow(730, n)
  {
    var p := Pow(730, n - 1);
    WeightUniform(kids, n - 1);
    TimesIsProduct(|kids|, p);
    MulBound(|kids|, p);
  }

  /** The options of a reduced board that is not full weigh less than the
      board itself: at most 729 options, each with one empty cell fewer. */
  lemma KidsWeight(s: State)
    requires Consistent(s.grid, s.candidates) && !IsSolved(s.grid)
    requires forall i :: 0 <= i < 81 && s.grid[i].None? ==> |s.candidates[i]| <= 9
    ensures Weight(Options(s, 9, 0)) < Pow(730, NoneCount(s.grid))
  {
    var kids := Options(s, 9, 0);
    OptionsCount(s, 9, 0);
    assert |kids| <= 729;
    OptionsNoneCount(s, 9, 0);
    SolvedIffNoneCountZero(s.grid);
    WeightBelow(kids, NoneCount(s.grid));
  }

  /** Replacing a popped state by the options of its reduction lowers the
      weight of the stack. */
  lemma ExpansionDecreases(rest: seq<State>, top: State, s: State)
    requires Consistent(top.grid, top.candidates) && Reduce(top.grid, top.candidates) == Some(s)
    requires !IsSolved(s.grid)
    ensures Consistent(s.grid, s.candidates)
    ensures Weight(rest + Options(s, 9, 0)) < Weight(rest) + Pow(730, NoneCount(top.grid))
  {
    ReduceFixedPoint(top.grid, top.candidates);
    ReduceExtends(top.grid, top.candidates);
    forall i | 0 <= i < 81 && s.grid[i].None? ensures |s.candidates[i]| <= 9 {
      assert s.candidates[i] == Candidates(s.grid, i % 9, i / 9);
    }
    KidsWeight(s);
    WeightAppend(rest, Options(s, 9, 0));
    PowMonotone(730, NoneCount(s.grid), NoneCount(top.grid));
  }

  /** Pushing the options of a consistent state keeps the stack consistent. */
  lemma PushOptions(rest: seq<State>, s: State)
    requires AllConsistent(rest) && Consistent(s.grid, s.candidates)
    ensures AllConsistent(rest + Options(s, 9, 0))
  {
    OptionsShape(s, 9, 0);
    var next := rest + Options(s, 9, 0);
    forall k | |rest| <= k < |next| ensures Consistent(next[k].grid, next[k].candidates) {
      assert next[k] == Options(s, 9, 0)[k - |rest|];
    }
  }

  /** Popping keeps the invariant of the state popped and of the rest. */
  lemma Pop(stack: seq<State>)
    requires AllConsistent(stack) && stack != []
    ensures var top := stack[|stack| - 1];
            Consistent(top.grid, top.candidates) && AllConsistent(stack[..|stack| - 1])
    ensures Weight(stack) == Weight(stack[..|stack| - 1]) + Pow(730, NoneCount(stack[|stack| - 1].grid))
  {
  }

  /** The loop of `solve` on a stack of states: pop the last state, reduce
      it, drop it when the reduction fails, return it when it is full, and
      otherwise push its options. */
  function Dfs(stack: seq<State>): (r: seq<State>)
    requires AllConsistent(stack)
    ensures |r| <= 1
    ensures r != [] ==> Consistent(r[0].grid, r[0].candidates) && IsSolved(r[0].grid)
    decreases Weight(stack)
  {
    if stack == [] then []
    else
      var top, rest := stack[|stack| - 1], stack[..|stack| - 1];
      Pop(stack);
      match Reduce(top.grid, top.candidates)
      case None => Dfs(rest)
      case Some(s) =>
        if IsSolved(s.grid) then [s]
        else
          ExpansionDecreases(rest, top, s);
          PushOptions(rest, s);
          Dfs(rest + Options(s, 9, 0))
  }

  /** One turn of the loop: what becomes of the stack and of the search
      once the last state is popped and reduced. */
  lemma DfsStep(stack: seq<State>)
    requires AllConsistent(stack) && stack != []
    ensures var top, rest := stack[|stack| - 1], stack[..|stack| - 1];
            Consistent(top.grid, top.candidates) && AllConsistent(rest) &&
            match Reduce(top.grid, top.candidates)
            case None => Dfs(stack) == Dfs(rest) && Weight(rest) < Weight(stack)
            case Some(s) =>
              Consistent(s.grid, s.candidates) &&
              (IsSolved(s.grid) ==> Dfs(stack) == [s]) &&
              (!IsSolved(s.grid) ==>
                 AllConsistent(rest + Options(s, 9, 0)) &&
                 Dfs(stack) == Dfs(rest + Options(s, 9, 0)) &&
                 Weight(rest + Options(s, 9, 0)) < Weight(stack))
  {
    var top, rest := stack[|stack| - 1], stack[..|stack| - 1];
    Pop(stack);
    match Reduce(top.grid, top.candidates)
    case None =>
    case Some(s) =>
      if !IsSolved(s.grid) {
        ExpansionDecreases(rest, top, s);
        PushOptions(rest, s);
      }
  }

  /** `solve`: the search from a fresh object for the board, with the
      default candidate table. */
  function Solve(g: Cells): (r: seq<State>)
    requires |g| == 81 && ValuesInRange(g)
    ensures |r| <= 1
    ensures r != [] ==> IsSolved(r[0].grid) && Consistent(r[0].grid, r[0].candidates)
  {
    InitialConsistent(g);
    Dfs([State(g, InitialCandidates(g))])
  }

  /** Every board on the stack keeps the values of `g`. */
  predicate AllExtend(g: Cells, stack: seq<State>) {
    forall k :: 0 <= k < |stack| ==> Extends(g, stack[k].grid)
  }

  lemma PopExtends(g: Cells, stack: seq<State>)
    requires AllExtend(g, stack) && stack != []
    ensures Extends(g, stack[|stack| - 1].grid) && AllExtend(g, stack[..|stack| - 1])
  {
  }

  /** Whatever the search returns keeps every value of every board it
      started from: the clues are never overwritten. */
  lemma {:induction false} DfsKeepsClues(g: Cells, stack: seq<State>)
    requires AllConsistent(stack) && AllExtend(g, stack)
    ensures Dfs(stack) != [] ==> Extends(g, Dfs(stack)[0].grid)
    decreases Weight(stack)
  {
    if stack != [] {
      var top, rest := stack[|stack| - 1], stack[..|stack| - 1];
      Pop(stack);
      PopExtends(g, stack);
      match Reduce(top.grid, top.candidates)
      case None =>
        DfsKeepsClues(g, rest);
      case Some(s) =>
        ReduceExtends(top.grid, top.candidates);
        ExtendsTransitive(g, top.grid, s.grid);
        if !IsSolved(s.grid) {
          ExpansionDecreases(rest, top, s);
          PushOptions(rest, s);
          PushKeepsClues(g, rest, s);
          DfsKeepsClues(g, rest + Options(s, 9, 0));
        }
    }
  }

  /** Pushing the options of a state that keeps the clues keeps them too. */
  lemma PushKeepsClues(g: Cells, rest: seq<State>, s: State)
    requires Consistent(s.grid, s.candidates) && Extends(g, s.grid) && AllExtend(g, rest)
    ensures AllExtend(g, rest + Options(s, 9, 0))
  {
    OptionsShape(s, 9, 0);
    var kids := Options(s, 9, 0);
    var next := rest + kids;
    forall k | 0 <= k < |next| ensures Extends(g, next[k].grid) {
      if k >= |rest| {
        assert next[k] == kids[k - |rest|];
        ExtendsTransitive(g, s.grid, kids[k - |rest|].grid);
      }
    }
  }

  /** A solution keeps every clue of the puzzle, has no empty cell and
      meets the solver's invariant; there is at most one. */
  lemma SolveSpec(g: Cells)
    requires |g| == 81 && ValuesInRange(g)
    ensures |Solve(g)| <= 1
    ensures Solve(g) != [] ==>
              Extends(g, Solve(g)[0].grid) && IsSolved(Solve(g)[0].grid)
              && Consistent(Solve(g)[0].grid, Solve(g)[0].candidates)
  {
    InitialConsistent(g);
    DfsKeepsClues(g, [State(g, InitialCandidates(g))]);
  }

  /** A puzzle without an empty cell comes back as its own solution. */
  lemma SolveOfSolved(g: Cells)
    requires |g| == 81 && ValuesInRange(g) && IsSolved(g)
    ensures Solve(g) == [State(g, InitialCandidates(g))]
  {
    InitialConsistent(g);
    ReduceOfSolved(g, InitialCandidates(g));
  }
}
