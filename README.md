# Sudoku solver: a verified model

This project models the `Sudoku` class of `main.py`, a depth-first Sudoku
solver with constraint propagation. It models the board queries, the
candidate computation, the `reduce` fixed-point loop with its hidden-single
rule, the branching of `expand_options`, the explicit-stack search of `solve`,
and the module helper `merge_lists`.

The board is a sequence of 81 cells in row-major order. Each cell is `None` or
`Some(value)`. As in the source, `x` is the column, `y` is the row, and the
linear index is `y * 9 + x`.

The project has four modules.

- `Board` (board.dfy) holds the pure queries. These are coordinates and
  indices, `at`, the row, column and subgrid index lists and value lists, the
  `in_*` filters, `candidates_at` as a function, `is_solved`, and the list
  primitives the source relies on: `range`, slicing, `.remove`, `set`, and
  `merge_lists`.
- `Propagation` (propagation.dfy) states what `reduce` computes, on values.
  `Step` is the body of the inner loop for one cell. `Sweep(g, c, x, y)` is the
  state after the nested loops have reached cell `(x, y)`, with `x` outer and
  `y` inner. `Reduce` repeats sweeps until one makes no assignment, or until a
  cell has no candidate left.
- `Search` (search.dfy) states what `expand_options` and `solve` compute.
  `Options(s, x, y)` is the list of options collected up to cell `(x, y)`.
  `Dfs` is the stack search. Its termination measure gives a state with `n`
  empty cells the weight `730^n`.
- `Solver` (solver.dfy) holds the class `Sudoku`. Its fields `grid` and
  `candidates` are updated in place. `Reduce`, `ExpandOptions`, `Solve`,
  `CandidatesAt` and the constructor are methods with the source's loops. Each
  is proved to compute exactly a function above: `Reduce` computes
  `Propagation.Reduce`, `ExpandOptions` computes `Search.Options` of the whole
  board, `Solve` computes `Search.Solve`, `CandidatesAt` computes
  `Board.Candidates`, and the constructor builds `Search.InitialCandidates`
  when it is given no table.

The invariant of every object is `Consistent`:

- there are 81 cells and 81 candidate lists;
- assigned values are in 0..9;
- an assigned cell's candidates are exactly `[value]`;
- an empty cell's candidates are digits.

The constructor, `reduce` and `expand_options` all keep this invariant.

Quirks of the source are modelled as written:

- The hidden-single scan accepts a digit that is missing from the row pool OR
  the column pool OR the subgrid pool.
- The scan reads the other cells' stored candidates, which may be stale.
- When several digits qualify, the last (largest) one wins. It can overwrite a
  single candidate placed a moment earlier.
- `solve` stops at the first full board.

## Model

| member | source | states |
|---|---|---|
| Board.CoordinateToIndex | main.py:153-154 | for an on-board coordinate the index is in 0..80, and dividing it by 9 gives back the row and the column |
| Board.IndexToCoordinate | main.py:156-157 | the result is (row, column) in that order; converting it back with `coordinate_to_index` gives the index; an index in 0..80 gives an on-board coordinate |
| Board.CoordinateRoundTrip | main.py:153-157 | `index_to_coordinate(coordinate_to_index(x, y)) == (y, x)` on the board |
| Board.At | main.py:129-134 | the cell at the index when the index is inside the board, `None` otherwise |
| Board.AtInBoard | main.py:129-134 | for an on-board coordinate `at` is `grid[y*9+x]` |
| Board.RowIndices | main.py:168-169 | nine indices, all on the board for a row in 0..8 (`RowIndicesShape` says exactly which) |
| Board.ColumnIndices | main.py:171-172 | every index lies between `x` and the board's length (`ColumnIndicesShape` says exactly which) |
| Board.SubgridIndices | main.py:174-180 | nine indices, all on the board for an on-board cell (`SubgridIndicesShape` says exactly which) |
| Board.RowIndicesShape | main.py:168-169 | `row_indices(y)` is nine distinct indices, exactly those with `i // 9 == y` |
| Board.ColumnIndicesShape | main.py:171-172 | `column_indices(x)` on 81 cells is nine distinct indices, exactly those with `i % 9 == x` |
| Board.SubgridIndicesShape | main.py:174-180 | `subgrid_indices(x, y)` is nine distinct indices, exactly those in the same 3-column band and 3-row band as `(x, y)` |
| Board.GroupsOfCell | main.py:94-100 | the three groups of an on-board cell each hold nine distinct on-board indices, and the cell's own index is among them, so the three `.remove(index)` calls cannot fail |
| Board.RowIsRowIndices | main.py:182-183 | on an 81-cell board the `row(y)` slice is exactly the cells at `row_indices(y)` |
| Board.Row | main.py:182-183 | on an 81-cell board, the nine cells of row `y`, from left to right |
| Board.Column | main.py:185-186 | on an 81-cell board, the nine cells of column `x`, from top to bottom |
| Board.Subgrid | main.py:188-189 | on an 81-cell board, the nine cells of the 3x3 block of `(x, y)`: entry `k` is the cell `k / 3` columns right of and `k % 3` rows below the block's top-left corner `(3 * (x / 3), 3 * (y / 3))`, the order of `subgrid_indices` |
| Board.PresentMembership | main.py:159-166 | the `in_*` filters keep exactly the assigned values that are not 0 (Python's truth test drops `None` and `0`) |
| Board.Present | main.py:159-166 | the `[value for value in ... if value]` filter shared by `in_row`, `in_column` and `in_subgrid`, in cell order; no contract of its own: `PresentMembership` states that it keeps exactly the assigned values other than 0 |
| Board.InRow | main.py:159-160 | exactly the non-zero values assigned in row `y` |
| Board.InColumn | main.py:162-163 | exactly the non-zero values assigned in column `x` |
| Board.InSubgrid | main.py:165-166 | exactly the non-zero values assigned in the subgrid of `(x, y)` |
| Board.RemoveFirst | main.py:98-100 | `.remove(v)` shortens the list by one; on a list without repeats it removes exactly `v` |
| Board.Digits | main.py:140 | `list(range(1, 10))` is nine increasing values, exactly 1..9 |
| Board.EliminatedAreDigits | main.py:143-148 | on a board with values in 0..9, every value that eliminates a candidate is a digit, so `options.remove` never raises |
| Board.Eliminated | main.py:143-145 | the values `candidates_at` removes: exactly the non-zero values assigned in the row, the column or the subgrid of the cell |
| Board.Candidates | main.py:136-150 | an assigned cell's candidates are `[value]`; an empty cell has at most nine candidates, all digits |
| Board.CandidatesSpec | main.py:136-150 | an empty cell's candidates are in ascending order, and a digit is one exactly when it is not in the cell's row, column or subgrid |
| Board.CandidatesExcludeGroups | main.py:136-166 | for an empty cell, a value is a candidate exactly when it is a digit that no cell of the cell's row, column or subgrid holds |
| Board.KeepSpec | main.py:143-150 | filtering keeps exactly the values outside the removed set and keeps ascending order |
| Board.Dedup | main.py:143-145 | `list(set(...))` has no repeats and holds exactly the values of the list |
| Board.RemoveAll | main.py:140-150 | removing each invalid value in turn, in any order, leaves the start list minus the invalid values, in its original order |
| Board.RemoveFromKept | main.py:147-148 | one `.remove(v)` on the kept list keeps one more value out |
| Board.FlattenMembership | main.py:225-231 | a value is in the merged list exactly when it is in one of the lists |
| Board.Flatten | main.py:225-231 | the list `merge_lists` returns, the lists concatenated in order; no contract of its own: `FlattenMembership` gives its members and `MergeLists` proves the loop computes it |
| Board.MergeLists | main.py:225-231 | the loop builds the concatenation of all the lists, in order |
| Board.IsSolved | main.py:126-127 | true exactly when no cell is `None` |
| Board.SolvedIffNoneCountZero | main.py:126-127 | `is_solved` holds exactly when no cell is `None` |
| Board.NoneCountFill | main.py:86-90 | filling one empty cell lowers the number of empty cells by exactly one |
| Propagation.Others | main.py:98-100 | a group without the cell itself has only on-board indices |
| Propagation.RowPool | main.py:94-104 | the merged stored candidates of the other cells of the row, in index order; it has no contract of its own: `RowPoolMembership` states which values it holds, and `PoolsIgnoreOwnCell` and `HiddenSingleIsLargest` what the scan takes from it |
| Propagation.ColumnPool | main.py:94-108 | the same for the other cells of the column; no contract of its own, `ColumnPoolMembership` states which values it holds |
| Propagation.SubgridPool | main.py:94-112 | the same for the other cells of the subgrid; no contract of its own, `SubgridPoolMembership` states which values it holds |
| Propagation.Pool | main.py:102-112 | `merge_lists` over the stored candidates of the listed cells; no contract of its own: `PoolMembership` states which values it holds |
| Propagation.PoolMembership | main.py:102-112 | a value is in the pool exactly when one of the listed cells stores it among its candidates |
| Propagation.OthersPoolMembership | main.py:98-112 | after `.remove(index)`, the pool of a group holds a value exactly when some cell of the group other than the cell itself stores it |
| Propagation.RowPoolMembership | main.py:94-104 | `v` is in the row pool exactly when another cell of the row (`j // 9 == y`, `j != index`) stores `v` |
| Propagation.ColumnPoolMembership | main.py:94-108 | `v` is in the column pool exactly when another cell of the column (`j % 9 == x`, `j != index`) stores `v` |
| Propagation.SubgridPoolMembership | main.py:94-112 | `v` is in the subgrid pool exactly when another cell of the same 3-column and 3-row bands stores `v` |
| Propagation.OnlyCandidate | main.py:115-117 | `only_candidate`: the value is missing from the row pool OR the column pool OR the subgrid pool; no contract of its own: `LastOnlyIsLargest` states what the scan does with it |
| Propagation.Qualifies | main.py:94-117 | `only_candidate` at the cell, over its three pools; no contract of its own: `QualifiesSpec` says when it holds |
| Propagation.QualifiesSpec | main.py:94-117 | the scan accepts `v` exactly when, in the cell's row, its column or its subgrid, no other cell stores `v` among its candidates |
| Propagation.LastOnly | main.py:114-122 | a value the scan below `hi` leaves in the cell is a digit below `hi` (`LastOnlyIsLargest` says which one) |
| Propagation.LastOnlyIsLargest | main.py:114-122 | the scan below `hi` yields the largest digit accepted by the OR rule, and yields nothing exactly when no digit is accepted |
| Propagation.LastOnlyFinds | main.py:114-122 | when `v` is accepted and no larger digit is, the scan yields `v` |
| Propagation.HiddenSingle | main.py:114-122 | a value the scan places is a digit |
| Propagation.HiddenSingleIsLargest | main.py:94-122 | over the other cells' pooled candidates, the scan places the largest digit missing from the row pool OR the column pool OR the subgrid pool, and places nothing exactly when every digit is in all three pools |
| Propagation.PoolsIgnoreOwnCell | main.py:94-112 | the pools never read the cell's own candidates |
| Propagation.Store | main.py:78-80 | storing digits as an empty cell's candidates keeps the invariant |
| Propagation.Place | main.py:86-90 | placing a digit with `[digit]` as candidates keeps the invariant |
| Propagation.Stored | main.py:78-90 | the cell's recomputed candidates are stored and no other cell changes; a single candidate is placed; `changed` is set exactly when one was placed |
| Propagation.Step | main.py:73-122 | the step for one cell keeps the invariant when it succeeds |
| Propagation.StepFails | main.py:78-84 | a step fails exactly at an empty cell whose recomputed candidate list is empty |
| Propagation.StepSkipsAssigned | main.py:75-76 | a step at an assigned cell changes nothing |
| Propagation.StepWritesOnlyCell | main.py:73-122 | a step writes only the value and candidates of its own cell |
| Propagation.StepChanged | main.py:86-90 | the step sets `changed` exactly when it filled its cell, or when `changed` was already set |
| Propagation.StepFills | main.py:86-90 | a step only fills an empty cell, and only with a digit |
| Propagation.StepAtEmpty | main.py:78-122 | at an empty cell with candidates the step is the stored state, followed by the hidden single of the other cells' stored candidates |
| Propagation.StepPlacesHiddenSingle | main.py:94-122 | when some digit is accepted by the OR rule, the cell ends the step holding the largest accepted digit, with `[digit]` as its candidates, even over a single candidate just placed |
| Propagation.StepWithoutHiddenSingle | main.py:78-122 | when no digit is accepted, the step only stores the candidates and places a single one |
| Propagation.StepQuiet | main.py:78-122 | a step at an empty cell that leaves `changed` unset stored the recomputed candidates, and there were at least two |
| Propagation.Sweep | main.py:71-122 | every successful point of a sweep keeps the invariant |
| Propagation.SweepNext | main.py:71-76 | cell `(x, y)` is one more step on the sweep's state just before it |
| Propagation.SweepRoundEnd | main.py:71-72 | the end of one round of the outer loop is the start of the next |
| Propagation.FillKeepsSweepInvariant | main.py:86-90 | filling at most one empty cell with a digit, and recording that in `changed`, keeps the sweep invariant |
| Propagation.StepKeepsSweepInvariant | main.py:73-122 | each step keeps the sweep invariant |
| Propagation.SweepProgress | main.py:69-122 | a sweep only fills empty cells, with digits; `continue_reducing` is set exactly when the number of empty cells went down; an unset flag means the board is unchanged |
| Propagation.SweepFailureSticks | main.py:83-84 | once a step fails, the sweep has failed at every later point (the early `return None`) |
| Propagation.StepKeepsQuiet | main.py:78-122 | a step that assigns nothing adds its cell to the cells whose stored candidates are current |
| Propagation.QuietSweep | main.py:71-122 | a sweep that assigns nothing leaves every empty cell it visited with its recomputed candidates, at least two of them |
| Propagation.Reduce | main.py:65-124 | a successful reduction meets the invariant (its termination rests on `ReduceAfterSweep`: each repeated sweep fills at least one empty cell) |
| Propagation.ReduceAfterSweep | main.py:66-90 | a failed sweep fails the reduction; a sweep that assigned something strictly lowers the number of empty cells and reduction continues from it; a quiet sweep returns its state |
| Propagation.ReduceExtends | main.py:66-124 | `reduce` keeps every value assigned on entry, fills only empty cells, and fills them only with digits; the number of empty cells does not grow |
| Propagation.ReduceFixedPoint | main.py:68-124 | in the result of `reduce`, every empty cell stores exactly its candidates for the returned board, and has at least two |
| Propagation.SweepOfSolved | main.py:75-76 | a sweep over a full board changes nothing and leaves the flag unset |
| Propagation.ReduceOfSolved | main.py:65-124 | reducing a full board returns it unchanged |
| Propagation.ExtendsTransitive | main.py:66-124 | keeping the values of a board that keeps the values of another keeps the values of that other |
| Search.InitialConsistent | main.py:17-21 | the default table (all nine digits for an empty cell, `[value]` for an assigned one) meets the invariant |
| Search.InitialCandidates | main.py:17-21 | the default table has one entry per cell (`InitialConsistent` states that it meets the invariant) |
| Search.Child | main.py:57-60 | the option that places `v` in cell `i` with `[v]` as its candidates; no contract of its own: `ChildSpec` states that it keeps the invariant and the parent's values and has one empty cell fewer |
| Search.CellOptions | main.py:57-61 | one option per stored candidate of the cell |
| Search.Options | main.py:48-63 | the options collected up to point `(x, y)` of the scan; it has no contract of its own: `OptionsSound`, `OptionsComplete` and `ExpandSpec` state exactly which options it holds, `OptionsNext` their order |
| Search.OptionsNext | main.py:51-61 | an assigned cell adds no option; an empty cell adds its candidates' options, in stored order, after those collected so far |
| Search.OptionsRoundEnd | main.py:51-52 | the end of one round of the outer loop is the start of the next |
| Search.AssignsLater | main.py:51-61 | an option collected before one point of the scan is one of the options of every later point |
| Search.CellOptionAssigns | main.py:56-61 | each option of an empty cell assigns one of its stored candidates to it |
| Search.OptionsSound | main.py:48-63 | every option collected so far assigns a stored candidate to an empty cell visited so far |
| Search.OptionsComplete | main.py:48-63 | every assignment of a stored candidate to an empty cell visited so far is among the options |
| Search.ExpandSpec | main.py:48-63 | the options of the whole board are exactly the assignments of a stored candidate to an empty cell |
| Search.ChildSpec | main.py:58-60 | an option keeps the invariant and every value of its parent, and has one empty cell fewer |
| Search.OptionsShape | main.py:48-63 | every option keeps the invariant and the parent's values |
| Search.OptionsNoneCount | main.py:58-60 | every option has exactly one empty cell fewer than its parent |
| Search.OptionsCount | main.py:51-61 | with at most nine candidates per empty cell, there are at most nine options per visited cell |
| Search.KidsWeight | main.py:43-44 | the options of a reduced board that is not full weigh less than the board |
| Search.ExpansionDecreases | main.py:29-44 | replacing the popped state by the options of its reduction lowers the stack's weight, so the search ends |
| Search.PushOptions | main.py:43-44 | pushing the options keeps every state on the stack consistent |
| Search.Pop | main.py:30 | popping keeps the popped state and the rest consistent and takes the popped state's weight off |
| Search.Dfs | main.py:29-46 | the search returns at most one state, and a returned state is full and consistent |
| Search.Solve | main.py:24-46 | the search from the board with its default table returns at most one state, and a returned state is full and meets the invariant |
| Search.DfsStep | main.py:29-44 | one turn of the loop: a failed reduction drops the state; a full reduced board is the answer; otherwise the options are pushed and the stack's weight goes down |
| Search.PopExtends | main.py:30 | popping keeps the clue-preservation invariant for the popped state and for the rest |
| Search.DfsKeepsClues | main.py:24-46 | whatever the search returns keeps every value of the board it started from |
| Search.PushKeepsClues | main.py:43-44 | pushing the options of a clue-preserving state keeps clue preservation for the stack |
| Search.SolveSpec | main.py:24-46 | `solve` returns at most one board, and that board keeps every clue, is full and meets the invariant |
| Search.SolveOfSolved | main.py:24-46 | a puzzle without an empty cell is returned as its own solution |
| Solver.RepresentsPop | main.py:30 | popping an object keeps the correspondence between objects and states, and the popped object is not in the rest |
| Solver.RepresentsAppend | main.py:43-44 | appending fresh, distinct objects keeps the correspondence and keeps all objects distinct |
| Solver.Sudoku.constructor | main.py:5-21 | the board is copied; a non-empty table is copied, otherwise the default table is built; the invariant holds |
| Solver.Sudoku.CandidatesAt | main.py:136-150 | the elimination loop returns exactly `Candidates` for the cell |
| Solver.Sudoku.PoolOf | main.py:102-112 | the merged candidates of a list of cells |
| Solver.Sudoku.ScanValues | main.py:114-122 | the value loop leaves the cell as the last-wins scan says, and changes nothing else |
| Solver.Sudoku.ReduceCell | main.py:73-122 | the inner-loop body on the fields computes exactly `Step`, failing exactly where `Step` does |
| Solver.Sudoku.StoreCell | main.py:78-90 | at an empty cell, fails exactly when the recomputed candidate list is empty; otherwise the fields become exactly `Stored`: the candidates stored, a single one placed, the flag set exactly then |
| Solver.Sudoku.ScanCell | main.py:94-122 | the pools of the other cells' stored candidates followed by the 1..9 scan leave the fields as `HiddenSingle` of the current table says: unchanged when no digit is accepted, otherwise the largest accepted digit placed with `[digit]` and the flag set |
| Solver.Sudoku.SweepRow | main.py:72-122 | the loop over `y` carries the sweep from `(x, 0)` to `(x, 9)`, failing exactly where the sweep does |
| Solver.Sudoku.SweepBoard | main.py:69-122 | one pass of the nested loops computes exactly `Sweep` for the whole board |
| Solver.Sudoku.Reduce | main.py:65-124 | returns null exactly when `Reduce` fails; otherwise returns this object, holding exactly `Reduce`'s result; the invariant holds |
| Solver.Sudoku.ExpandOptions | main.py:48-63 | returns distinct fresh objects holding exactly `Options` of this object's state, in order; this object is unchanged |
| Solver.Sudoku.ExpandRow | main.py:52-61 | the loop over `y` appends the options of column `x`'s empty cells |
| Solver.Sudoku.OptionsAt | main.py:56-61 | one distinct fresh object per stored candidate of the cell, in order |
| Solver.Sudoku.Assign | main.py:58-60 | a fresh copy with the cell set to the value and `[value]` as its candidates |
| Solver.Sudoku.Solve | main.py:24-46 | the returned list holds objects whose states are exactly `Search.Solve` of this board |
| Solver.SolveStep | main.py:29-44 | one turn of the loop on objects: an object it hands back is exactly what the search of the stack returns; otherwise the search of the new stack returns the same as before and the stack's weight goes down |
| Solver.PushExpansion | main.py:43-44 | the stack grows by exactly the options of the reduced object, as fresh distinct objects |

## Left out

- `read_puzzle` and the `__main__` block: file input and printing.
  - The model takes the board as a parameter.
  - Parsing the characters of a file is not modelled.
- `matrix`, `__repr__` and `__str__`: text rendering only.
- The class-level `candidates` list is not modelled. The model gives every object its own 81-entry table.
  - In the source, an object built without a table has no list of its own. Its constructor appends one entry per cell to a list shared by all instances, and its `reduce` writes into entries 0..80 of that shared list.
  - In the first `solve` of the first object built without a table in a process, as in the `__main__` flow, entries 0..80 hold that board's default table when the root of the stack is reduced. For that call the model computes what the source computes.
  - After that, entries 0..80 hold what the last such reduction wrote. A second `solve` of the same object, or a `solve` of another puzzle in the same process, starts from that stale table. There an assigned cell's entry need not be `[value]`, and the hidden-single pools read stale lists.
  - This is a defect of the source. The model does not capture it, and for those later calls its results can differ from the source's.
- The `visited` set of `solve` is omitted.
  - `Sudoku` defines no equality or hash, so membership is by object identity.
  - Every popped object is fresh, so the check never filters anything.
- Validity of the returned board is not claimed. The OR-based hidden-single scan can place a digit that is already in the cell's row, column or subgrid, and `is_solved` checks only that no cell is empty.
- Idempotence of `reduce` is not claimed. The last sweep's pools may be stale, so a second `reduce` of its result can still place a hidden single.
- Solver.Sudoku.constructor, Search.Solve: require a board of exactly 81 cells, the 9x9 board the source's arithmetic assumes (`range(0, 9)` for both coordinates, index `y * 9 + x`).
  - The source accepts a list of any length from `read_puzzle`.
  - On other lengths `at` returns None past the end, and `column_indices` follows the list's length. The model does not cover such boards.
- Solver.Sudoku.constructor: requires assigned values in 0..9.
  - `read_puzzle` only yields such values. It converts one character at a time, and `int` of a single numeric character either gives the value of a decimal digit or raises.
  - A `0` is kept, and the `in_*` filters drop it as falsy.
  - Boards holding other values are not covered.
    - The source still handles some of them. A full board holding a `10` skips every cell in `reduce`, passes `is_solved`, and `solve` returns it.
    - It raises on others: `options.remove` fails in `candidates_at` when such a value shares a group with an empty cell that a sweep reaches.
- Solver.Sudoku.StoreCell, Solver.Sudoku.ReduceCell, Solver.Sudoku.Reduce: when they fail, the contracts promise only the invariant of the object's new state, not which cells were rewritten. The source returns None with the object partly reduced. `solve` then drops that object, so nothing reads that state.
- Board.Dedup: the model lists the values of `set(...)` in order of first occurrence, where Python leaves that order to the implementation. Board.RemoveAll shows the result of `candidates_at` does not depend on this order.
- Search.OptionsCount: bounds the number of options by nine per visited cell rather than stating the exact sum of the empty cells' candidate counts. Search.ExpandSpec states which options there are.
- Integer width is not an issue: every quantity stays within 0..81 or is a digit. The termination weight `730^n` is ghost.
- Structure added for the proofs:
  - Loops of the source that sit inside one method are factored into helper methods with their own contracts: `StoreCell` and `ScanCell` inside `ReduceCell`; `SweepRow` inside `SweepBoard`; `ExpandRow`, `OptionsAt` and `Assign` inside `ExpandOptions`; `SolveStep` and `PushExpansion` inside `Solve`.
  - The order of operations and every state change are as in the source.
