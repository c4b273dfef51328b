# Exact backtracking Sudoku solver

This project models the solver `solve_sudoku` in `solve.py` and proves
properties of the model. The solver takes a 9x9 board, where 0 marks an
empty cell, and fills it in place. It works in two phases:

- **Setup scan.** It builds three 9x9 availability tables: `ROW`, `COL` and
  `BLK`. Entry `[x][n]` is true while digit `n + 1` does not occur in row,
  column or block `x`. The same scan lists the empty cells, in row-major
  order, in `missing`.
- **Backtracking search.** It uses `missing` as a stack. It pops a cell and
  tries digits 1..9 in order, but only digits that all three tables allow.
  It then recurses. When a branch fails it undoes the placement and the table
  entries. When no digit works it pushes the cell back and reports failure.

The model also covers two pieces of layout code from the same file:

- the block-by-block reading order of one of the puzzle pages, and its
  reverse;
- the split of a flat cell index into a row and a column.

Files:

- `sudoku.dfy` (module `Sudoku`) holds the rules of Sudoku on board values
  (`Grid = seq<seq<int>>`). It defines:
  - the block-index formula;
  - placing a digit;
  - what it means for a board to have no repeated digit in any row, column
    or block (`NoConflict`);
  - what a solved board is (`Solved`);
  - what it means for a board to extend the givens (`Extends`) and to
    complete them (`Completes`).

  It also proves the facts the solver relies on. For example, a solved board
  holds every digit in every row, column and block.
- `solver.dfy` (module `Solver`) is the imperative model of `solve_sudoku`.
  - The board is the caller's `array2<int>` and is changed in place.
  - The three tables are `array2<bool>` fields.
  - `missing` is a `seq` field that is popped and pushed.
  - The class `Backtracker` also has a ghost field `grid` that mirrors the
    board as a value.
  - Two invariants are stated as predicates. `TablesAgree` says entry
    `[x, n]` is true exactly when digit `n + 1` is absent from group `x`.
    `Frontier` says the stack lists exactly the empty cells, once each, in
    row-major order. Together they form `Valid()`.
  - The setup scan establishes `Valid()`, and every search step keeps it.
- `layout.dfy` (module `Layout`) models:
  - the block-order remap and the list-building loop that applies it;
  - the reshape to 9x9;
  - `divmod(idx, 9)`.

What is proved about the search:

- It only ever writes cells popped from `missing`, so every given digit is
  kept.
- It places a digit only where it does not repeat in the row, column or
  block. So when it succeeds, the board is full, and it is a valid solution
  exactly when the givens had no repeated digit.
- When it fails, the board, all three tables and `missing` are back to their
  values on entry.
- It is complete: a false result means that no solution extends the givens.
- An already-full board is returned unchanged, with a true result.

The source does not check the givens for repeated digits. With a repeated
given the search may still succeed, and it then leaves a full board that is
not a solution. The contract of `Solver.SolveSudoku` states this as an
if-and-only-if.

`solve_sudoku` at `solve.py:84` discards the result of `backtrack()`, so the
Python function returns `None`. `Solver.SolveSudoku` returns that discarded
boolean, which is the meaningful outcome.

## Model

| member | source | states |
|---|---|---|
| Sudoku.Block | solve.py:27-35 | The block index of a cell lies in 0..8. Its band is the cell's row / 3 and its stack is the cell's column / 3, matching the drawn 0..8 layout. |
| Sudoku.BlockIffSameBand | solve.py:27-35 | Two cells get the same block index exactly when they lie in the same band and the same stack of 3x3 blocks. |
| Sudoku.BlockCell | solve.py:27-35 | The k-th cell of block b lies in block b, and different k give different cells. So each block index names exactly nine cells. |
| Sudoku.Place | solve.py:66 | Writing a digit into a cell changes that cell and no other. |
| Sudoku.PlaceRowHas | solve.py:66-68 | Filling an empty cell with v makes v present in that cell's row. No other nonzero digit's presence changes in any row. This is why clearing `ROW[r][n]` is exactly the update the row table needs. |
| Sudoku.PlaceColHas | solve.py:66-68 | The same for columns and `COL[c][n]`. |
| Sudoku.PlaceBlockHas | solve.py:66-68 | The same for blocks and `BLK[(r // 3) * 3 + (c // 3)][n]`. |
| Sudoku.PlaceKeepsNoConflict | solve.py:65-68 | Placing a digit that the three tables allow keeps the board free of repeated digits. |
| Sudoku.ExtendsPlaced | solve.py:60-66 | Suppose a board keeps every filled cell of the board with one more digit placed in an empty cell. Then it keeps every filled cell of the original board too, so given digits are never overwritten. |
| Sudoku.ExtensionKeepsConflicts | solve.py:42-51 | If a board that extends the givens has no repeated digit, then neither do the givens. The search can never repair a repeated given. |
| Sudoku.CompletionAvoids | solve.py:65 | A digit already present in the row, column or block of an empty cell stands in that cell in no solution. |
| Sudoku.TableRulesOut | solve.py:65 | A digit the tables reject for a cell can appear there in no solution. Skipping it loses no solution. |
| Sudoku.SearchRulesOut | solve.py:71-77 | If the board with digit v placed at (r, c) has no solution, then no solution of the board has v at (r, c). Undoing a failed trial and moving on loses no solution. |
| Sudoku.SolvedGroups | solve.py:63-65 | A solved board holds every digit 1..9 in every row, column and block, and no two cells that share a row, column or block are equal. |
| Solver.FrontierScan | solve.py:42-51 | Scanning one more cell in row-major order appends it to the stack exactly when it is empty. The stack stays duplicate-free and ordered. |
| Solver.FrontierPop | solve.py:60 | The popped top of the stack is an empty cell. The rest of the stack is exactly the empty cells of the board once that cell is filled. |
| Solver.FrontierOfFull | solve.py:56-57 | A board with no empty cell has an empty stack. |
| Solver.PrefixEmpty | solve.py:23-25 | Before the scan no digit occurs in any group, so all-true tables agree with the unscanned board. |
| Solver.PrefixStep | solve.py:42-51 | The part of the board seen after one more scan step is the previous part with that cell's value placed. An empty cell adds nothing. |
| Solver.PrefixFull | solve.py:42-43 | After all 81 steps the scan has seen the whole board. |
| Solver.Mark | solve.py:47-48 | Clearing digit n + 1 for the row, column and block of an empty cell gives tables that agree with the board that has n + 1 in that cell. |
| Solver.Unmark | solve.py:77 | Setting the three entries back to true gives tables that agree with the board without the digit, when the digit was absent before. |
| Solver.ScanCell | solve.py:44-51 | One cell of the scan keeps both invariants: the tables agree with the part of the board seen so far, and the list holds exactly its empty cells. |
| Solver.ScanRow | solve.py:43-51 | One row of the scan keeps both invariants for the part of the board seen so far. |
| Solver.Scan | solve.py:23-51 | After the scan the three tables agree with the whole board. `missing` holds exactly the empty cells, each once, in row-major order. The tables are fresh and distinct. |
| Solver.Backtracker.constructor | solve.py:23-51 | The solver state after the setup scan is `Valid()`, and it mirrors the caller's board. |
| Solver.Backtracker.Restored | solve.py:76-82 | When the board value is back to its value on entry and the tables agree with it, every board and table entry equals its value on entry. |
| Solver.Backtracker.Backtrack | solve.py:54-82 | Keeps `Valid()` and never overwrites a given. On true, `missing` is empty, no cell is 0, and the board is solved if the givens had no conflict. On false, board, tables and `missing` equal their values on entry, and no solution exists. An empty stack returns true and changes nothing. |
| Solver.Backtracker.TryDigit | solve.py:65-77 | Assuming the tables allow digit n + 1 at the popped cell, it places the digit and searches on. On success the board is full and extends the placed board. On failure the state is back to the one on entry, and the placed board has no solution. |
| Solver.Backtracker.Assign | solve.py:66-68 | Writes n + 1 into the empty cell and clears the three table entries. The tables agree with the new board. |
| Solver.Backtracker.Unassign | solve.py:76-77 | Resets the cell to 0 and sets the three table entries back. The result is exactly the state the placement started from. |
| Solver.SolveSudoku | solve.py:12-84 | Keeps every given. On true, every cell holds 1..9, and the board is a solution exactly when the givens had no repeated digit. On false, the board is unchanged and no solution exists. A board with no empty cell yields true and is unchanged. |
| Layout.DivMod9 | solve.py:202 | Quotient and remainder of the flat index by 9, rounding down: `9 * r + c == idx` and `0 <= c < 9`. |
| Layout.DivMod9Cell | solve.py:202 | A flat index in 0..80 splits into a cell whose row-major index is that flat index. |
| Layout.DivMod9Index | solve.py:202 | Splitting the row-major index of a cell gives back that cell, so the split is a bijection onto the cells. |
| Layout.Flatten | solve.py:256-262 | The 81 cells of a board in row-major order. |
| Layout.Rows | solve.py:243 | An 81-cell list read as a 9x9 board, row by row. |
| Layout.RowsFlatten | solve.py:243 | Reshaping a flattened board gives back the board. |
| Layout.FlattenRows | solve.py:243 | Flattening a reshaped list gives back the list. |
| Layout.Remap | solve.py:238-243 | Row b of the remapped board is block b of the page's board, its cells listed row by row. |
| Layout.BlockOrder | solve.py:238-242 | The nested loops that extend a list with three-cell row slices yield exactly the flattened remap of the board. The same loops appear again at solve.py:250-254. |
| Layout.RemapInvolution | solve.py:248-254 | The remap applied twice is the identity, so writing the solution back by blocks reverses reading the page. |
| Layout.RemapSwapsRowsAndBlocks | solve.py:236-242 | A digit occurs in row b of the remapped board exactly when it occurs in block b of the page, and in block b of the remapped board exactly when it occurs in row b of the page. |
| Layout.PageRoundTrip | solve.py:238-254 | For an 81-cell page the following gives back the page's own list: read it by blocks, reshape to 9x9, and write it back by blocks. |

## Left out

- Browser automation is not modelled because it is I/O. This covers the Selenium web driver, `WebDriverWait`, reading cell values and ids from the page, and `cell.click()`.
- The keyboard busy-wait loops and `pyautogui` keystrokes are not modelled because they are input/output side effects of the operating system.
- Filling a flat 81-cell board from the page's cell ids is not modelled because it is page I/O. Only the index split at `solve.py:202` is modelled.
- `np.reshape` is modelled only as `Layout.Rows`, the row-by-row reshape. The solver takes a 9x9 array directly.
- The Killer Sudoku code is not modelled. It is dead code inside a string literal.
- The sample puzzle and the running-time remark about it are not modelled. A verifier cannot check running time.
- Solver.SolveSudoku: the board must hold values 0..9, a requirement the source does not check. A given of 10 or more would make the Python index out of range. A negative given would index the tables from the end.
- Solver.Backtracker.Backtrack: the Python inner function's loop body is split into `TryDigit`, `Assign` and `Unassign`, and the source's chained assignment to the three tables is split into three single updates. Neither split changes the order of writes to the board and tables that anything can observe.
- Python's recursion limit is not modelled. The recursion is at most 81 calls deep.
- Solver.Backtracker.TryDigit: on failure it promises only that the invariant holds and that the board value and the stack are back. The fact that every board and table entry is also back is stated on `Backtrack`, through `Restored`.
