/** The exact backtracking solver: a setup scan that builds the row, column and
    block availability tables and the list of empty cells, and a recursive
    search that fills the empty cells in place, undoing every failed guess. */
module Solver {
  import opened Sudoku

  /** The board held in a 9x9 array, read as a value. */
  ghost function GridOf(a: array2<int>): (g: Grid)
    reads a
    requires a.Length0 == 9 && a.Length1 == 9
    ensures IsGrid(g)
    ensures forall r, c :: IsCell(r, c) ==> g[r][c] == a[r, c]
  {
    seq(9, r requires 0 <= r < 9 reads a => seq(9, c requires 0 <= c < 9 reads a => a[r, c]))
  }

  lemma GridOfMirror(a: array2<int>, g: Grid)
    requires a.Length0 == 9 && a.Length1 == 9 && IsGrid(g)
    requires forall r, c :: IsCell(r, c) ==> a[r, c] == g[r][c]
    ensures GridOf(a) == g
  {
    var h := GridOf(a);
    forall r | 0 <= r < 9 ensures h[r] == g[r] {
      assert forall c :: 0 <= c < 9 ==> h[r][c] == g[r][c];
    }
  }

  /** The row table agrees with board g: entry [x, n] is true exactly when
      digit n + 1 does not occur in row x. */
  ghost predicate RowsAgree(row: array2<bool>, g: Grid)
    reads row
  {
    row.Length0 == 9 && row.Length1 == 9 && IsGrid(g)
    && forall x, n :: 0 <= x < 9 && 0 <= n < 9 ==> (row[x, n] <==> !RowHas(g, x, n + 1))
  }

  /** The same for the column table. */
  ghost predicate ColsAgree(col: array2<bool>, g: Grid)
    reads col
  {
    col.Length0 == 9 && col.Length1 == 9 && IsGrid(g)
    && forall x, n :: 0 <= x < 9 && 0 <= n < 9 ==> (col[x, n] <==> !ColHas(g, x, n + 1))
  }

  /** The same for the block table. */
  ghost predicate BlocksAgree(blk: array2<bool>, g: Grid)
    reads blk
  {
    blk.Length0 == 9 && blk.Length1 == 9 && IsGrid(g)
    && forall x, n :: 0 <= x < 9 && 0 <= n < 9 ==> (blk[x, n] <==> !BlockHas(g, x, n + 1))
  }

  /** The three availability tables agree with board g. */
  ghost predicate TablesAgree(row: array2<bool>, col: array2<bool>, blk: array2<bool>, g: Grid)
    reads row, col, blk
  {
    RowsAgree(row, g) && ColsAgree(col, g) && BlocksAgree(blk, g)
  }

  /** miss lists, once each and in row-major order, exactly the empty cells of g
      among the first k cells in row-major order. */
  ghost predicate Frontier(miss: seq<(int, int)>, g: Grid, k: int)
    requires IsGrid(g)
  {
    && (forall i :: 0 <= i < |miss| ==> IsCell(miss[i].0, miss[i].1) && Index(miss[i].0, miss[i].1) < k)
    && (forall i, j :: 0 <= i < j < |miss| ==> Index(miss[i].0, miss[i].1) < Index(miss[j].0, miss[j].1))
    && (forall r, c :: IsCell(r, c) && Index(r, c) < k ==> (g[r][c] == 0 <==> (r, c) in miss))
  }

  /** Scanning one more cell appends it to the frontier exactly when it is empty. */
  lemma FrontierScan(miss: seq<(int, int)>, g: Grid, r: int, c: int)
    requires IsGrid(g) && IsCell(r, c) && Frontier(miss, g, Index(r, c))
    ensures g[r][c] == 0 ==> Frontier(miss + [(r, c)], g, Index(r, c) + 1)
    ensures g[r][c] != 0 ==> Frontier(miss, g, Index(r, c) + 1)
  {
    if g[r][c] == 0 {
      var m := miss + [(r, c)];
      forall i, j | 0 <= i < j < |m| ensures Index(m[i].0, m[i].1) < Index(m[j].0, m[j].1) {
        if j < |miss| { assert m[i] == miss[i] && m[j] == miss[j]; }
      }
      forall i, j | IsCell(i, j) && Index(i, j) < Index(r, c) + 1 ensures g[i][j] == 0 <==> (i, j) in m {
        if (i, j) != (r, c) {
          assert (i, j) in m <==> (i, j) in miss;
        }
      }
    }
  }

  /** Filling the last cell of the frontier leaves the rest of it as the
      frontier of the new board. */
  lemma FrontierPop(rest: seq<(int, int)>, r: int, c: int, g: Grid, v: int)
    requires IsGrid(g) && Frontier(rest + [(r, c)], g, 81) && v != 0
    ensures IsCell(r, c) && g[r][c] == 0
    ensures Frontier(rest, Place(g, r, c, v), 81)
  {
    var miss := rest + [(r, c)];
    assert forall i :: 0 <= i < |rest| ==> rest[i] == miss[i];
    assert miss[|rest|] == (r, c);
    assert (r, c) in miss;
    var h := Place(g, r, c, v);
    forall i, j | IsCell(i, j) ensures h[i][j] == 0 <==> (i, j) in rest {
      if (i, j) != (r, c) {
        assert (i, j) in miss <==> (i, j) in rest;
      }
    }
    forall i, j | 0 <= i < j < |rest| ensures Index(rest[i].0, rest[i].1) < Index(rest[j].0, rest[j].1) {
      assert rest[i] == miss[i] && rest[j] == miss[j];
    }
  }

  /** A board with no empty cell has an empty frontier. */
  lemma FrontierOfFull(miss: seq<(int, int)>, g: Grid)
    requires IsGrid(g) && Frontier(miss, g, 81)
    ensures (forall r, c :: IsCell(r, c) ==> g[r][c] != 0) ==> miss == []
  {
    if miss != [] {
      assert miss[0] in miss;
    }
  }

  /** The board g with every cell at or after row-major position k emptied:
      the part of g the setup scan has seen. */
  ghost function Prefix(g: Grid, k: int): (p: Grid)
    requires IsGrid(g)
    ensures IsGrid(p)
    ensures forall r, c :: IsCell(r, c) ==> p[r][c] == (if Index(r, c) < k then g[r][c] else 0)
  {
    seq(9, r requires 0 <= r < 9 => seq(9, c requires 0 <= c < 9 => if Index(r, c) < k then g[r][c] else 0))
  }

  lemma PrefixEmpty(g: Grid)
    requires IsGrid(g)
    ensures forall x, w :: 0 <= x < 9 && w != 0 ==> !RowHas(Prefix(g, 0), x, w)
    ensures forall x, w :: 0 <= x < 9 && w != 0 ==> !ColHas(Prefix(g, 0), x, w)
    ensures forall x, w :: 0 <= x < 9 && w != 0 ==> !BlockHas(Prefix(g, 0), x, w)
  {
    var p := Prefix(g, 0);
    assert forall r, c :: IsCell(r, c) ==> p[r][c] == 0;
  }

  lemma PrefixStep(g: Grid, r: int, c: int)
    requires IsGrid(g) && IsCell(r, c)
    ensures Prefix(g, Index(r, c))[r][c] == 0
    ensures Prefix(g, Index(r, c) + 1) == Place(Prefix(g, Index(r, c)), r, c, g[r][c])
    ensures g[r][c] == 0 ==> Prefix(g, Index(r, c) + 1) == Prefix(g, Index(r, c))
  {
    var p, q := Prefix(g, Index(r, c) + 1), Place(Prefix(g, Index(r, c)), r, c, g[r][c]);
    var p0 := Prefix(g, Index(r, c));
    forall i | 0 <= i < 9 ensures p[i] == q[i] {
      assert forall j :: 0 <= j < 9 ==> p[i][j] == q[i][j];
    }
    if g[r][c] == 0 {
      forall i | 0 <= i < 9 ensures p[i] == p0[i] {
        assert forall j :: 0 <= j < 9 ==> p[i][j] == p0[i][j];
      }
    }
  }

  lemma PrefixFull(g: Grid)
    requires IsGrid(g)
    ensures Prefix(g, 81) == g
  {
    var p := Prefix(g, 81);
    forall i | 0 <= i < 9 ensures p[i] == g[i] {
      assert forall j :: 0 <= j < 9 ==> p[i][j] == g[i][j];
    }
  }

  /** Clears digit n + 1 in the row, column and block of the empty cell
      (r, c): the tables then agree with the board that has n + 1 there. */
  method Mark(row: array2<bool>, col: array2<bool>, blk: array2<bool>, ghost g: Grid, r: int, c: int, n: int)
    requires TablesAgree(row, col, blk, g) && row != col && row != blk && col != blk
    requires IsCell(r, c) && g[r][c] == 0 && 0 <= n < 9
    modifies row, col, blk
    ensures TablesAgree(row, col, blk, Place(g, r, c, n + 1))
  {
    ghost var h := Place(g, r, c, n + 1);
    row[r, n] := false;
    PlaceRowHas(g, r, c, n + 1);
    assert RowsAgree(row, h);
    col[c, n] := false;
    PlaceColHas(g, r, c, n + 1);
    assert ColsAgree(col, h);
    blk[Block(r, c), n] := false;
    PlaceBlockHas(g, r, c, n + 1);
  }

  /** Sets digit n + 1 available again in the row, column and block of
      (r, c), undoing Mark when n + 1 was available before it. */
  method Unmark(row: array2<bool>, col: array2<bool>, blk: array2<bool>, ghost g: Grid, r: int, c: int, n: int)
    requires IsGrid(g) && IsCell(r, c) && g[r][c] == 0 && 0 <= n < 9
    requires TablesAgree(row, col, blk, Place(g, r, c, n + 1)) && row != col && row != blk && col != blk
    requires !RowHas(g, r, n + 1) && !ColHas(g, c, n + 1) && !BlockHas(g, Block(r, c), n + 1)
    modifies row, col, blk
    ensures TablesAgree(row, col, blk, g)
  {
    row[r, n] := true;
    PlaceRowHas(g, r, c, n + 1);
    assert RowsAgree(row, g);
    col[c, n] := true;
    PlaceColHas(g, r, c, n + 1);
    assert ColsAgree(col, g);
    blk[Block(r, c), n] := true;
    PlaceBlockHas(g, r, c, n + 1);
  }

  /** One cell of the setup scan: a filled cell clears its digit in the
      tables, an empty one is appended to the frontier. */
  method ScanCell(board: array2<int>, ghost g: Grid, row: array2<bool>, col: array2<bool>, blk: array2<bool>,
                  miss: seq<(int, int)>, r: int, c: int) returns (miss': seq<(int, int)>)
    requires board.Length0 == 9 && board.Length1 == 9 && IsGrid(g) && InRange(g)
    requires forall i, j :: IsCell(i, j) ==> board[i, j] == g[i][j]
    requires IsCell(r, c) && row != col && row != blk && col != blk
    requires TablesAgree(row, col, blk, Prefix(g, Index(r, c))) && Frontier(miss, g, Index(r, c))
    modifies row, col, blk
    ensures TablesAgree(row, col, blk, Prefix(g, Index(r, c) + 1)) && Frontier(miss', g, Index(r, c) + 1)
  {
    PrefixStep(g, r, c);
    ghost var seen := Prefix(g, Index(r, c));
    FrontierScan(miss, g, r, c);
    if board[r, c] != 0 {
      var n := board[r, c] - 1;
      Mark(row, col, blk, seen, r, c, n);
      miss' := miss;
    } else {
      miss' := miss + [(r, c)];
    }
  }

  /** One row of the setup scan: each filled cell of row r clears its digit in
      the tables and each empty cell is appended to the frontier, left to right. */
  method ScanRow(board: array2<int>, ghost g: Grid, row: array2<bool>, col: array2<bool>, blk: array2<bool>,
                 miss: seq<(int, int)>, r: int) returns (miss': seq<(int, int)>)
    requires board.Length0 == 9 && board.Length1 == 9 && IsGrid(g) && InRange(g)
    requires forall i, j :: IsCell(i, j) ==> board[i, j] == g[i][j]
    requires 0 <= r < 9 && row != col && row != blk && col != blk
    requires TablesAgree(row, col, blk, Prefix(g, Index(r, 0))) && Frontier(miss, g, Index(r, 0))
    modifies row, col, blk
    ensures TablesAgree(row, col, blk, Prefix(g, Index(r, 9))) && Frontier(miss', g, Index(r, 9))
  {
    miss' := miss;
    for c := 0 to 9
      invariant TablesAgree(row, col, blk, Prefix(g, Index(r, c)))
      invariant Frontier(miss', g, Index(r, c))
    {
      miss' := ScanCell(board, g, row, col, blk, miss', r, c);
      assert Index(r, c + 1) == Index(r, c) + 1;
    }
  }

  /** The setup scan: all tables start true; each filled cell clears its
      digit in its row, column and block, and each empty cell is appended
      to the frontier, scanning rows top to bottom. */
  method Scan(board: array2<int>, ghost g: Grid)
    returns (rows: array2<bool>, cols: array2<bool>, blks: array2<bool>, miss: seq<(int, int)>)
    requires board.Length0 == 9 && board.Length1 == 9 && IsGrid(g) && InRange(g)
    requires forall i, j :: IsCell(i, j) ==> board[i, j] == g[i][j]
    ensures fresh(rows) && fresh(cols) && fresh(blks)
    ensures rows != cols && rows != blks && cols != blks
    ensures TablesAgree(rows, cols, blks, g) && Frontier(miss, g, 81)
  {
    rows := new bool[9, 9]((_, _) => true);
    cols := new bool[9, 9]((_, _) => true);
    blks := new bool[9, 9]((_, _) => true);
    miss := [];
    PrefixEmpty(g);
    for r := 0 to 9
      invariant rows != cols && rows != blks && cols != blks
      invariant TablesAgree(rows, cols, blks, Prefix(g, Index(r, 0)))
      invariant Frontier(miss, g, Index(r, 0))
    {
      miss := ScanRow(board, g, rows, cols, blks, miss, r);
      assert Index(r, 9) == Index(r + 1, 0);
    }
    PrefixFull(g);
  }

  class Backtracker {
    /** The caller's board, filled in place. */
    const board: array2<int>
    /** Availability tables indexed [group, digit - 1]. */
    const row: array2<bool>
    const col: array2<bool>
    const blk: array2<bool>
    /** The empty cells, used as a stack whose top is the last element. */
    var missing: seq<(int, int)>
    /** The board's contents as a value. */
    ghost var grid: Grid

    /** Board, mirror and tables are consistent; the stack is not yet constrained. */
    ghost predicate Consistent()
      reads this`grid, board, row, col, blk
    {
      && board.Length0 == 9 && board.Length1 == 9
      && IsGrid(grid) && InRange(grid)
      && (forall r, c :: IsCell(r, c) ==> board[r, c] == grid[r][c])
      && row != col && row != blk && col != blk
      && TablesAgree(row, col, blk, grid)
    }

    /** The invariant kept on entry to and exit from every search step: the
        tables agree with the board and the stack holds exactly its empty cells. */
    ghost predicate Valid()
      reads this`grid, this`missing, board, row, col, blk
    {
      Consistent() && Frontier(missing, grid, 81)
    }

    /** The board and tables are determined by the board's value: when the
        value is back to what it was, so is every array entry. */
    twostate lemma Restored()
      requires old(Consistent()) && Consistent() && grid == old(grid)
      ensures forall i, j :: IsCell(i, j) ==> board[i, j] == old(board[i, j])
      ensures forall x, n :: 0 <= x < 9 && 0 <= n < 9 ==>
        row[x, n] == old(row[x, n]) && col[x, n] == old(col[x, n]) && blk[x, n] == old(blk[x, n])
    {
    }

    /** Runs the setup scan over the caller's board. */
    constructor (board: array2<int>)
      requires board.Length0 == 9 && board.Length1 == 9
      requires forall r, c :: IsCell(r, c) ==> 0 <= board[r, c] <= 9
      ensures Valid()
      ensures this.board == board && grid == GridOf(board)
      ensures fresh(row) && fresh(col) && fresh(blk)
    {
      ghost var g := GridOf(board);
      var rows, cols, blks, miss := Scan(board, g);
      this.board := board;
      row, col, blk := rows, cols, blks;
      missing := miss;
      grid := g;
    }

    /** The recursive search. It pops the last empty cell and tries digits
        1..9 in order, each one that all three tables allow by TryDigit; if
        no digit works the cell is pushed back. */
    method Backtrack() returns (ok: bool)
      requires Valid()
      modifies this`missing, this`grid, board, row, col, blk
      decreases |missing|, 1
      ensures Valid()
      ensures Extends(grid, old(grid))
      ensures ok ==> missing == [] && forall r, c :: IsCell(r, c) ==> grid[r][c] != 0
      ensures ok && NoConflict(old(grid)) ==> Solved(grid)
      ensures !ok ==> missing == old(missing) && grid == old(grid)
      ensures !ok ==> Unsolvable(old(grid))
      ensures old(missing) == [] ==> ok && grid == old(grid)
      ensures !ok ==> forall i, j :: IsCell(i, j) ==> board[i, j] == old(board[i, j])
      ensures !ok ==> forall x, n :: 0 <= x < 9 && 0 <= n < 9 ==>
        row[x, n] == old(row[x, n]) && col[x, n] == old(col[x, n]) && blk[x, n] == old(blk[x, n])
    {
      if missing == [] {
        return true;
      }
      ghost var g := grid;
      var r, c := missing[|missing| - 1].0, missing[|missing| - 1].1;
      missing := missing[..|missing| - 1];
      assert missing + [(r, c)] == old(missing);
      FrontierPop(missing, r, c, g, 1);
      var b := Block(r, c);
      for n := 0 to 9
        invariant Consistent() && grid == g && missing + [(r, c)] == old(missing)
        invariant forall s :: Completes(s, g) ==> s[r][c] > n
      {
        if row[r, n] && col[c, n] && blk[b, n] {
          assert !RowHas(g, r, n + 1) && !ColHas(g, c, n + 1) && !BlockHas(g, b, n + 1);
          ok := TryDigit(r, c, n);
          if ok {
            ExtendsPlaced(grid, g, r, c, n + 1);
            if NoConflict(g) {
              PlaceKeepsNoConflict(g, r, c, n + 1);
            }
            return;
          }
          SearchRulesOut(g, r, c, n + 1);
        } else {
          TableRulesOut(g, r, c, n + 1);
        }
      }
      missing := missing + [(r, c)];
      Restored();
      return false;
    }

    /** One trial of the search: place digit n + 1 at the popped cell (r, c)
        and search on; if that fails, undo the placement. */
    method TryDigit(r: int, c: int, n: int) returns (ok: bool)
      requires Consistent() && IsCell(r, c) && Frontier(missing + [(r, c)], grid, 81)
      requires 0 <= n < 9 && row[r, n] && col[c, n] && blk[Block(r, c), n]
      modifies this`missing, this`grid, board, row, col, blk
      decreases |missing| + 1, 0
      ensures ok ==> Valid() && missing == [] && forall i, j :: IsCell(i, j) ==> grid[i][j] != 0
      ensures ok ==> Extends(grid, Place(old(grid), r, c, n + 1))
      ensures ok && NoConflict(Place(old(grid), r, c, n + 1)) ==> Solved(grid)
      ensures !ok ==> Consistent() && grid == old(grid) && missing == old(missing)
      ensures !ok ==> Unsolvable(Place(old(grid), r, c, n + 1))
    {
      ghost var g := grid;
      FrontierPop(missing, r, c, g, n + 1);
      assert !RowHas(g, r, n + 1) && !ColHas(g, c, n + 1) && !BlockHas(g, Block(r, c), n + 1);
      Assign(r, c, n);
      ok := Backtrack();
      if !ok {
        Unassign(r, c, n, g);
      }
    }

    /** Writes digit n + 1 into the empty cell (r, c) and clears it in the
        cell's row, column and block. */
    method Assign(r: int, c: int, n: int)
      requires Consistent() && IsCell(r, c) && grid[r][c] == 0 && 0 <= n < 9
      modifies this`grid, board, row, col, blk
      ensures Consistent() && grid == Place(old(grid), r, c, n + 1)
    {
      ghost var g := grid;
      board[r, c] := n + 1;
      Mark(row, col, blk, g, r, c, n);
      grid := Place(g, r, c, n + 1);
    }

    /** Resets (r, c) to 0 and makes digit n + 1 available again: the exact
        inverse of Assign when n + 1 was available before it. */
    method Unassign(r: int, c: int, n: int, ghost g: Grid)
      requires Consistent() && IsGrid(g) && IsCell(r, c) && g[r][c] == 0 && 0 <= n < 9
      requires grid == Place(g, r, c, n + 1)
      requires !RowHas(g, r, n + 1) && !ColHas(g, c, n + 1) && !BlockHas(g, Block(r, c), n + 1)
      modifies this`grid, board, row, col, blk
      ensures Consistent() && grid == g
    {
      ghost var placed := grid;
      board[r, c] := 0;
      grid := g;
      forall i, j | IsCell(i, j) ensures board[i, j] == g[i][j] {
        if (i, j) != (r, c) {
          assert g[i][j] == placed[i][j];
        }
      }
      Unmark(row, col, blk, g, r, c, n);
    }
  }

  /** Solves the board in place. On success every cell holds a digit, every
      given digit is kept, and the board is a valid solution exactly when the
      givens had no repeated digit; on failure the board is unchanged and the
      puzzle has no solution. */
  method SolveSudoku(board: array2<int>) returns (ok: bool)
    requires board.Length0 == 9 && board.Length1 == 9
    requires forall r, c :: IsCell(r, c) ==> 0 <= board[r, c] <= 9
    modifies board
    ensures Extends(GridOf(board), old(GridOf(board)))
    ensures ok ==> forall r, c :: IsCell(r, c) ==> 1 <= board[r, c] <= 9
    ensures ok ==> (Solved(GridOf(board)) <==> NoConflict(old(GridOf(board))))
    ensures !ok ==> GridOf(board) == old(GridOf(board))
    ensures !ok ==> Unsolvable(old(GridOf(board)))
    ensures (forall r, c :: IsCell(r, c) ==> old(board[r, c]) != 0) ==> ok && GridOf(board) == old(GridOf(board))
  {
    var solver := new Backtracker(board);
    FrontierOfFull(solver.missing, solver.grid);
    ok := solver.Backtrack();
    GridOfMirror(board, solver.grid);
    if ok && Solved(solver.grid) {
      ExtensionKeepsConflicts(solver.grid, old(GridOf(board)));
    }
  }
}
