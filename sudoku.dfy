/** The rules of standard 9x9 Sudoku, stated on board values.
    A board is nine rows of nine cells; 0 marks an empty cell and 1..9 a digit. */
module Sudoku {

  type Grid = seq<seq<int>>

  predicate IsCell(r: int, c: int) {
    0 <= r < 9 && 0 <= c < 9
  }

  predicate IsGrid(g: Grid) {
    |g| == 9 && forall r :: 0 <= r < 9 ==> |g[r]| == 9
  }

  /** Every cell holds 0 (empty) or a digit 1..9. */
  ghost predicate InRange(g: Grid)
    requires IsGrid(g)
  {
    forall r, c :: IsCell(r, c) ==> 0 <= g[r][c] <= 9
  }

  /** Position of a cell in row-major order. */
  function Index(r: int, c: int): int {
    9 * r + c
  }

  /** Index of the 3x3 block holding cell (r, c); blocks are numbered
      0 1 2 / 3 4 5 / 6 7 8 from the top left, so the block's band is
      r / 3 and its stack is c / 3. */
  function Block(r: int, c: int): (b: int)
    requires IsCell(r, c)
    ensures 0 <= b < 9
    ensures b / 3 == r / 3 && b % 3 == c / 3
  {
    (r / 3) * 3 + c / 3
  }

  /** Two cells in the same block have the same block index, and conversely. */
  lemma BlockIffSameBand(r1: int, c1: int, r2: int, c2: int)
    requires IsCell(r1, c1) && IsCell(r2, c2)
    ensures Block(r1, c1) == Block(r2, c2) <==> (r1 / 3 == r2 / 3 && c1 / 3 == c2 / 3)
  {
    var b1, b2 := Block(r1, c1), Block(r2, c2);
    if r1 / 3 == r2 / 3 && c1 / 3 == c2 / 3 {
      assert b1 == 3 * (b1 / 3) + b1 % 3;
      assert b2 == 3 * (b2 / 3) + b2 % 3;
    }
  }

  /** The board g with cell (r, c) set to v. */
  function Place(g: Grid, r: int, c: int, v: int): (h: Grid)
    requires IsGrid(g) && IsCell(r, c)
    ensures IsGrid(h) && h[r][c] == v
    ensures forall i, j :: IsCell(i, j) && (i, j) != (r, c) ==> h[i][j] == g[i][j]
  {
    g[r := g[r][c := v]]
  }

  ghost predicate RowHas(g: Grid, r: int, v: int)
    requires IsGrid(g) && 0 <= r < 9
  {
    exists c :: 0 <= c < 9 && g[r][c] == v
  }

  ghost predicate ColHas(g: Grid, c: int, v: int)
    requires IsGrid(g) && 0 <= c < 9
  {
    exists r :: 0 <= r < 9 && g[r][c] == v
  }

  ghost predicate BlockHas(g: Grid, b: int, v: int)
    requires IsGrid(g)
  {
    exists r, c :: IsCell(r, c) && Block(r, c) == b && g[r][c] == v
  }

  /** Distinct cells that share a row, a column or a block. */
  ghost predicate Peers(r1: int, c1: int, r2: int, c2: int)
    requires IsCell(r1, c1) && IsCell(r2, c2)
  {
    (r1, c1) != (r2, c2) && (r1 == r2 || c1 == c2 || Block(r1, c1) == Block(r2, c2))
  }

  /** No digit occurs twice in a row, a column or a block. */
  ghost predicate NoConflict(g: Grid)
    requires IsGrid(g)
  {
    forall r1, c1, r2, c2 ::
      IsCell(r1, c1) && IsCell(r2, c2) && Peers(r1, c1, r2, c2) && g[r1][c1] != 0 ==>
        g[r1][c1] != g[r2][c2]
  }

  /** A finished board: every cell holds a digit and no digit repeats in a group. */
  ghost predicate Solved(g: Grid) {
    && IsGrid(g)
    && (forall r, c :: IsCell(r, c) ==> 1 <= g[r][c] <= 9)
    && NoConflict(g)
  }

  /** s keeps every digit that g has filled in. */
  ghost predicate Extends(s: Grid, g: Grid)
    requires IsGrid(s) && IsGrid(g)
  {
    forall r, c :: IsCell(r, c) && g[r][c] != 0 ==> s[r][c] == g[r][c]
  }

  /** s is a solution of the puzzle g. */
  ghost predicate Completes(s: Grid, g: Grid) {
    IsGrid(s) && IsGrid(g) && Solved(s) && Extends(s, g)
  }

  /** No solution completes board g. */
  ghost predicate Unsolvable(g: Grid) {
    forall s :: !Completes(s, g)
  }

  /** Filling an empty cell with v adds v to that cell's row and changes the
      presence of no other nonzero digit in any row. */
  lemma PlaceRowHas(g: Grid, r: int, c: int, v: int)
    requires IsGrid(g) && IsCell(r, c) && g[r][c] == 0
    ensures forall i, w :: 0 <= i < 9 && w != 0 ==>
      (RowHas(Place(g, r, c, v), i, w) <==> RowHas(g, i, w) || (i == r && w == v))
  {
    var h := Place(g, r, c, v);
    forall i, w | 0 <= i < 9 && w != 0
      ensures RowHas(h, i, w) <==> RowHas(g, i, w) || (i == r && w == v)
    {
      if RowHas(h, i, w) {
        var j :| 0 <= j < 9 && h[i][j] == w;
        if (i, j) != (r, c) { assert g[i][j] == w; }
      }
      if RowHas(g, i, w) {
        var j :| 0 <= j < 9 && g[i][j] == w;
        assert h[i][j] == w;
      }
      if i == r && w == v { assert h[r][c] == w; }
    }
  }

  /** The same for columns. */
  lemma PlaceColHas(g: Grid, r: int, c: int, v: int)
    requires IsGrid(g) && IsCell(r, c) && g[r][c] == 0
    ensures forall j, w :: 0 <= j < 9 && w != 0 ==>
      (ColHas(Place(g, r, c, v), j, w) <==> ColHas(g, j, w) || (j == c && w == v))
  {
    var h := Place(g, r, c, v);
    forall j, w | 0 <= j < 9 && w != 0
      ensures ColHas(h, j, w) <==> ColHas(g, j, w) || (j == c && w == v)
    {
      if ColHas(h, j, w) {
        var i :| 0 <= i < 9 && h[i][j] == w;
        if (i, j) != (r, c) { assert g[i][j] == w; }
      }
      if ColHas(g, j, w) {
        var i :| 0 <= i < 9 && g[i][j] == w;
        assert h[i][j] == w;
      }
      if j == c && w == v { assert h[r][c] == w; }
    }
  }

  /** The same for blocks. */
  lemma PlaceBlockHas(g: Grid, r: int, c: int, v: int)
    requires IsGrid(g) && IsCell(r, c) && g[r][c] == 0
    ensures forall b, w :: 0 <= b < 9 && w != 0 ==>
      (BlockHas(Place(g, r, c, v), b, w) <==> BlockHas(g, b, w) || (b == Block(r, c) && w == v))
  {
    var h := Place(g, r, c, v);
    forall b, w | 0 <= b < 9 && w != 0
      ensures BlockHas(h, b, w) <==> BlockHas(g, b, w) || (b == Block(r, c) && w == v)
    {
      if BlockHas(h, b, w) {
        var i, j :| IsCell(i, j) && Block(i, j) == b && h[i][j] == w;
        if (i, j) != (r, c) { assert g[i][j] == w; }
      }
      if BlockHas(g, b, w) {
        var i, j :| IsCell(i, j) && Block(i, j) == b && g[i][j] == w;
        assert h[i][j] == w;
      }
      if b == Block(r, c) && w == v { assert h[r][c] == w; }
    }
  }

  /** Placing a digit that is absent from the cell's row, column and block
      keeps the board free of conflicts. */
  lemma PlaceKeepsNoConflict(g: Grid, r: int, c: int, v: int)
    requires IsGrid(g) && IsCell(r, c) && NoConflict(g)
    requires !RowHas(g, r, v) && !ColHas(g, c, v) && !BlockHas(g, Block(r, c), v)
    ensures NoConflict(Place(g, r, c, v))
  {
    var h := Place(g, r, c, v);
    forall r1, c1, r2, c2 | IsCell(r1, c1) && IsCell(r2, c2) && Peers(r1, c1, r2, c2) && h[r1][c1] != 0
      ensures h[r1][c1] != h[r2][c2]
    {
      if (r1, c1) == (r, c) {
        assert h[r2][c2] == g[r2][c2];
        if r2 == r { assert !(g[r][c2] == v); }
        else if c2 == c { assert !(g[r2][c] == v); }
        else { assert !(IsCell(r2, c2) && Block(r2, c2) == Block(r, c) && g[r2][c2] == v); }
      } else if (r2, c2) == (r, c) {
        assert h[r1][c1] == g[r1][c1];
        if r1 == r { assert !(g[r][c1] == v); }
        else if c1 == c { assert !(g[r1][c] == v); }
        else { assert !(IsCell(r1, c1) && Block(r1, c1) == Block(r, c) && g[r1][c1] == v); }
      } else {
        assert h[r1][c1] == g[r1][c1] && h[r2][c2] == g[r2][c2];
      }
    }
  }

  /** A digit already present in the row, column or block of an empty cell
      cannot stand in that cell in any solution. */
  lemma CompletionAvoids(s: Grid, g: Grid, r: int, c: int, v: int)
    requires Completes(s, g) && IsCell(r, c) && g[r][c] == 0 && v != 0
    requires RowHas(g, r, v) || ColHas(g, c, v) || BlockHas(g, Block(r, c), v)
    ensures s[r][c] != v
  {
    if RowHas(g, r, v) {
      var j :| 0 <= j < 9 && g[r][j] == v;
      assert Peers(r, c, r, j) && s[r][j] == v;
    } else if ColHas(g, c, v) {
      var i :| 0 <= i < 9 && g[i][c] == v;
      assert Peers(r, c, i, c) && s[i][c] == v;
    } else {
      var i, j :| IsCell(i, j) && Block(i, j) == Block(r, c) && g[i][j] == v;
      assert Peers(r, c, i, j) && s[i][j] == v;
    }
  }

  /** A solution of g that holds v at the empty cell (r, c) also solves g with
      v placed there. */
  lemma CompletesPlace(s: Grid, g: Grid, r: int, c: int)
    requires Completes(s, g) && IsCell(r, c)
    ensures Completes(s, Place(g, r, c, s[r][c]))
  {
    var h := Place(g, r, c, s[r][c]);
    forall i, j | IsCell(i, j) && h[i][j] != 0 ensures s[i][j] == h[i][j] {
      if (i, j) != (r, c) { assert h[i][j] == g[i][j]; }
    }
  }

  /** A digit already present in the row, column or block of the empty cell
      (r, c) stands there in no solution of g. */
  lemma TableRulesOut(g: Grid, r: int, c: int, v: int)
    requires IsGrid(g) && IsCell(r, c) && g[r][c] == 0 && v != 0
    requires RowHas(g, r, v) || ColHas(g, c, v) || BlockHas(g, Block(r, c), v)
    ensures forall s :: Completes(s, g) ==> s[r][c] != v
  {
    forall s | Completes(s, g) ensures s[r][c] != v {
      CompletionAvoids(s, g, r, c, v);
    }
  }

  /** If g with v placed at (r, c) has no solution, then no solution of g
      holds v at (r, c). */
  lemma SearchRulesOut(g: Grid, r: int, c: int, v: int)
    requires IsGrid(g) && IsCell(r, c)
    requires Unsolvable(Place(g, r, c, v))
    ensures forall s :: Completes(s, g) ==> s[r][c] != v
  {
    forall s | Completes(s, g) ensures s[r][c] != v {
      if s[r][c] == v {
        CompletesPlace(s, g, r, c);
      }
    }
  }

  /** Placing a digit in an empty cell never erases a filled one. */
  lemma ExtendsPlaced(h: Grid, g: Grid, r: int, c: int, v: int)
    requires IsGrid(h) && IsGrid(g) && IsCell(r, c) && g[r][c] == 0
    requires Extends(h, Place(g, r, c, v))
    ensures Extends(h, g)
  {
    var p := Place(g, r, c, v);
    forall i, j | IsCell(i, j) && g[i][j] != 0 ensures h[i][j] == g[i][j] {
      assert (i, j) != (r, c) && p[i][j] == g[i][j];
    }
  }

  /** A board extending g has no conflict only if g has none: filling cells
      never repairs a repeated given. */
  lemma ExtensionKeepsConflicts(s: Grid, g: Grid)
    requires IsGrid(s) && IsGrid(g) && Extends(s, g) && NoConflict(s)
    ensures NoConflict(g)
  {
    forall r1, c1, r2, c2 | IsCell(r1, c1) && IsCell(r2, c2) && Peers(r1, c1, r2, c2) && g[r1][c1] != 0
      ensures g[r1][c1] != g[r2][c2]
    {
      if g[r2][c2] != 0 {
        assert s[r1][c1] == g[r1][c1] && s[r2][c2] == g[r2][c2];
      }
    }
  }

  /** The set of digits 1..k. */
  ghost function Digits(k: nat): (d: set<int>)
    ensures |d| == k
    ensures forall v :: v in d <==> 1 <= v <= k
  {
    if k == 0 then {} else Digits(k - 1) + {k}
  }

  /** A sequence of distinct values drawn from t is no longer than t is large. */
  lemma {:induction false} DistinctWithin(s: seq<int>, t: set<int>)
    requires forall i, j :: 0 <= i < j < |s| ==> s[i] != s[j]
    requires forall i :: 0 <= i < |s| ==> s[i] in t
    ensures |s| <= |t|
  {
    if |s| > 0 {
      var x := s[|s| - 1];
      var t' := t - {x};
      assert t == t' + {x};
      DistinctWithin(s[..|s| - 1], t');
    }
  }

  /** Nine distinct digits are all nine digits. */
  lemma DistinctDigitsCoverAll(s: seq<int>)
    requires |s| == 9
    requires forall i :: 0 <= i < 9 ==> 1 <= s[i] <= 9
    requires forall i, j :: 0 <= i < j < 9 ==> s[i] != s[j]
    ensures forall v :: 1 <= v <= 9 ==> v in s
  {
    forall v | 1 <= v <= 9 ensures v in s {
      DigitPresent(s, v);
    }
  }

  lemma DigitPresent(s: seq<int>, v: int)
    requires |s| == 9
    requires forall i :: 0 <= i < 9 ==> 1 <= s[i] <= 9
    requires forall i, j :: 0 <= i < j < 9 ==> s[i] != s[j]
    requires 1 <= v <= 9
    ensures v in s
  {
    if v !in s {
      DigitsWithout(|s|, v);
      OtherDigits(s, v);
      DistinctWithin(s, Digits(|s|) - {v});
    }
  }

  /** Leaving one digit out of 1..k leaves k - 1 digits. */
  lemma DigitsWithout(k: nat, v: int)
    requires 1 <= v <= k
    ensures |Digits(k) - {v}| == k - 1
  {
    var d := Digits(k);
    var t := d - {v};
    assert v in d && v !in t;
    assert d == t + {v};
    assert |t + {v}| == |t| + 1;
  }

  lemma OtherDigits(s: seq<int>, v: int)
    requires |s| == 9
    requires forall i :: 0 <= i < 9 ==> 1 <= s[i] <= 9
    requires v !in s
    ensures forall i :: 0 <= i < 9 ==> s[i] in Digits(|s|) - {v}
  {
  }

  /** In a solved board every row, every column and every block holds each
      digit 1..9 exactly once. */
  lemma SolvedGroups(g: Grid)
    requires Solved(g)
    ensures forall r, v :: 0 <= r < 9 && 1 <= v <= 9 ==> RowHas(g, r, v)
    ensures forall c, v :: 0 <= c < 9 && 1 <= v <= 9 ==> ColHas(g, c, v)
    ensures forall b, v :: 0 <= b < 9 && 1 <= v <= 9 ==> BlockHas(g, b, v)
    ensures forall r1, c1, r2, c2 ::
      IsCell(r1, c1) && IsCell(r2, c2) && Peers(r1, c1, r2, c2) ==> g[r1][c1] != g[r2][c2]
  {
    forall r, v | 0 <= r < 9 && 1 <= v <= 9 ensures RowHas(g, r, v) {
      var s := g[r];
      forall i, j | 0 <= i < j < 9 ensures s[i] != s[j] {
        assert Peers(r, i, r, j);
      }
      DistinctDigitsCoverAll(s);
      assert v in s;
      var j :| 0 <= j < 9 && s[j] == v;
    }
    forall c, v | 0 <= c < 9 && 1 <= v <= 9 ensures ColHas(g, c, v) {
      var s := seq(9, i requires 0 <= i < 9 => g[i][c]);
      forall i, j | 0 <= i < j < 9 ensures s[i] != s[j] {
        assert Peers(i, c, j, c);
      }
      DistinctDigitsCoverAll(s);
      assert v in s;
      var i :| 0 <= i < 9 && s[i] == v;
    }
    forall b, v | 0 <= b < 9 && 1 <= v <= 9 ensures BlockHas(g, b, v) {
      var s := seq(9, k requires 0 <= k < 9 => g[BlockRow(b, k)][BlockCol(b, k)]);
      forall i, j | 0 <= i < j < 9 ensures s[i] != s[j] {
        BlockCell(b, i);
        BlockCell(b, j);
        assert Peers(BlockRow(b, i), BlockCol(b, i), BlockRow(b, j), BlockCol(b, j));
      }
      DistinctDigitsCoverAll(s);
      assert v in s;
      var k :| 0 <= k < 9 && s[k] == v;
      BlockCell(b, k);
    }
  }

  /** Row and column of the k-th cell (k in 0..8, row-major) of block b. */
  function BlockRow(b: int, k: int): int { 3 * (b / 3) + k / 3 }
  function BlockCol(b: int, k: int): int { 3 * (b % 3) + k % 3 }

  lemma BlockCell(b: int, k: int)
    requires 0 <= b < 9 && 0 <= k < 9
    ensures IsCell(BlockRow(b, k), BlockCol(b, k))
    ensures Block(BlockRow(b, k), BlockCol(b, k)) == b
    ensures forall k' :: 0 <= k' < 9 && k' != k ==>
      (BlockRow(b, k'), BlockCol(b, k')) != (BlockRow(b, k), BlockCol(b, k))
  {
    var r, c := BlockRow(b, k), BlockCol(b, k);
    assert r / 3 == b / 3 && c / 3 == b % 3;
    var x := Block(r, c);
    assert x == 3 * (x / 3) + x % 3;
    assert b == 3 * (b / 3) + b % 3;
  }
}
