/** Board layouts outside the solver: the flat, row-major cell numbering used
    to address cells, and the block-by-block reading order of a page that
    lists its cells one 3x3 block at a time. */
module Layout {
  import opened Sudoku

  /** The quotient and remainder of idx by 9, rounding down. For a positive
      divisor, rounding down and Dafny's Euclidean division agree on every
      integer, negative ones included. */
  function DivMod9(idx: int): (qr: (int, int))
    ensures 9 * qr.0 + qr.1 == idx && 0 <= qr.1 < 9
  {
    (idx / 9, idx % 9)
  }

  /** A flat index in 0..80 names a cell, and that cell's row-major index is
      the flat index again. */
  lemma DivMod9Cell(idx: int)
    requires 0 <= idx < 81
    ensures IsCell(DivMod9(idx).0, DivMod9(idx).1)
    ensures Index(DivMod9(idx).0, DivMod9(idx).1) == idx
  {
  }

  /** Conversely, splitting the row-major index of a cell gives back the cell. */
  lemma DivMod9Index(r: int, c: int)
    requires IsCell(r, c)
    ensures DivMod9(Index(r, c)) == (r, c)
  {
    var qr := DivMod9(Index(r, c));
    Unique9(Index(r, c), r, c, qr.0, qr.1);
  }

  /** Division by 9 has only one quotient-remainder pair. */
  lemma Unique9(x: int, q1: int, s1: int, q2: int, s2: int)
    requires x == 9 * q1 + s1 && 0 <= s1 < 9
    requires x == 9 * q2 + s2 && 0 <= s2 < 9
    ensures q1 == q2 && s1 == s2
  {
  }

  /** The quotient and remainder of a sum of a multiple of 9 and a digit index. */
  lemma Split9(q: int, s: int)
    requires 0 <= s < 9
    ensures (9 * q + s) / 9 == q && (9 * q + s) % 9 == s
  {
    var qr := DivMod9(9 * q + s);
    Unique9(9 * q + s, q, s, qr.0, qr.1);
  }

  /** The same for 3. */
  lemma Split3(q: int, s: int)
    requires 0 <= s < 3
    ensures (3 * q + s) / 3 == q && (3 * q + s) % 3 == s
  {
  }

  /** The 81 cells of g in row-major order. */
  function Flatten(g: Grid): (f: seq<int>)
    requires IsGrid(g)
    ensures |f| == 81
    ensures forall r, c :: IsCell(r, c) ==> f[Index(r, c)] == g[r][c]
  {
    var f := seq(81, p requires 0 <= p < 81 => g[p / 9][p % 9]);
    assert forall r, c :: IsCell(r, c) ==> f[Index(r, c)] == g[r][c] by {
      forall r, c | IsCell(r, c) ensures f[Index(r, c)] == g[r][c] {
        Split9(r, c);
      }
    }
    f
  }

  /** An 81-cell list read as nine rows of nine (a reshape to 9x9). */
  function Rows(f: seq<int>): (g: Grid)
    requires |f| == 81
    ensures IsGrid(g)
    ensures forall r, c :: IsCell(r, c) ==> g[r][c] == f[Index(r, c)]
  {
    seq(9, r requires 0 <= r < 9 => f[9 * r .. 9 * r + 9])
  }

  /** Flatten and Rows are inverse to each other. */
  lemma RowsFlatten(g: Grid)
    requires IsGrid(g)
    ensures Rows(Flatten(g)) == g
  {
    var h := Rows(Flatten(g));
    forall r | 0 <= r < 9 ensures h[r] == g[r] {
      assert forall c :: 0 <= c < 9 ==> h[r][c] == g[r][c];
    }
  }

  lemma FlattenRows(f: seq<int>)
    requires |f| == 81
    ensures Flatten(Rows(f)) == f
  {
    var h := Flatten(Rows(f));
    forall p | 0 <= p < 81 ensures h[p] == f[p] {
      var qr := DivMod9(p);
      assert h[Index(qr.0, qr.1)] == f[Index(qr.0, qr.1)];
    }
  }

  /** The block-order remap: row b of the result is block b of m, its cells
      listed row by row. Row b of m is read as block b of the result. */
  function Remap(m: Grid): (t: Grid)
    requires IsGrid(m)
    ensures IsGrid(t)
    ensures forall b, k :: 0 <= b < 9 && 0 <= k < 9 ==> t[b][k] == m[BlockRow(b, k)][BlockCol(b, k)]
  {
    seq(9, i requires 0 <= i < 9 => seq(9, j requires 0 <= j < 9 => m[BlockRow(i, j)][BlockCol(i, j)]))
  }

  /** Reading cell (r, c) as cell c of block r, and then that cell as cell
      k of block b, leads back to (r, c). */
  lemma BlockCellInverse(r: int, c: int)
    requires IsCell(r, c)
    ensures BlockRow(BlockRow(r, c), BlockCol(r, c)) == r
    ensures BlockCol(BlockRow(r, c), BlockCol(r, c)) == c
  {
    var i, j := BlockRow(r, c), BlockCol(r, c);
    Split3(r / 3, c / 3);
    Split3(r % 3, c % 3);
    assert i / 3 == r / 3 && i % 3 == c / 3;
    assert j / 3 == r % 3 && j % 3 == c % 3;
  }

  /** Applying the remap twice gives back the original board: reading a page
      by blocks and writing the solution back by blocks lines the cells up. */
  lemma RemapInvolution(m: Grid)
    requires IsGrid(m)
    ensures Remap(Remap(m)) == m
  {
    var t := Remap(Remap(m));
    forall r | 0 <= r < 9 ensures t[r] == m[r] {
      forall c | 0 <= c < 9 ensures t[r][c] == m[r][c] {
        BlockCellInverse(r, c);
        BlockCell(r, c);
      }
    }
  }

  /** The remap turns the blocks of m into rows and its rows into blocks, so
      it keeps which digits each group holds, up to that swap. */
  lemma RemapSwapsRowsAndBlocks(m: Grid)
    requires IsGrid(m)
    ensures forall b, v :: 0 <= b < 9 ==> (RowHas(Remap(m), b, v) <==> BlockHas(m, b, v))
    ensures forall b, v :: 0 <= b < 9 ==> (BlockHas(Remap(m), b, v) <==> RowHas(m, b, v))
  {
    var t := Remap(m);
    forall b, v | 0 <= b < 9 ensures RowHas(t, b, v) <==> BlockHas(m, b, v) {
      if RowHas(t, b, v) {
        var k :| 0 <= k < 9 && t[b][k] == v;
        BlockCell(b, k);
      }
      if BlockHas(m, b, v) {
        var i, j :| IsCell(i, j) && Block(i, j) == b && m[i][j] == v;
        var k := 3 * (i % 3) + j % 3;
        SameBlockCell(i, j);
        assert t[b][k] == v;
      }
    }
    RemapInvolution(m);
    forall b, v | 0 <= b < 9 ensures BlockHas(t, b, v) <==> RowHas(m, b, v) {
      if BlockHas(t, b, v) {
        var i, j :| IsCell(i, j) && Block(i, j) == b && t[i][j] == v;
        var k := 3 * (i % 3) + j % 3;
        SameBlockCell(i, j);
        assert Remap(t)[b][k] == v;
      }
      if RowHas(m, b, v) {
        var k :| 0 <= k < 9 && m[b][k] == v;
        BlockCell(b, k);
        assert Remap(t)[b][k] == v;
      }
    }
  }

  /** Cell (i, j) is cell 3 * (i % 3) + j % 3 of its block. */
  lemma SameBlockCell(i: int, j: int)
    requires IsCell(i, j)
    ensures BlockRow(Block(i, j), 3 * (i % 3) + j % 3) == i
    ensures BlockCol(Block(i, j), 3 * (i % 3) + j % 3) == j
  {
    var b, k := Block(i, j), 3 * (i % 3) + j % 3;
    Split3(i % 3, j % 3);
    assert b == 3 * (b / 3) + b % 3;
  }

  /** Lists the cells of m block by block: for each band r and stack c of
      blocks, the three rows of that block, three cells each. */
  method BlockOrder(m: Grid) returns (flat: seq<int>)
    requires IsGrid(m)
    ensures flat == Flatten(Remap(m))
  {
    ghost var spec := Flatten(Remap(m));
    flat := [];
    for r := 0 to 3
      invariant flat == spec[..27 * r]
    {
      for c := 0 to 3
        invariant flat == spec[..27 * r + 9 * c]
      {
        for n := 0 to 3
          invariant flat == spec[..27 * r + 9 * c + 3 * n]
        {
          BlockOrderStep(m, r, c, n);
          flat := flat + m[3 * r + n][3 * c .. 3 * c + 3];
        }
      }
    }
  }

  /** The three cells appended for band r, stack c and row n of the block. */
  lemma BlockOrderStep(m: Grid, r: int, c: int, n: int)
    requires IsGrid(m) && 0 <= r < 3 && 0 <= c < 3 && 0 <= n < 3
    ensures var p := 27 * r + 9 * c + 3 * n;
      Flatten(Remap(m))[..p] + m[3 * r + n][3 * c .. 3 * c + 3] == Flatten(Remap(m))[..p + 3]
  {
    var f, p := Flatten(Remap(m)), 27 * r + 9 * c + 3 * n;
    var cells := m[3 * r + n][3 * c .. 3 * c + 3];
    forall k | 0 <= k < 3 ensures f[p + k] == cells[k] {
      BlockOrderCell(m, r, c, n, k);
    }
    AppendSlice(f, p, cells);
  }

  /** A prefix of f followed by the next |s| elements of f is a longer prefix. */
  lemma AppendSlice(f: seq<int>, p: int, s: seq<int>)
    requires 0 <= p && p + |s| <= |f|
    requires forall k :: 0 <= k < |s| ==> f[p + k] == s[k]
    ensures f[..p] + s == f[..p + |s|]
  {
    var lhs := f[..p] + s;
    forall i | 0 <= i < p + |s| ensures lhs[i] == f[i] {
      if i >= p {
        assert s[i - p] == f[p + (i - p)];
      }
    }
  }

  /** Position 27 r + 9 c + 3 n + k of the block order holds cell k of row n
      of the block in band r and stack c. */
  lemma BlockOrderCell(m: Grid, r: int, c: int, n: int, k: int)
    requires IsGrid(m) && 0 <= r < 3 && 0 <= c < 3 && 0 <= n < 3 && 0 <= k < 3
    ensures Flatten(Remap(m))[27 * r + 9 * c + 3 * n + k] == m[3 * r + n][3 * c + k]
  {
    var i, j := 3 * r + c, 3 * n + k;
    Split3(r, c);
    Split3(n, k);
    assert BlockRow(i, j) == 3 * r + n && BlockCol(i, j) == 3 * c + k;
    assert Remap(m)[i][j] == m[3 * r + n][3 * c + k];
    assert 27 * r + 9 * c + 3 * n + k == Index(i, j);
  }

  /** Reading a page by blocks, reshaping, and writing the unchanged board
      back by blocks yields the page's own cell list. */
  lemma PageRoundTrip(page: seq<int>)
    requires |page| == 81
    ensures Flatten(Remap(Rows(Flatten(Remap(Rows(page)))))) == page
  {
    RowsFlatten(Remap(Rows(page)));
    RemapInvolution(Rows(page));
    FlattenRows(page);
  }
}
