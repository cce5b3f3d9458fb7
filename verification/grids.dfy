/**
 * The board: a grid of integer cell labels held by a `State`.
 * Label 0 is an empty cell, labels below 2 never move, and -1 is the
 * completion sentinel. Row-major order is expressed through `Cells`, the
 * rows of the grid laid end to end, and `Prefix`, the part of that listing
 * a row-major scan has passed before reaching a given cell.
 */
module Grids {

  type Grid = seq<seq<int>>

  const Empty: int := 0
  const Sentinel: int := -1

  /** The source's `State` class: it owns exactly one grid. */
  datatype State = State(grid: Grid)

  /** Number of columns, read from the first row as the source does. */
  function Width(g: Grid): nat {
    if |g| == 0 then 0 else |g[0]|
  }

  /** Every row as long as the first one. */
  predicate Rectangular(g: Grid) {
    forall y :: 0 <= y < |g| ==> |g[y]| == Width(g)
  }

  predicate InGrid(g: Grid, y: int, x: int) {
    0 <= y < |g| && 0 <= x < |g[y]|
  }

  predicate SameDims(g: Grid, h: Grid) {
    |g| == |h| && forall y :: 0 <= y < |g| ==> |g[y]| == |h[y]|
  }

  /** Some cell holds label `v`. */
  ghost predicate Occurs(g: Grid, v: int) {
    exists y, x :: InGrid(g, y, x) && g[y][x] == v
  }

  /** No cell holds the sentinel -1. */
  ghost predicate NoSentinel(g: Grid) {
    forall y, x :: InGrid(g, y, x) ==> g[y][x] != Sentinel
  }

  /** The cells in row-major order. */
  function Cells(g: Grid): seq<int>
    decreases |g|
  {
    if |g| == 0 then [] else Cells(g[..|g| - 1]) + g[|g| - 1]
  }

  /** The cells a row-major scan has visited before reaching column `x` of row `y`. */
  function Prefix(g: Grid, y: nat, x: nat): seq<int>
    requires y <= |g| && (y < |g| ==> x <= |g[y]|)
  {
    if y == |g| then Cells(g) else Cells(g[..y]) + g[y][..x]
  }

  lemma {:induction false} InCells(g: Grid, v: int)
    ensures v in Cells(g) <==> Occurs(g, v)
    decreases |g|
  {
    if |g| > 0 {
      var n := |g| - 1;
      var front := g[..n];
      InCells(front, v);
      assert Cells(g) == Cells(front) + g[n];
      if v in Cells(g) {
        if v in Cells(front) {
          var y, x :| InGrid(front, y, x) && front[y][x] == v;
          assert InGrid(g, y, x) && g[y][x] == v;
        } else {
          var x :| 0 <= x < |g[n]| && g[n][x] == v;
          assert InGrid(g, n, x) && g[n][x] == v;
        }
      }
      if Occurs(g, v) {
        var y, x :| InGrid(g, y, x) && g[y][x] == v;
        if y < n {
          assert InGrid(front, y, x) && front[y][x] == v;
        } else {
          assert g[n][x] in g[n];
        }
      }
    }
  }

  /** Two grids of the same shape with the same row-major listing are equal. */
  lemma {:induction false} CellsDetermineGrid(g: Grid, h: Grid)
    requires SameDims(g, h) && Cells(g) == Cells(h)
    ensures g == h
    decreases |g|
  {
    if |g| > 0 {
      var n := |g| - 1;
      assert SameDims(g[..n], h[..n]);
      var cg, ch := Cells(g[..n]), Cells(h[..n]);
      assert |cg| == |ch| by { CellsLength(g[..n], h[..n]); }
      assert cg + g[n] == ch + h[n];
      assert cg == (cg + g[n])[..|cg|];
      assert ch == (ch + h[n])[..|ch|];
      assert g[n] == (cg + g[n])[|cg|..];
      assert h[n] == (ch + h[n])[|ch|..];
      CellsDetermineGrid(g[..n], h[..n]);
      assert g == g[..n] + [g[n]];
      assert h == h[..n] + [h[n]];
    }
  }

  lemma {:induction false} CellsLength(g: Grid, h: Grid)
    requires SameDims(g, h)
    ensures |Cells(g)| == |Cells(h)|
    decreases |g|
  {
    if |g| > 0 {
      CellsLength(g[..|g| - 1], h[..|h| - 1]);
    }
  }

  /** Scanning one more cell of a row extends the prefix by that cell. */
  lemma PrefixStep(g: Grid, y: nat, x: nat)
    requires y < |g| && x < |g[y]|
    ensures Prefix(g, y, x + 1) == Prefix(g, y, x) + [g[y][x]]
  {
    assert g[y][..x + 1] == g[y][..x] + [g[y][x]];
  }

  /** The end of row `y` is the start of row `y + 1`. */
  lemma PrefixRowEnd(g: Grid, y: nat)
    requires y < |g|
    ensures Prefix(g, y, |g[y]|) == Prefix(g, y + 1, 0)
  {
    assert g[..y + 1][..y] == g[..y];
    assert g[y][..|g[y]|] == g[y];
    if y + 1 == |g| {
      assert g[..y + 1] == g;
    }
  }
}
