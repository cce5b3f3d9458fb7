/**
 * `swapIdx` and `normalize` of State.cpp. `normalize` scans the grid in
 * row-major order with a counter that starts at 3; a label equal to the
 * counter advances it, a larger label is first swapped with the counter
 * everywhere in the grid. The result is the grid relabelled so that labels
 * from 3 on first appear in the order 3, 4, 5, ...; labels below 3 are
 * never touched.
 */
module Normalization {
  import opened Grids

  /** The counter's start: labels below it are never renumbered. */
  const FirstLabel: int := 3

  function SwapLabel(v: int, a: int, b: int): int {
    if v == a then b else if v == b then a else v
  }

  function SwapCells(c: seq<int>, a: int, b: int): (r: seq<int>)
    ensures |r| == |c| && forall i :: 0 <= i < |c| ==> r[i] == SwapLabel(c[i], a, b)
  {
    seq(|c|, i requires 0 <= i < |c| => SwapLabel(c[i], a, b))
  }

  function SwapGrid(g: Grid, a: int, b: int): (r: Grid)
    ensures SameDims(r, g)
    ensures forall y, x :: InGrid(g, y, x) ==> r[y][x] == SwapLabel(g[y][x], a, b)
  {
    seq(|g|, y requires 0 <= y < |g| => SwapCells(g[y], a, b))
  }

  /** `swapIdx`: labels `a` and `b` trade places in every cell; all other cells keep their label. */
  function SwapIdx(s: State, a: int, b: int): (r: State)
    requires Rectangular(s.grid)
    ensures SameDims(r.grid, s.grid) && Rectangular(r.grid)
    ensures forall y, x :: InGrid(s.grid, y, x) ==>
      && (s.grid[y][x] == a ==> r.grid[y][x] == b)
      && (s.grid[y][x] == b ==> r.grid[y][x] == a)
      && (s.grid[y][x] != a && s.grid[y][x] != b ==> r.grid[y][x] == s.grid[y][x])
  {
    State(SwapGrid(s.grid, a, b))
  }

  /** Swapping the same two labels twice restores the grid. */
  lemma SwapIdxInvolution(s: State, a: int, b: int)
    requires Rectangular(s.grid)
    ensures SwapIdx(SwapIdx(s, a, b), a, b) == s
  {
    var g, r := s.grid, SwapIdx(SwapIdx(s, a, b), a, b).grid;
    assert |r| == |g|;
    forall y | 0 <= y < |g| ensures r[y] == g[y] {
      assert |r[y]| == |g[y]|;
    }
  }

  lemma {:induction false} CellsSwap(g: Grid, a: int, b: int)
    ensures Cells(SwapGrid(g, a, b)) == SwapCells(Cells(g), a, b)
    decreases |g|
  {
    if |g| > 0 {
      var n := |g| - 1;
      assert SwapGrid(g, a, b)[..n] == SwapGrid(g[..n], a, b);
      CellsSwap(g[..n], a, b);
    }
  }

  /** Swapping labels in the grid swaps them in every scanned prefix. */
  lemma PrefixSwap(g: Grid, a: int, b: int, y: nat, x: nat)
    requires y <= |g| && (y < |g| ==> x <= |g[y]|)
    ensures Prefix(SwapGrid(g, a, b), y, x) == SwapCells(Prefix(g, y, x), a, b)
  {
    CellsSwap(g, a, b);
    if y < |g| {
      assert SwapGrid(g, a, b)[..y] == SwapGrid(g[..y], a, b);
      CellsSwap(g[..y], a, b);
    }
  }

  /**
   * `b` is `a` with its labels renamed one-to-one, labels below 3 kept:
   * two positions hold equal labels in `a` exactly when they do in `b`.
   */
  ghost predicate Relabeled(a: seq<int>, b: seq<int>) {
    && |a| == |b|
    && (forall i, j :: 0 <= i < |a| && 0 <= j < |a| ==> (a[i] == a[j] <==> b[i] == b[j]))
    && (forall i :: 0 <= i < |a| && (a[i] < FirstLabel || b[i] < FirstLabel) ==> a[i] == b[i])
  }

  /** Same shape, and the row-major listings are relabellings of one another. */
  ghost predicate Relabeling(g: Grid, h: Grid) {
    SameDims(g, h) && Relabeled(Cells(g), Cells(h))
  }

  /** Whenever a label of 3 or more occurs, every smaller label from 3 on has occurred earlier. */
  ghost predicate Ordered(c: seq<int>) {
    forall i, l :: 0 <= i < |c| && FirstLabel <= l < c[i] ==> l in c[..i]
  }

  /** Labels from 3 on first appear, in row-major order, as 3, 4, 5, ... */
  ghost predicate Canonical(g: Grid) {
    Ordered(Cells(g))
  }

  /** Every cell holding a label below 3 in either grid holds the same label in both. */
  ghost predicate KeepsLowLabels(g: Grid, h: Grid) {
    SameDims(g, h) &&
    forall i, j :: InGrid(g, i, j) && (g[i][j] < FirstLabel || h[i][j] < FirstLabel) ==> h[i][j] == g[i][j]
  }

  /** The scan's invariant: the labels of 3 or more seen so far are exactly 3 .. `next` - 1. */
  ghost predicate Seen(p: seq<int>, next: int) {
    && (forall i :: 0 <= i < |p| && p[i] >= FirstLabel ==> p[i] < next)
    && (forall l :: FirstLabel <= l < next ==> l in p)
  }

  lemma RelabeledSymmetric(a: seq<int>, b: seq<int>)
    requires Relabeled(a, b)
    ensures Relabeled(b, a)
  {
  }

  lemma RelabeledTransitive(a: seq<int>, b: seq<int>, c: seq<int>)
    requires Relabeled(a, b) && Relabeled(b, c)
    ensures Relabeled(a, c)
  {
  }

  /** Swapping two labels of 3 or more is a relabelling. */
  lemma SwapRelabels(c: seq<int>, a: int, b: int)
    requires a >= FirstLabel && b >= FirstLabel
    ensures Relabeled(c, SwapCells(c, a, b))
  {
  }

  /** Swapping labels that do not occur changes nothing. */
  lemma SwapAbsent(c: seq<int>, a: int, b: int)
    requires a !in c && b !in c
    ensures SwapCells(c, a, b) == c
  {
  }

  /** Scanning one more label `v`, not above the counter, keeps the invariants. */
  lemma ScanLabel(p: seq<int>, v: int, next: int)
    requires next >= FirstLabel && Seen(p, next) && Ordered(p) && v <= next
    ensures Ordered(p + [v])
    ensures Seen(p + [v], if v == next then next + 1 else next)
  {
    var q := p + [v];
    assert q[..|p|] == p;
    forall i, l | 0 <= i < |q| && FirstLabel <= l < q[i] ensures l in q[..i] {
      if i < |p| {
        assert q[..i] == p[..i];
      }
    }
    if v == next {
      forall l | FirstLabel <= l < next + 1 ensures l in q {
        if l < next {
          assert l in p;
        } else {
          assert q[|p|] == l;
        }
      }
    }
  }

  /**
   * The source's nested loops from cell (`y`, `x`) on, with the counter at
   * `next`. The counter never drops below 3, so every swap it makes is
   * between labels of 3 or more: a cell below 3 keeps its label and no cell
   * is given a label below 3.
   */
  function NormalizeFrom(s: State, y: nat, x: nat, next: int): (r: State)
    requires Rectangular(s.grid) && y <= |s.grid| && x <= Width(s.grid) && next >= FirstLabel
    ensures SameDims(r.grid, s.grid) && Rectangular(r.grid)
    ensures KeepsLowLabels(s.grid, r.grid)
    decreases |s.grid| - y, Width(s.grid) - x
  {
    var g := s.grid;
    if y == |g| then s
    else if x == Width(g) then NormalizeFrom(s, y + 1, 0, next)
    else if g[y][x] == next then NormalizeFrom(s, y, x + 1, next + 1)
    else if g[y][x] > next then NormalizeFrom(SwapIdx(s, next, g[y][x]), y, x + 1, next + 1)
    else NormalizeFrom(s, y, x + 1, next)
  }

  /** A step at a label not above the counter: the scanned prefix grows by that label. */
  lemma StepKeep(s: State, y: nat, x: nat, next: int)
    requires Rectangular(s.grid) && y < |s.grid| && x < Width(s.grid) && next >= FirstLabel
    requires Seen(Prefix(s.grid, y, x), next) && Ordered(Prefix(s.grid, y, x))
    requires s.grid[y][x] <= next
    ensures var next' := if s.grid[y][x] == next then next + 1 else next;
      Seen(Prefix(s.grid, y, x + 1), next') && Ordered(Prefix(s.grid, y, x + 1))
  {
    PrefixStep(s.grid, y, x);
    ScanLabel(Prefix(s.grid, y, x), s.grid[y][x], next);
  }

  /**
   * A step at a label above the counter: the swap leaves the scanned prefix
   * alone, relabels the grid, and puts the counter into the current cell.
   */
  lemma StepSwap(s: State, y: nat, x: nat, next: int)
    requires Rectangular(s.grid) && y < |s.grid| && x < Width(s.grid) && next >= FirstLabel
    requires Seen(Prefix(s.grid, y, x), next) && Ordered(Prefix(s.grid, y, x))
    requires s.grid[y][x] > next
    ensures var s' := SwapIdx(s, next, s.grid[y][x]);
      && Seen(Prefix(s'.grid, y, x + 1), next + 1) && Ordered(Prefix(s'.grid, y, x + 1))
      && Relabeled(Cells(s.grid), Cells(s'.grid))
  {
    var g, v, p := s.grid, s.grid[y][x], Prefix(s.grid, y, x);
    var g' := SwapIdx(s, next, v).grid;
    assert next !in p && v !in p;
    PrefixSwap(g, next, v, y, x);
    SwapAbsent(p, next, v);
    PrefixStep(g', y, x);
    assert g'[y][x] == next;
    ScanLabel(p, next, next);
    CellsSwap(g, next, v);
    SwapRelabels(Cells(g), next, v);
  }

  /**
   * From a point where the scanned prefix is ordered and holds exactly the
   * labels 3 .. `next` - 1, the rest of the scan only relabels and leaves
   * the whole listing ordered.
   */
  lemma {:induction false} NormalizeFromSound(s: State, y: nat, x: nat, next: int)
    requires Rectangular(s.grid) && y <= |s.grid| && x <= Width(s.grid) && next >= FirstLabel
    requires Seen(Prefix(s.grid, y, x), next) && Ordered(Prefix(s.grid, y, x))
    ensures Relabeled(Cells(s.grid), Cells(NormalizeFrom(s, y, x, next).grid))
    ensures Ordered(Cells(NormalizeFrom(s, y, x, next).grid))
    decreases |s.grid| - y, Width(s.grid) - x, 1
  {
    var g := s.grid;
    if y == |g| {
    } else if x == Width(g) {
      PrefixRowEnd(g, y);
      NormalizeFromSound(s, y + 1, 0, next);
      assert NormalizeFrom(s, y, x, next) == NormalizeFrom(s, y + 1, 0, next);
    } else if g[y][x] == next {
      StepKeep(s, y, x, next);
      NormalizeFromSound(s, y, x + 1, next + 1);
      assert NormalizeFrom(s, y, x, next) == NormalizeFrom(s, y, x + 1, next + 1);
    } else if g[y][x] > next {
      SwapStepSound(s, y, x, next);
    } else {
      StepKeep(s, y, x, next);
      NormalizeFromSound(s, y, x + 1, next);
      assert NormalizeFrom(s, y, x, next) == NormalizeFrom(s, y, x + 1, next);
    }
  }

  /** The scan at a label above the counter: swap, then go on with the next cell. */
  lemma {:induction false} SwapStepSound(s: State, y: nat, x: nat, next: int)
    requires Rectangular(s.grid) && y < |s.grid| && x < Width(s.grid) && next >= FirstLabel
    requires Seen(Prefix(s.grid, y, x), next) && Ordered(Prefix(s.grid, y, x))
    requires s.grid[y][x] > next
    ensures Relabeled(Cells(s.grid), Cells(NormalizeFrom(s, y, x, next).grid))
    ensures Ordered(Cells(NormalizeFrom(s, y, x, next).grid))
    decreases |s.grid| - y, Width(s.grid) - x, 0
  {
    var s' := SwapIdx(s, next, s.grid[y][x]);
    var r := NormalizeFrom(s', y, x + 1, next + 1);
    assert NormalizeFrom(s, y, x, next) == r;
    StepSwap(s, y, x, next);
    NormalizeFromSound(s', y, x + 1, next + 1);
    RelabeledTransitive(Cells(s.grid), Cells(s'.grid), Cells(r.grid));
  }

  /**
   * `normalize`: the result has the input's shape, is a relabelling of it
   * that keeps every label below 3, and is canonical.
   */
  function Normalize(s: State): (r: State)
    requires Rectangular(s.grid)
    ensures Rectangular(r.grid)
    ensures Relabeling(s.grid, r.grid)
    ensures Canonical(r.grid)
  {
    assert Prefix(s.grid, 0, 0) == [] by {
      if |s.grid| > 0 {
        assert s.grid[..0] == [];
      }
    }
    NormalizeFromSound(s, 0, 0, FirstLabel);
    NormalizeFrom(s, 0, 0, FirstLabel)
  }

  /** Two ordered listings that relabel one another agree on their first `k` labels. */
  lemma {:induction false} OrderedPrefixAgree(c1: seq<int>, c2: seq<int>, k: nat)
    requires Ordered(c1) && Ordered(c2) && Relabeled(c1, c2) && k <= |c1|
    ensures c1[..k] == c2[..k]
    decreases k
  {
    if k > 0 {
      var i := k - 1;
      OrderedPrefixAgree(c1, c2, i);
      var v1, v2 := c1[i], c2[i];
      if v1 < FirstLabel || v2 < FirstLabel {
      } else if v1 in c1[..i] {
        var j :| 0 <= j < i && c1[..i][j] == v1;
        assert c2[..i][j] == c1[..i][j];
      } else {
        assert forall j :: 0 <= j < i ==> c2[..i][j] != v2 by {
          forall j | 0 <= j < i ensures c2[..i][j] != v2 {
            assert c1[..i][j] == c1[j];
          }
        }
        assert v2 !in c1[..i] && v1 !in c2[..i];
        assert v1 == v2;
      }
      assert c1[..k] == c1[..i] + [v1];
      assert c2[..k] == c2[..i] + [v2];
    }
  }

  /** A canonical grid is the only canonical relabelling of itself. */
  lemma CanonicalUnique(g: Grid, h: Grid)
    requires Relabeling(g, h) && Canonical(g) && Canonical(h)
    ensures g == h
  {
    var c1, c2 := Cells(g), Cells(h);
    OrderedPrefixAgree(c1, c2, |c1|);
    assert c1[..|c1|] == c1 && c2[..|c2|] == c2;
    CellsDetermineGrid(g, h);
  }

  /** A canonical grid is left as it is. */
  lemma NormalizeFixesCanonical(s: State)
    requires Rectangular(s.grid) && Canonical(s.grid)
    ensures Normalize(s) == s
  {
    CanonicalUnique(s.grid, Normalize(s).grid);
  }

  lemma NormalizeIdempotent(s: State)
    requires Rectangular(s.grid)
    ensures Normalize(Normalize(s)) == Normalize(s)
  {
    NormalizeFixesCanonical(Normalize(s));
  }

  /** Grids that differ only in how labels of 3 or more are named normalize to the same grid. */
  lemma NormalizeIgnoresNaming(s1: State, s2: State)
    requires Rectangular(s1.grid) && Rectangular(s2.grid) && Relabeling(s1.grid, s2.grid)
    ensures Normalize(s1) == Normalize(s2)
  {
    var r1, r2 := Normalize(s1).grid, Normalize(s2).grid;
    RelabeledSymmetric(Cells(s1.grid), Cells(r1));
    RelabeledTransitive(Cells(r1), Cells(s1.grid), Cells(s2.grid));
    RelabeledTransitive(Cells(r1), Cells(s2.grid), Cells(r2));
    CanonicalUnique(r1, r2);
  }

  /** `normalize` keeps the sentinel cells, so it does not change completion. */
  lemma NormalizePreservesComplete(s: State)
    requires Rectangular(s.grid)
    ensures NoSentinel(Normalize(s).grid) <==> NoSentinel(s.grid)
  {
    var c1, c2 := Cells(s.grid), Cells(Normalize(s).grid);
    InCells(s.grid, Sentinel);
    InCells(Normalize(s).grid, Sentinel);
    if Sentinel in c1 {
      var i :| 0 <= i < |c1| && c1[i] == Sentinel;
      assert c2[i] == Sentinel;
    }
    if Sentinel in c2 {
      var i :| 0 <= i < |c2| && c2[i] == Sentinel;
      assert c1[i] == Sentinel;
    }
  }
}
