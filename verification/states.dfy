/**
 * The remaining `State` members of State.cpp: `clone`, `is_complete`,
 * `operator==`, `operator!=` and `apply_move_cloning`. The model's `State`
 * is an immutable value, so the receiver of `apply_move_cloning` is never
 * changed; the in-place `apply_move` and `normalize` return the receiver's
 * new value.
 */
module States {
  import opened Grids
  import opened Moves
  import opened Pieces
  import opened Apply

  /** `clone`: a copy equal to the original. */
  function Clone(s: State): (r: State)
    ensures r == s
  {
    State(s.grid)
  }

  /** `is_complete`: scans every row and stops at the first sentinel cell. */
  method IsComplete(s: State) returns (complete: bool)
    ensures complete <==> NoSentinel(s.grid)
  {
    var g := s.grid;
    var y := 0;
    while y < |g|
      invariant 0 <= y <= |g|
      invariant forall k, x :: 0 <= k < y && 0 <= x < |g[k]| ==> g[k][x] != Sentinel
    {
      var row := g[y];
      var x := 0;
      while x < |row|
        invariant 0 <= x <= |row|
        invariant forall k :: 0 <= k < x ==> row[k] != Sentinel
      {
        if row[x] == Sentinel {
          assert InGrid(g, y, x);
          return false;
        }
        x := x + 1;
      }
      y := y + 1;
    }
    return true;
  }

  /**
   * `operator==`: row count, then the width of row 0, then every cell. Row 0
   * is read only once the row counts agree, so the one input the source
   * cannot handle is two grids without rows.
   */
  method Equal(a: State, b: State) returns (eq: bool)
    requires (|a.grid| > 0 || |b.grid| > 0) && Rectangular(a.grid) && Rectangular(b.grid)
    ensures eq <==> a == b
  {
    var g, h := a.grid, b.grid;
    if |g| != |h| {
      return false;
    }
    if |g[0]| != |h[0]| {
      return false;
    }
    var y := 0;
    while y < |g|
      invariant 0 <= y <= |g|
      invariant forall k :: 0 <= k < y ==> g[k] == h[k]
    {
      var x := 0;
      while x < |g[0]|
        invariant 0 <= x <= |g[0]|
        invariant g[y][..x] == h[y][..x]
      {
        if g[y][x] != h[y][x] {
          return false;
        }
        assert g[y][..x + 1] == g[y][..x] + [g[y][x]];
        assert h[y][..x + 1] == h[y][..x] + [h[y][x]];
        x := x + 1;
      }
      assert g[y] == g[y][..|g[0]|] && h[y] == h[y][..|g[0]|];
      y := y + 1;
    }
    assert g == h;
    return true;
  }

  /** `operator!=`: the negation of `operator==`. */
  method NotEqual(a: State, b: State) returns (ne: bool)
    requires (|a.grid| > 0 || |b.grid| > 0) && Rectangular(a.grid) && Rectangular(b.grid)
    ensures ne <==> a != b
  {
    var eq := Equal(a, b);
    ne := !eq;
  }

  /**
   * `apply_move_cloning`: `apply_move` on a clone. When the piece is on the
   * board and the cells it moves onto are empty, the copy differs from the
   * receiver.
   */
  function ApplyMoveCloning(s: State, m: Move): (r: State)
    requires Rectangular(s.grid) && CanApply(s.grid, m)
    ensures r == ApplyMove(s, m)
    ensures (Occurs(s.grid, m.piece) && m.piece != Empty &&
             SideEmpty(s.grid, PieceBox(s.grid, m.piece).value, m.direction)) ==> r != s
  {
    match PieceBox(s.grid, m.piece)
    case Some(b) =>
      var front := FrontCell(b, m.direction);
      assert InGrid(s.grid, front.row, front.col) && InTarget(b, m.direction, front.row, front.col);
      ApplyMove(Clone(s), m)
    case None =>
      ApplyMove(Clone(s), m)
  }
}
