/**
 * Locating a piece and measuring its bounding box, as `possible_moves` and
 * `apply_move` both do (State.cpp): find the first row-major cell holding
 * the label, count the run of that label down its column and along its row.
 * The piece is assumed, never checked, to be a full rectangle; `PieceOccupies`
 * states that assumption so that lemmas can require it.
 */
module Pieces {
  import opened Results
  import opened Grids
  import opened Moves

  datatype Pos = Pos(row: int, col: int)

  /** The rectangle of `height` rows and `width` columns whose top-left cell is (`top`, `left`). */
  datatype Box = Box(top: int, left: int, height: int, width: int)

  predicate InBox(b: Box, y: int, x: int) {
    b.top <= y < b.top + b.height && b.left <= x < b.left + b.width
  }

  predicate BoxInGrid(g: Grid, b: Box) {
    0 <= b.top && b.top + b.height <= |g| && 0 <= b.left && b.left + b.width <= Width(g)
  }

  /** (y, x) is scanned before (y', x') in row-major order. */
  predicate Before(y: int, x: int, y': int, x': int) {
    y < y' || (y == y' && x < x')
  }

  /** `pos` is the first cell, in row-major order, that holds `p`. */
  ghost predicate FirstAt(g: Grid, p: int, pos: Pos) {
    && InGrid(g, pos.row, pos.col)
    && g[pos.row][pos.col] == p
    && forall y, x :: InGrid(g, y, x) && Before(y, x, pos.row, pos.col) ==> g[y][x] != p
  }

  /** The piece labelled `p` occupies exactly the cells of `b`: the rectangularity the source assumes. */
  ghost predicate PieceOccupies(g: Grid, p: int, b: Box) {
    && BoxInGrid(g, b)
    && b.height >= 1 && b.width >= 1
    && forall y, x :: InGrid(g, y, x) ==> (g[y][x] == p <==> InBox(b, y, x))
  }

  function FindInRow(row: seq<int>, p: int, x: nat): (r: Option<nat>)
    requires x <= |row|
    ensures r.Some? ==> x <= r.value < |row| && row[r.value] == p
    ensures r.Some? ==> forall k :: x <= k < r.value ==> row[k] != p
    ensures r.None? ==> forall k :: x <= k < |row| ==> row[k] != p
    decreases |row| - x
  {
    if x == |row| then None
    else if row[x] == p then Some(x)
    else FindInRow(row, p, x + 1)
  }

  function FindFrom(g: Grid, p: int, y: nat): (r: Option<Pos>)
    requires y <= |g|
    ensures r.Some? ==> y <= r.value.row && InGrid(g, r.value.row, r.value.col)
    ensures r.Some? ==> g[r.value.row][r.value.col] == p
    ensures r.Some? ==> forall y', x' :: InGrid(g, y', x') && y <= y' && Before(y', x', r.value.row, r.value.col) ==> g[y'][x'] != p
    ensures r.None? ==> forall y', x' :: InGrid(g, y', x') && y <= y' ==> g[y'][x'] != p
    decreases |g| - y
  {
    if y == |g| then None
    else match FindInRow(g[y], p, 0)
      case Some(x) => Some(Pos(y, x))
      case None => FindFrom(g, p, y + 1)
  }

  /** The source's search loop with its `found` flag: the first row-major cell holding `p`, if any. */
  function FindPiece(g: Grid, p: int): (r: Option<Pos>)
    ensures r.Some? ==> FirstAt(g, p, r.value)
    ensures r.None? <==> !Occurs(g, p)
  {
    FindFrom(g, p, 0)
  }

  /** Length of the run of `p` going down column `x` from row `y`. */
  function RunDown(g: Grid, p: int, y: nat, x: nat): (h: nat)
    requires Rectangular(g) && y <= |g| && x < Width(g)
    ensures y + h <= |g|
    ensures forall k :: y <= k < y + h ==> g[k][x] == p
    ensures y + h < |g| ==> g[y + h][x] != p
    decreases |g| - y
  {
    if y == |g| || g[y][x] != p then 0 else 1 + RunDown(g, p, y + 1, x)
  }

  /** Length of the run of `p` going right along `row` from column `x`. */
  function RunRight(row: seq<int>, p: int, x: nat): (w: nat)
    requires x <= |row|
    ensures x + w <= |row|
    ensures forall k :: x <= k < x + w ==> row[k] == p
    ensures x + w < |row| ==> row[x + w] != p
    decreases |row| - x
  {
    if x == |row| || row[x] != p then 0 else 1 + RunRight(row, p, x + 1)
  }

  /** The box a search for `p` measures: its first cell, then the runs down and right from it. */
  function PieceBox(g: Grid, p: int): (r: Option<Box>)
    requires Rectangular(g)
    ensures r.Some? <==> Occurs(g, p)
    ensures r.Some? ==> BoxInGrid(g, r.value) && r.value.height >= 1 && r.value.width >= 1
    ensures r.Some? ==> FirstAt(g, p, Pos(r.value.top, r.value.left))
    ensures r.Some? ==> forall k :: r.value.top <= k < r.value.top + r.value.height ==> g[k][r.value.left] == p
    ensures r.Some? && r.value.top + r.value.height < |g| ==> g[r.value.top + r.value.height][r.value.left] != p
    ensures r.Some? ==> forall k :: r.value.left <= k < r.value.left + r.value.width ==> g[r.value.top][k] == p
    ensures r.Some? && r.value.left + r.value.width < Width(g) ==> g[r.value.top][r.value.left + r.value.width] != p
  {
    match FindPiece(g, p)
    case None => None
    case Some(pos) =>
      Some(Box(pos.row, pos.col, RunDown(g, p, pos.row, pos.col), RunRight(g[pos.row], p, pos.col)))
  }

  /** A run is determined by where it stops. */
  lemma {:induction false} RunDownExact(g: Grid, p: int, y: nat, x: nat, h: nat)
    requires Rectangular(g) && y + h <= |g| && x < Width(g)
    requires forall k :: y <= k < y + h ==> g[k][x] == p
    requires y + h < |g| ==> g[y + h][x] != p
    ensures RunDown(g, p, y, x) == h
    decreases h
  {
    if h > 0 {
      RunDownExact(g, p, y + 1, x, h - 1);
    }
  }

  lemma {:induction false} RunRightExact(row: seq<int>, p: int, x: nat, w: nat)
    requires x + w <= |row|
    requires forall k :: x <= k < x + w ==> row[k] == p
    requires x + w < |row| ==> row[x + w] != p
    ensures RunRight(row, p, x) == w
    decreases w
  {
    if w > 0 {
      RunRightExact(row, p, x + 1, w - 1);
    }
  }

  /** For a rectangular piece the measured box is the piece itself. */
  lemma MeasuredBoxIsPiece(g: Grid, p: int, b: Box)
    requires Rectangular(g) && PieceOccupies(g, p, b)
    ensures PieceBox(g, p) == Some(b)
  {
    assert InGrid(g, b.top, b.left) && g[b.top][b.left] == p;
    var pos := FindPiece(g, p).value;
    assert !Before(b.top, b.left, pos.row, pos.col);
    assert InBox(b, pos.row, pos.col);
    assert pos == Pos(b.top, b.left);
    assert b.top + b.height < |g| ==> !InBox(b, b.top + b.height, b.left);
    RunDownExact(g, p, b.top, b.left, b.height);
    assert b.left + b.width < Width(g) ==> !InBox(b, b.top, b.left + b.width);
    RunRightExact(g[b.top], p, b.left, b.width);
  }

  // Geometry of a one-cell move in direction `d`.

  function RowStep(d: Direction): int {
    match d
    case Up => -1
    case Down => 1
    case Left => 0
    case Right => 0
  }

  function ColStep(d: Direction): int {
    match d
    case Up => 0
    case Down => 0
    case Left => -1
    case Right => 1
  }

  /** `b` moved one cell in direction `d`. */
  function Shift(b: Box, d: Direction): Box {
    Box(b.top + RowStep(d), b.left + ColStep(d), b.height, b.width)
  }

  /** The guard the source tests before scanning a side: the box does not touch the grid edge in direction `d`. */
  predicate TargetInGrid(g: Grid, b: Box, d: Direction) {
    match d
    case Left => b.left > 0
    case Right => b.left + b.width < Width(g)
    case Up => b.top > 0
    case Down => b.top + b.height < |g|
  }

  /** Cells the piece would move onto: in the shifted box but not in the box. */
  predicate InTarget(b: Box, d: Direction, y: int, x: int) {
    InBox(Shift(b, d), y, x) && !InBox(b, y, x)
  }

  /** Cells the piece would leave: in the box but not in the shifted box. */
  predicate InVacated(b: Box, d: Direction, y: int, x: int) {
    InBox(b, y, x) && !InBox(Shift(b, d), y, x)
  }

  /** Every grid cell the piece would move onto is empty. */
  ghost predicate SideEmpty(g: Grid, b: Box, d: Direction) {
    forall y, x :: InGrid(g, y, x) && InTarget(b, d, y, x) ==> g[y][x] == Empty
  }
}
