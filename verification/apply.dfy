/**
 * `apply_move` of State.cpp: locate the piece as `possible_moves` does,
 * then, along the side the piece moves towards, write the label into the
 * line of cells beyond the box and clear the opposite line of the box.
 * The source checks nothing; the model asks for the line beyond the box to
 * lie inside the grid, which is what keeps the source's writes in bounds.
 */
module Apply {
  import opened Grids
  import opened Moves
  import opened Pieces
  import opened MoveGen

  function Put(g: Grid, y: nat, x: nat, v: int): (r: Grid)
    requires InGrid(g, y, x)
  {
    g[y := g[y][x := v]]
  }

  /** The UP and DOWN loop: for columns `x` up to `xEnd`, label row `into` and clear row `from`. */
  function ShiftColumns(g: Grid, p: int, into: nat, from: nat, x: nat, xEnd: nat): (r: Grid)
    requires Rectangular(g) && into < |g| && from < |g| && into != from && x <= xEnd <= Width(g)
    ensures SameDims(r, g) && Rectangular(r) && Width(r) == Width(g)
    ensures forall y, c :: InGrid(g, y, c) ==>
      r[y][c] == (if y == into && x <= c < xEnd then p else if y == from && x <= c < xEnd then Empty else g[y][c])
    decreases xEnd - x
  {
    if x == xEnd then g
    else
      var g' := Put(Put(g, into, x, p), from, x, Empty);
      assert Width(g') == Width(g);
      ShiftColumns(g', p, into, from, x + 1, xEnd)
  }

  /** The LEFT and RIGHT loop: for rows `y` up to `yEnd`, label column `into` and clear column `from`. */
  function ShiftRows(g: Grid, p: int, into: nat, from: nat, y: nat, yEnd: nat): (r: Grid)
    requires Rectangular(g) && into < Width(g) && from < Width(g) && into != from && y <= yEnd <= |g|
    ensures SameDims(r, g) && Rectangular(r) && Width(r) == Width(g)
    ensures forall k, c :: InGrid(g, k, c) ==>
      r[k][c] == (if c == into && y <= k < yEnd then p else if c == from && y <= k < yEnd then Empty else g[k][c])
    decreases yEnd - y
  {
    if y == yEnd then g
    else
      var g' := Put(Put(g, y, into, p), y, from, Empty);
      assert Width(g') == Width(g);
      ShiftRows(g', p, into, from, y + 1, yEnd)
  }

  /**
   * What `apply_move` needs to stay in bounds. For a piece on the board, the
   * line beyond its measured box in the move's direction lies inside the
   * grid. For an absent piece the source's search leaves both start
   * coordinates at -1: the measuring loops compare that against an unsigned
   * size and stop at once, every shift loop is empty, and only the read of
   * row 0 needs the grid to have a row.
   */
  ghost predicate CanApply(g: Grid, m: Move)
    requires Rectangular(g)
  {
    if Occurs(g, m.piece) then TargetInGrid(g, PieceBox(g, m.piece).value, m.direction) else |g| > 0
  }

  /**
   * `apply_move`: the cells beyond the measured box in the move's direction
   * get the piece label, the cells the box leaves become empty, and nothing
   * else changes. A move of an absent piece changes nothing.
   */
  function ApplyMove(s: State, m: Move): (r: State)
    requires Rectangular(s.grid) && CanApply(s.grid, m)
    ensures SameDims(r.grid, s.grid) && Rectangular(r.grid)
    ensures !Occurs(s.grid, m.piece) ==> r == s
    ensures Occurs(s.grid, m.piece) ==>
      var b := PieceBox(s.grid, m.piece).value;
      forall y, x :: InGrid(s.grid, y, x) ==>
        r.grid[y][x] == (if InTarget(b, m.direction, y, x) then m.piece
                         else if InVacated(b, m.direction, y, x) then Empty
                         else s.grid[y][x])
  {
    var g, p := s.grid, m.piece;
    match PieceBox(g, p)
    case None => s
    case Some(b) =>
      match m.direction
      case Up =>
        VerticalLines(b, Up, b.top - 1, b.top + b.height - 1);
        State(ShiftColumns(g, p, b.top - 1, b.top + b.height - 1, b.left, b.left + b.width))
      case Down =>
        VerticalLines(b, Down, b.top + b.height, b.top);
        State(ShiftColumns(g, p, b.top + b.height, b.top, b.left, b.left + b.width))
      case Left =>
        HorizontalLines(b, Left, b.left - 1, b.left + b.width - 1);
        State(ShiftRows(g, p, b.left - 1, b.left + b.width - 1, b.top, b.top + b.height))
      case Right =>
        HorizontalLines(b, Right, b.left + b.width, b.left);
        State(ShiftRows(g, p, b.left + b.width, b.left, b.top, b.top + b.height))
  }

  /** For an UP or DOWN move, the target and the vacated cells are one row each, across the box's columns. */
  lemma VerticalLines(b: Box, d: Direction, into: int, from: int)
    requires b.height >= 1
    requires (d == Up && into == b.top - 1 && from == b.top + b.height - 1) ||
             (d == Down && into == b.top + b.height && from == b.top)
    ensures forall y, x :: InTarget(b, d, y, x) <==> y == into && b.left <= x < b.left + b.width
    ensures forall y, x :: InVacated(b, d, y, x) <==> y == from && b.left <= x < b.left + b.width
  {
  }

  /** For a LEFT or RIGHT move, the target and the vacated cells are one column each, across the box's rows. */
  lemma HorizontalLines(b: Box, d: Direction, into: int, from: int)
    requires b.width >= 1
    requires (d == Left && into == b.left - 1 && from == b.left + b.width - 1) ||
             (d == Right && into == b.left + b.width && from == b.left)
    ensures forall y, x :: InTarget(b, d, y, x) <==> x == into && b.top <= y < b.top + b.height
    ensures forall y, x :: InVacated(b, d, y, x) <==> x == from && b.top <= y < b.top + b.height
  {
  }

  /** The piece occupies exactly its measured box: the rectangularity `apply_move` assumes. */
  ghost predicate RectangularPiece(g: Grid, p: int)
    requires Rectangular(g)
  {
    Occurs(g, p) && PieceOccupies(g, p, PieceBox(g, p).value)
  }

  /** The cells holding label `p`. */
  ghost function Occupied(g: Grid, p: int): set<Pos> {
    set y, x | 0 <= y < |g| && 0 <= x < |g[y]| && g[y][x] == p :: Pos(y, x)
  }

  ghost function BoxCells(b: Box): set<Pos> {
    set y, x | b.top <= y < b.top + b.height && b.left <= x < b.left + b.width :: Pos(y, x)
  }

  ghost function Translate(cells: set<Pos>, dy: int, dx: int): set<Pos> {
    set c | c in cells :: Pos(c.row + dy, c.col + dx)
  }

  /** Translation is one-to-one, so it keeps the number of cells. */
  lemma {:induction false} TranslateSize(cells: set<Pos>, dy: int, dx: int)
    ensures |Translate(cells, dy, dx)| == |cells|
    decreases |cells|
  {
    if cells != {} {
      var c :| c in cells;
      var rest := cells - {c};
      TranslateSize(rest, dy, dx);
      assert Translate(cells, dy, dx) == Translate(rest, dy, dx) + {Pos(c.row + dy, c.col + dx)};
    }
  }

  lemma OccupiedIsBox(g: Grid, p: int, b: Box)
    requires Rectangular(g) && PieceOccupies(g, p, b)
    ensures Occupied(g, p) == BoxCells(b)
  {
    forall c | c in BoxCells(b) ensures c in Occupied(g, p) {
      assert InBox(b, c.row, c.col) && InGrid(g, c.row, c.col);
      assert g[c.row][c.col] == p;
    }
  }

  lemma ShiftedBoxCells(b: Box, d: Direction)
    ensures BoxCells(Shift(b, d)) == Translate(BoxCells(b), RowStep(d), ColStep(d))
  {
    var dy, dx := RowStep(d), ColStep(d);
    forall c | c in BoxCells(Shift(b, d)) ensures c in Translate(BoxCells(b), dy, dx) {
      assert Pos(c.row - dy, c.col - dx) in BoxCells(b);
    }
  }

  /** A cell the piece moves onto when it moves in direction `d`. */
  function FrontCell(b: Box, d: Direction): Pos {
    match d
    case Up => Pos(b.top - 1, b.left)
    case Down => Pos(b.top + b.height, b.left)
    case Left => Pos(b.top, b.left - 1)
    case Right => Pos(b.top, b.left + b.width)
  }

  /**
   * For a rectangular piece whose move leads onto empty cells inside the
   * grid, `apply_move` translates the piece by exactly one cell: afterwards
   * it occupies the shifted box, the cells it left are empty, every other
   * cell is unchanged, and it covers as many cells as before.
   */
  lemma ApplyMoveShifts(s: State, m: Move)
    requires Rectangular(s.grid) && RectangularPiece(s.grid, m.piece)
    requires TargetInGrid(s.grid, PieceBox(s.grid, m.piece).value, m.direction)
    requires SideEmpty(s.grid, PieceBox(s.grid, m.piece).value, m.direction)
    ensures CanApply(s.grid, m)
    ensures var g, r, b, d := s.grid, ApplyMove(s, m).grid, PieceBox(s.grid, m.piece).value, m.direction;
      && PieceOccupies(r, m.piece, Shift(b, d))
      && (forall y, x :: InGrid(g, y, x) && !InBox(b, y, x) && !InBox(Shift(b, d), y, x) ==> r[y][x] == g[y][x])
      && (forall y, x :: InGrid(g, y, x) && InVacated(b, d, y, x) ==> r[y][x] == Empty)
      && |Occupied(r, m.piece)| == |Occupied(g, m.piece)|
  {
    var g, r, b, d, p := s.grid, ApplyMove(s, m).grid, PieceBox(s.grid, m.piece).value, m.direction, m.piece;
    var front := FrontCell(b, d);
    assert InGrid(g, front.row, front.col) && InTarget(b, d, front.row, front.col);
    assert p != Empty;
    forall y, x | InGrid(r, y, x) ensures r[y][x] == p <==> InBox(Shift(b, d), y, x) {
      assert InGrid(g, y, x);
    }
    assert PieceOccupies(r, p, Shift(b, d));
    OccupiedIsBox(g, p, b);
    OccupiedIsBox(r, p, Shift(b, d));
    ShiftedBoxCells(b, d);
    TranslateSize(BoxCells(b), RowStep(d), ColStep(d));
  }

  /**
   * `apply_move` keeps a complete grid complete. It writes only the piece
   * label and 0, and on a grid without -1 a move of piece -1 is a move of an
   * absent piece, which changes nothing.
   */
  lemma ApplyMovePreservesComplete(s: State, m: Move)
    requires Rectangular(s.grid) && CanApply(s.grid, m)
    ensures NoSentinel(s.grid) ==> NoSentinel(ApplyMove(s, m).grid)
  {
  }

  /**
   * Every move the corrected generator reports for a rectangular piece can
   * be applied, and applying it translates the piece by one cell.
   */
  lemma LegalMoveShifts(s: State, m: Move)
    requires Rectangular(s.grid) && RectangularPiece(s.grid, m.piece)
    requires m in LegalPieceMoves(s, m.piece).GetOr([])
    ensures CanApply(s.grid, m)
    ensures PieceOccupies(ApplyMove(s, m).grid, m.piece, Shift(PieceBox(s.grid, m.piece).value, m.direction))
  {
    assert m == Move(m.direction, m.piece);
    ApplyMoveShifts(s, m);
  }
}
