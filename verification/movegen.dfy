/**
 * Move generation: `possible_moves(piece)` and `possible_moves()` of
 * State.cpp. For a piece the source measures the bounding box from its
 * first cell and, side by side in the order LEFT, RIGHT, UP, DOWN, reports
 * the direction when the box already touches that grid edge or every cell
 * next to that side is empty.
 */
module MoveGen {
  import opened Results
  import opened Grids
  import opened Moves
  import opened Pieces

  /** The source exits the process instead; the model returns this error. */
  datatype BoardError = PieceNotFound(piece: int)

  /** Labels below this never move. */
  const FirstMovable: int := 2

  /** Position of a direction in the order the source emits moves for one piece. */
  function Rank(d: Direction): nat {
    match d
    case Left => 0
    case Right => 1
    case Up => 2
    case Down => 3
  }

  /** The scan of one column from row `y` up to `yEnd`, stopping at the first non-empty cell. */
  function ColumnClear(g: Grid, x: nat, y: nat, yEnd: nat): (ok: bool)
    requires Rectangular(g) && yEnd <= |g| && x < Width(g)
    ensures ok <==> forall k :: y <= k < yEnd ==> g[k][x] == Empty
    decreases yEnd - y
  {
    if y >= yEnd then true
    else if g[y][x] != Empty then false
    else ColumnClear(g, x, y + 1, yEnd)
  }

  /** The scan of one row from column `x` up to `xEnd`, stopping at the first non-empty cell. */
  function RowClear(row: seq<int>, x: nat, xEnd: nat): (ok: bool)
    requires xEnd <= |row|
    ensures ok <==> forall k :: x <= k < xEnd ==> row[k] == Empty
    decreases xEnd - x
  {
    if x >= xEnd then true
    else if row[x] != Empty then false
    else RowClear(row, x + 1, xEnd)
  }

  /** The inner loop for side `d`: scans the line of cells next to that side of the box. */
  function LineClear(g: Grid, b: Box, d: Direction): bool
    requires Rectangular(g) && BoxInGrid(g, b) && b.height >= 1 && b.width >= 1
    requires TargetInGrid(g, b, d)
  {
    match d
    case Left => ColumnClear(g, b.left - 1, b.top, b.top + b.height)
    case Right => ColumnClear(g, b.left + b.width, b.top, b.top + b.height)
    case Up => RowClear(g[b.top - 1], b.left, b.left + b.width)
    case Down => RowClear(g[b.top + b.height], b.left, b.left + b.width)
  }

  /** The scan finds exactly the cells the piece would move onto. */
  lemma LineClearIffSideEmpty(g: Grid, b: Box, d: Direction)
    requires Rectangular(g) && BoxInGrid(g, b) && b.height >= 1 && b.width >= 1
    requires TargetInGrid(g, b, d)
    ensures LineClear(g, b, d) <==> SideEmpty(g, b, d)
  {
    if SideEmpty(g, b, d) {
      match d
      case Left =>
        forall k | b.top <= k < b.top + b.height ensures g[k][b.left - 1] == Empty {
          assert InTarget(b, d, k, b.left - 1);
        }
      case Right =>
        forall k | b.top <= k < b.top + b.height ensures g[k][b.left + b.width] == Empty {
          assert InTarget(b, d, k, b.left + b.width);
        }
      case Up =>
        var row := g[b.top - 1];
        forall k | b.left <= k < b.left + b.width ensures row[k] == Empty {
          assert InTarget(b, d, b.top - 1, k);
        }
      case Down =>
        var row := g[b.top + b.height];
        forall k | b.left <= k < b.left + b.width ensures row[k] == Empty {
          assert InTarget(b, d, b.top + b.height, k);
        }
    }
  }

  /** What the `*_ok` flag for side `d` ends up meaning. */
  lemma SideOkMeaning(g: Grid, b: Box, d: Direction)
    requires Rectangular(g) && BoxInGrid(g, b) && b.height >= 1 && b.width >= 1
    ensures SideOk(g, b, d) <==> Reported(g, b, d)
  {
    if TargetInGrid(g, b, d) {
      LineClearIffSideEmpty(g, b, d);
    }
  }

  /** The source's `*_ok` flag: it starts true and only the in-grid scan can clear it. */
  function SideOk(g: Grid, b: Box, d: Direction): bool
    requires Rectangular(g) && BoxInGrid(g, b) && b.height >= 1 && b.width >= 1
  {
    !TargetInGrid(g, b, d) || LineClear(g, b, d)
  }

  /** As written: a side is reported when the box touches that grid edge or the cells beyond it are empty. */
  ghost predicate Reported(g: Grid, b: Box, d: Direction) {
    !TargetInGrid(g, b, d) || SideEmpty(g, b, d)
  }

  /** Every move is for piece `p`, directions strictly in emission order (so each at most once). */
  predicate InEmissionOrder(ms: seq<Move>, p: int) {
    && (forall i :: 0 <= i < |ms| ==> ms[i].piece == p)
    && (forall i, j :: 0 <= i < j < |ms| ==> Rank(ms[i].direction) < Rank(ms[j].direction))
  }

  /** The moves of piece `p` whose flags are set, in the order LEFT, RIGHT, UP, DOWN. */
  function MovesFromFlags(p: int, left: bool, right: bool, up: bool, down: bool): (ms: seq<Move>)
    ensures InEmissionOrder(ms, p)
    ensures Move(Left, p) in ms <==> left
    ensures Move(Right, p) in ms <==> right
    ensures Move(Up, p) in ms <==> up
    ensures Move(Down, p) in ms <==> down
  {
    Emit(left, Left, p, Emit(right, Right, p, Emit(up, Up, p, Emit(down, Down, p, []))))
  }

  /** One `if (*_ok)` of the emission: the move in direction `d`, if its flag is set, ahead of the later ones. */
  function Emit(flag: bool, d: Direction, p: int, rest: seq<Move>): (ms: seq<Move>)
    requires InEmissionOrder(rest, p)
    requires forall e :: Move(e, p) in rest ==> Rank(d) < Rank(e)
    ensures InEmissionOrder(ms, p)
    ensures forall e :: Move(e, p) in ms <==> (flag && e == d) || Move(e, p) in rest
    ensures forall e :: Move(e, p) in ms ==> Rank(d) <= Rank(e)
  {
    if flag then
      assert forall i :: 0 <= i < |rest| ==> rest[i] == Move(rest[i].direction, p);
      [Move(d, p)] + rest
    else rest
  }

  /** The moves the source emits for a piece whose measured box is `b`. */
  function BoxMoves(g: Grid, b: Box, p: int): (ms: seq<Move>)
    requires Rectangular(g) && BoxInGrid(g, b) && b.height >= 1 && b.width >= 1
    ensures InEmissionOrder(ms, p)
    ensures forall d :: Move(d, p) in ms <==> Reported(g, b, d)
  {
    var ms := MovesFromFlags(p, SideOk(g, b, Left), SideOk(g, b, Right), SideOk(g, b, Up), SideOk(g, b, Down));
    SideOkMeaning(g, b, Left);
    SideOkMeaning(g, b, Right);
    SideOkMeaning(g, b, Up);
    SideOkMeaning(g, b, Down);
    assert forall d :: Move(d, p) in ms <==> Reported(g, b, d) by {
      forall d ensures Move(d, p) in ms <==> Reported(g, b, d) {
        if d == Left {
        } else if d == Right {
        } else if d == Up {
        } else {
          assert d == Down;
        }
      }
    }
    ms
  }

  /**
   * `possible_moves(piece)` as written: no moves below label 2, an error for
   * an absent piece, otherwise a move for each side that touches the grid
   * edge or has only empty cells next to it.
   */
  function PieceMoves(s: State, p: int): (r: Result<seq<Move>, BoardError>)
    requires Rectangular(s.grid)
    ensures p < FirstMovable ==> r == Ok([])
    ensures r.Err? <==> p >= FirstMovable && !Occurs(s.grid, p)
    ensures r.Err? ==> r.error == PieceNotFound(p)
    ensures r.Ok? ==> InEmissionOrder(r.value, p)
    ensures r.Ok? && p >= FirstMovable ==>
      forall d :: Move(d, p) in r.value <==> Reported(s.grid, PieceBox(s.grid, p).value, d)
  {
    if p < FirstMovable then Ok([])
    else match PieceBox(s.grid, p)
      case None => Err(PieceNotFound(p))
      case Some(b) => Ok(BoxMoves(s.grid, b, p))
  }

  /** Corrected side test: the cells beyond the side are inside the grid and empty. */
  ghost predicate Legal(g: Grid, b: Box, d: Direction) {
    TargetInGrid(g, b, d) && SideEmpty(g, b, d)
  }

  /** Corrected flag: starts from the edge guard instead of `true`. */
  function SideLegal(g: Grid, b: Box, d: Direction): (ok: bool)
    requires Rectangular(g) && BoxInGrid(g, b) && b.height >= 1 && b.width >= 1
    ensures ok <==> Legal(g, b, d)
  {
    if TargetInGrid(g, b, d) then
      LineClearIffSideEmpty(g, b, d);
      LineClear(g, b, d)
    else false
  }

  function LegalBoxMoves(g: Grid, b: Box, p: int): (ms: seq<Move>)
    requires Rectangular(g) && BoxInGrid(g, b) && b.height >= 1 && b.width >= 1
    ensures InEmissionOrder(ms, p)
    ensures forall d :: Move(d, p) in ms <==> Legal(g, b, d)
  {
    var left, right, up, down := SideLegal(g, b, Left), SideLegal(g, b, Right), SideLegal(g, b, Up), SideLegal(g, b, Down);
    var ms := MovesFromFlags(p, left, right, up, down);
    assert forall d :: Move(d, p) in ms <==> Legal(g, b, d) by {
      forall d ensures Move(d, p) in ms <==> Legal(g, b, d) {
        if d == Left {
        } else if d == Right {
        } else if d == Up {
        } else {
          assert d == Down;
        }
      }
    }
    ms
  }

  /**
   * `possible_moves(piece)` with the edge guard corrected: a direction is
   * reported only when every cell the piece would move onto lies in the grid
   * and is empty.
   */
  function LegalPieceMoves(s: State, p: int): (r: Result<seq<Move>, BoardError>)
    requires Rectangular(s.grid)
    ensures p < FirstMovable ==> r == Ok([])
    ensures r.Err? <==> p >= FirstMovable && !Occurs(s.grid, p)
    ensures r.Err? ==> r.error == PieceNotFound(p)
    ensures r.Ok? ==> InEmissionOrder(r.value, p)
    ensures r.Ok? && p >= FirstMovable ==>
      forall d :: Move(d, p) in r.value <==> Legal(s.grid, PieceBox(s.grid, p).value, d)
  {
    if p < FirstMovable then Ok([])
    else match PieceBox(s.grid, p)
      case None => Err(PieceNotFound(p))
      case Some(b) => Ok(LegalBoxMoves(s.grid, b, p))
  }

  /**
   * A piece touching a grid edge is reported as able to move off the grid:
   * on `2,0 / 0,0` the lone piece 2 gets all four directions, although LEFT
   * and UP lead outside the grid. The corrected version reports only RIGHT
   * and DOWN.
   */
  lemma EdgeMoveLeavesGrid()
    ensures var s := State([[2, 0], [0, 0]]);
      && PieceBox(s.grid, 2) == Some(Box(0, 0, 1, 1))
      && PieceMoves(s, 2) == Ok([Move(Left, 2), Move(Right, 2), Move(Up, 2), Move(Down, 2)])
      && !TargetInGrid(s.grid, Box(0, 0, 1, 1), Left)
      && !TargetInGrid(s.grid, Box(0, 0, 1, 1), Up)
      && LegalPieceMoves(s, 2) == Ok([Move(Right, 2), Move(Down, 2)])
  {
    CornerBox();
    CornerMovesAsWritten();
    CornerMovesLegal();
  }

  lemma CornerMovesAsWritten()
    ensures PieceMoves(State([[2, 0], [0, 0]]), 2) == Ok([Move(Left, 2), Move(Right, 2), Move(Up, 2), Move(Down, 2)])
  {
    CornerBox();
    CornerBoxMoves();
    MovesOfMeasuredBox(State([[2, 0], [0, 0]]), 2, Box(0, 0, 1, 1));
  }

  /** For a label that can move, the moves are those of its measured box. */
  lemma MovesOfMeasuredBox(s: State, p: int, b: Box)
    requires Rectangular(s.grid) && p >= FirstMovable && PieceBox(s.grid, p) == Some(b)
    ensures PieceMoves(s, p) == Ok(BoxMoves(s.grid, b, p))
    ensures LegalPieceMoves(s, p) == Ok(LegalBoxMoves(s.grid, b, p))
  {
  }

  lemma CornerBoxMoves()
    ensures BoxMoves([[2, 0], [0, 0]], Box(0, 0, 1, 1), 2) == [Move(Left, 2), Move(Right, 2), Move(Up, 2), Move(Down, 2)]
  {
    var g, b := [[2, 0], [0, 0]], Box(0, 0, 1, 1);
    CornerSides();
    assert BoxMoves(g, b, 2) == MovesFromFlags(2, true, true, true, true);
  }

  lemma CornerMovesLegal()
    ensures LegalPieceMoves(State([[2, 0], [0, 0]]), 2) == Ok([Move(Right, 2), Move(Down, 2)])
  {
    CornerBox();
    CornerLegalBoxMoves();
    MovesOfMeasuredBox(State([[2, 0], [0, 0]]), 2, Box(0, 0, 1, 1));
  }

  lemma CornerLegalBoxMoves()
    ensures LegalBoxMoves([[2, 0], [0, 0]], Box(0, 0, 1, 1), 2) == [Move(Right, 2), Move(Down, 2)]
  {
    var g, b := [[2, 0], [0, 0]], Box(0, 0, 1, 1);
    CornerSides();
    assert LegalBoxMoves(g, b, 2) == MovesFromFlags(2, false, true, false, true);
  }

  lemma CornerSides()
    ensures var g, b := [[2, 0], [0, 0]], Box(0, 0, 1, 1);
      && SideOk(g, b, Left) && SideOk(g, b, Right) && SideOk(g, b, Up) && SideOk(g, b, Down)
      && !SideLegal(g, b, Left) && SideLegal(g, b, Right) && !SideLegal(g, b, Up) && SideLegal(g, b, Down)
  {
    var g, b := [[2, 0], [0, 0]], Box(0, 0, 1, 1);
    assert ColumnClear(g, 1, 1, 1) && ColumnClear(g, 1, 0, 1);
    assert RowClear(g[1], 1, 1) && RowClear(g[1], 0, 1);
    assert LineClear(g, b, Right) && LineClear(g, b, Down);
  }

  lemma CornerBox()
    ensures PieceBox([[2, 0], [0, 0]], 2) == Some(Box(0, 0, 1, 1))
  {
    var g := [[2, 0], [0, 0]];
    assert FindInRow(g[0], 2, 0) == Some(0);
    assert FindPiece(g, 2) == Some(Pos(0, 0));
    assert RunDown(g, 2, 1, 0) == 0;
    assert RunDown(g, 2, 0, 0) == 1;
    assert RunRight(g[0], 2, 1) == 0;
    assert RunRight(g[0], 2, 0) == 1;
  }

  /** Labels of `c` without repeats, each kept at its first appearance. */
  function Distinct(c: seq<int>): seq<int>
    decreases |c|
  {
    if |c| == 0 then []
    else
      var init := c[..|c| - 1];
      if c[|c| - 1] in init then Distinct(init) else Distinct(init) + [c[|c| - 1]]
  }

  lemma {:induction false} DistinctSpec(c: seq<int>)
    ensures forall v :: v in Distinct(c) <==> v in c
    ensures forall i, j :: 0 <= i < j < |Distinct(c)| ==> Distinct(c)[i] != Distinct(c)[j]
    ensures forall k :: 0 <= k <= |c| ==> Distinct(c[..k]) <= Distinct(c)
    decreases |c|
  {
    if |c| > 0 {
      var init := c[..|c| - 1];
      DistinctSpec(init);
      forall k | 0 <= k <= |c| ensures Distinct(c[..k]) <= Distinct(c) {
        if k == |c| {
          assert c[..k] == c;
        } else {
          assert c[..k] == init[..k];
        }
      }
    }
  }

  /** The moves of each label in `ls`, concatenated in that order. */
  function MovesOfLabels(s: State, ls: seq<int>): seq<Move>
    requires Rectangular(s.grid)
    decreases |ls|
  {
    if |ls| == 0 then []
    else MovesOfLabels(s, ls[..|ls| - 1]) + PieceMoves(s, ls[|ls| - 1]).GetOr([])
  }

  lemma {:induction false} MovesOfLabelsMembership(s: State, ls: seq<int>, m: Move)
    requires Rectangular(s.grid)
    ensures m in MovesOfLabels(s, ls) <==> m.piece in ls && m in PieceMoves(s, m.piece).GetOr([])
    decreases |ls|
  {
    if |ls| > 0 {
      var init, l := ls[..|ls| - 1], ls[|ls| - 1];
      assert m.piece in ls <==> m.piece in init || m.piece == l by {
        assert ls == init + [l];
      }
      var own := PieceMoves(s, l).GetOr([]);
      assert MovesOfLabels(s, ls) == MovesOfLabels(s, init) + own;
      assert m in MovesOfLabels(s, ls) <==> m in MovesOfLabels(s, init) || m in own;
      MovesOfLabelsMembership(s, init, m);
      PieceMovesOwn(s, l, m);
    }
  }

  /** Every move listed for a label moves that label. */
  lemma PieceMovesOwn(s: State, l: int, m: Move)
    requires Rectangular(s.grid)
    ensures m in PieceMoves(s, l).GetOr([]) ==> m.piece == l
  {
    var ms := PieceMoves(s, l).GetOr([]);
    if m in ms {
      var i :| 0 <= i < |ms| && ms[i] == m;
    }
  }

  /** One more scanned cell adds its label's moves exactly when the label is new. */
  lemma ScanStep(s: State, c: seq<int>, v: int)
    requires Rectangular(s.grid)
    ensures v in c ==> MovesOfLabels(s, Distinct(c + [v])) == MovesOfLabels(s, Distinct(c))
    ensures v !in c ==> MovesOfLabels(s, Distinct(c + [v])) == MovesOfLabels(s, Distinct(c)) + PieceMoves(s, v).GetOr([])
  {
    assert (c + [v])[..|c|] == c;
    if v !in c {
      var d := Distinct(c) + [v];
      assert d[..|d| - 1] == Distinct(c);
    }
  }

  /** A label found on the board never makes `possible_moves(piece)` fail. */
  lemma CellHasMoves(s: State, y: nat, x: nat)
    requires Rectangular(s.grid) && InGrid(s.grid, y, x)
    ensures PieceMoves(s, s.grid[y][x]).Ok?
  {
    assert Occurs(s.grid, s.grid[y][x]);
  }

  /** The `checked` set holds exactly the labels the scan has passed. */
  ghost predicate Tracks(checked: set<int>, scanned: seq<int>) {
    forall v :: v in checked <==> v in scanned
  }

  /**
   * `possible_moves()`: one row-major scan of the grid that, for each label
   * not yet in the `checked` set, appends the moves of that label.
   */
  method AllMoves(s: State) returns (moves: seq<Move>)
    requires Rectangular(s.grid)
    ensures moves == MovesOfLabels(s, Distinct(Cells(s.grid)))
  {
    var checked: set<int> := {};
    moves := [];
    ghost var scanned := Prefix(s.grid, 0, 0);
    assert scanned == [];
    var y := 0;
    while y < |s.grid|
      invariant 0 <= y <= |s.grid|
      invariant scanned == Prefix(s.grid, y, 0)
      invariant Tracks(checked, scanned) && moves == MovesOfLabels(s, Distinct(scanned))
    {
      var x := 0;
      while x < |s.grid[y]|
        invariant 0 <= x <= |s.grid[y]|
        invariant scanned == Prefix(s.grid, y, x)
        invariant Tracks(checked, scanned) && moves == MovesOfLabels(s, Distinct(scanned))
      {
        PrefixStep(s.grid, y, x);
        ScanStep(s, scanned, s.grid[y][x]);
        var added;
        checked, added := Visit(s, y, x, checked);
        moves := moves + added;
        scanned := scanned + [s.grid[y][x]];
        x := x + 1;
      }
      PrefixRowEnd(s.grid, y);
      y := y + 1;
    }
  }

  /** One cell of the scan: a label not yet in `checked` is added to the set and gives its moves. */
  method Visit(s: State, y: nat, x: nat, checked: set<int>) returns (checked': set<int>, added: seq<Move>)
    requires Rectangular(s.grid) && InGrid(s.grid, y, x)
    ensures checked' == checked + {s.grid[y][x]}
    ensures s.grid[y][x] in checked ==> added == []
    ensures s.grid[y][x] !in checked ==> added == PieceMoves(s, s.grid[y][x]).GetOr([])
  {
    var piece := s.grid[y][x];
    if piece in checked {
      checked', added := checked, [];
    } else {
      CellHasMoves(s, y, x);
      var pieceMoves := PieceMoves(s, piece);
      checked', added := checked + {piece}, pieceMoves.value;
    }
  }

  /** `possible_moves()` lists exactly the moves of the labels present, and no label is missing. */
  lemma AllMovesExactly(s: State, m: Move)
    requires Rectangular(s.grid)
    ensures m in MovesOfLabels(s, Distinct(Cells(s.grid))) <==>
      Occurs(s.grid, m.piece) && m in PieceMoves(s, m.piece).value
  {
    DistinctSpec(Cells(s.grid));
    InCells(s.grid, m.piece);
    MovesOfLabelsMembership(s, Distinct(Cells(s.grid)), m);
  }
}
