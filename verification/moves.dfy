/** The `Direction` enum and the `Move` value type of State.h. */
module Moves {
  import opened Results
  import opened Text

  /** Exactly the four enumerators of State.h. */
  datatype Direction = Up | Down | Left | Right

  /**
   * A move: the piece label and the direction it slides one cell in. The
   * constructor and the `direction()`/`piece()` getters are the datatype's
   * own constructor and destructors.
   */
  datatype Move = Move(direction: Direction, piece: int)

  /** The name `operator<<` prints; `LEFT` is the switch's default case. */
  function DirectionName(d: Direction): (name: string)
    ensures |name| > 0 && name[0] != ','
  {
    match d
    case Up => "UP"
    case Down => "DOWN"
    case Right => "RIGHT"
    case Left => "LEFT"
  }

  const MoveOpen := "Move {direction: "
  const PieceField := ", piece: "
  const MoveClose := "}"

  /**
   * `Move {direction: X, piece: N}`, as `operator<<` writes a move: the
   * opening text, the direction's name right after it, and a closing brace.
   */
  function MoveText(m: Move): (t: string)
    ensures |t| > |MoveOpen| + |DirectionName(m.direction)|
    ensures t[..|MoveOpen|] == MoveOpen
    ensures t[|MoveOpen|..|MoveOpen| + |DirectionName(m.direction)|] == DirectionName(m.direction)
    ensures t[|t| - 1] == '}'
  {
    MoveOpen + Fields(m) + MoveClose
  }

  /** The part between the braces: `X, piece: N`. */
  function Fields(m: Move): string {
    DirectionName(m.direction) + PieceField + IntText(m.piece)
  }

  /** Reads `X, piece: N`, trying the direction names in `ds` in turn. */
  function ParseFields(body: string, ds: seq<Direction>): Option<Move> {
    if |ds| == 0 then None
    else
      var head := DirectionName(ds[0]) + PieceField;
      if |head| <= |body| && body[..|head|] == head then
        match ParseInt(body[|head|..])
        case Some(n) => Some(Move(ds[0], n))
        case None => None
      else ParseFields(body, ds[1..])
  }

  /** Reads the text `MoveText` writes; any other text gives `None`. */
  function ParseMove(t: string): Option<Move> {
    if |t| < |MoveOpen| + |MoveClose| || t[..|MoveOpen|] != MoveOpen || t[|t| - 1..] != MoveClose then None
    else ParseFields(t[|MoveOpen|..|t| - 1], [Up, Down, Left, Right])
  }

  /** A direction whose name starts differently is skipped. */
  lemma SkipField(body: string, ds: seq<Direction>)
    requires |ds| > 0 && |body| > 0 && body[0] != DirectionName(ds[0])[0]
    ensures ParseFields(body, ds) == ParseFields(body, ds[1..])
  {
    var head := DirectionName(ds[0]) + PieceField;
    assert head[0] == DirectionName(ds[0])[0];
    if |head| <= |body| {
      assert body[..|head|][0] == body[0];
    }
  }

  /** The direction named first is read, followed by its piece label. */
  lemma TakeField(m: Move, ds: seq<Direction>)
    requires |ds| > 0 && ds[0] == m.direction
    ensures ParseFields(Fields(m), ds) == Some(m)
  {
    var body := Fields(m);
    var head := DirectionName(m.direction) + PieceField;
    assert body[..|head|] == head;
    assert body[|head|..] == IntText(m.piece);
    IntTextRoundTrip(m.piece);
  }

  lemma FieldsRoundTrip(m: Move)
    ensures ParseFields(Fields(m), [Up, Down, Left, Right]) == Some(m)
  {
    var body := Fields(m);
    assert body[0] == DirectionName(m.direction)[0];
    var ds := [Up, Down, Left, Right];
    match m.direction
    case Up =>
      TakeField(m, ds);
    case Down =>
      SkipField(body, ds);
      TakeField(m, ds[1..]);
    case Left =>
      SkipField(body, ds);
      SkipField(body, ds[1..]);
      TakeField(m, ds[2..]);
    case Right =>
      SkipField(body, ds);
      SkipField(body, ds[1..]);
      SkipField(body, ds[2..]);
      assert ds[2..][1..] == ds[3..];
      TakeField(m, ds[3..]);
  }

  /** The text of a move reads back as that move. */
  lemma MoveTextRoundTrip(m: Move)
    ensures ParseMove(MoveText(m)) == Some(m)
  {
    ParseFrame(Fields(m));
    FieldsRoundTrip(m);
  }

  /** The opening text and the closing brace are stripped before the fields are read. */
  lemma ParseFrame(body: string)
    ensures ParseMove(MoveOpen + body + MoveClose) == ParseFields(body, [Up, Down, Left, Right])
  {
    var t := MoveOpen + body + MoveClose;
    assert t[..|MoveOpen|] == MoveOpen;
    assert t[|t| - 1..] == MoveClose;
    assert t[|MoveOpen|..|t| - 1] == body;
  }

  /** Different moves print differently. */
  lemma MoveTextInjective(m1: Move, m2: Move)
    ensures MoveText(m1) == MoveText(m2) <==> m1 == m2
  {
    MoveTextRoundTrip(m1);
    MoveTextRoundTrip(m2);
  }
}
