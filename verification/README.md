# Sliding-block puzzle board engine in Dafny

This project models the board engine of a sliding-block puzzle solver: the
`State` class of State.cpp together with the `Direction` enum and the `Move`
value type of State.h.

A state is a rectangular grid of `int` labels:

- `0` is an empty cell.
- `-1` is the sentinel whose absence makes the puzzle complete.
- Labels below 2 never move.
- Labels from 3 on are the pieces that `normalize` renumbers.

The model is functional. The grid is a `seq<seq<int>>` with a `Rectangular`
predicate, and every in-place member of the class becomes a pure function
that returns the receiver's new value.

## Modules

- `Results` (results.dfy): `Option` and `Result`.
- `Grids` (grids.dfy): the grid, the `State` wrapper and its cell predicates.
  - `State(grid)` and `grid()` are the datatype's constructor and field.
  - `Cells` lists the cells in row-major order; `Prefix` is the part of that list a scan has reached.
  - Row-major facts are proved on these lists, not on `y * width + x` arithmetic.
- `Text` (text.dfy): the `split` tokenizer, a `Join` partner for it, and the decimal text of an `int`.
- `Moves` (moves.dfy): `Direction`, `Move` and the text `operator<<` prints for a move.
- `Pieces` (pieces.dfy): locating a piece and measuring its bounding box.
  - The search finds the piece's first row-major cell.
  - The box is the run of the label down and to the right of that cell.
  - The box geometry of a one-cell move is defined here too.
- `MoveGen` (movegen.dfy): `possible_moves(piece)` and `possible_moves()`.
- `Apply` (apply.dfy): `apply_move`.
- `States` (states.dfy): `clone`, `is_complete`, `==`, `!=` and `apply_move_cloning`.
- `Normalization` (normalize.dfy): `swapIdx` and `normalize`.

## Behaviour to know

- A piece touching a grid edge is reported as able to move off it. Each
  `*_ok` flag starts as `true` and is cleared only inside the in-grid test
  (see Findings).
- For each piece, the moves come out in the order LEFT, RIGHT, UP, DOWN.
- A missing piece makes `possible_moves(piece)` exit the process. The model
  returns `Err(PieceNotFound(p))` instead.
- `apply_move` on a label that is not on the board changes nothing. The
  search leaves both start coordinates at -1. The unsigned comparison then
  stops both measuring loops at once, and the shift loops run zero times.

## Model

| member | source | states |
|---|---|---|
| Text.Split | State.cpp:16-33 | `split` fails exactly when the delimiter is empty, where `substr` throws. Otherwise no part contains the delimiter. Keeping empty tokens gives at least one part; dropping them leaves no empty part. |
| Text.SplitCount | State.cpp:16-33 | With a one-character delimiter and empty tokens kept, there is one more part than the delimiter occurs in the text. |
| Text.SplitJoin | State.cpp:16-33 | With a one-character delimiter, joining the parts with that delimiter gives back the text. |
| Text.JoinSplit | State.cpp:16-33 | Splitting a join of at least one delimiter-free part returns those exact parts, empty ones included. |
| Text.SplitDropsEmpty | State.cpp:16-33 | `keep_empty=false` returns the tokens of `keep_empty=true` minus the empty ones, in order. |
| Text.SplitMultiCharDelimiter | State.cpp:26 | With delimiter "::", "a::b" splits into "a" and ":b", which do not join back to the text. The corrected split gives "a" and "b". |
| Text.SplitCorrected | State.cpp:16-33 | Same contract as `Split`, for the version that resumes after the whole delimiter. |
| Text.SplitCorrectedJoin | State.cpp:16-33 | For every non-empty delimiter, the corrected split joins back to the text. |
| Text.IntTextRoundTrip | State.h:62-63 | The decimal text of any `int` (minus sign for negatives) reads back as that `int`. |
| Moves.MoveText | State.h:54-65 | The printed text starts with `Move {direction: `, the direction's name follows at once, and it ends with `}`. |
| Moves.MoveTextRoundTrip | State.h:54-65 | `Move {direction: X, piece: N}`, with X one of UP, DOWN, RIGHT or the default LEFT, reads back as the move it was printed from. |
| Moves.MoveTextInjective | State.h:54-65 | Two moves print the same text exactly when they are the same move. |
| Pieces.FindPiece | State.cpp:122-135 | The search returns the first row-major cell holding the label. It returns nothing exactly when the label is absent. |
| Pieces.PieceBox | State.cpp:143-160 | The measured box exists exactly when the label occurs. Its top-left cell is the label's first cell. The left column and top row are maximal runs of the label, and the box lies in the grid. |
| Pieces.MeasuredBoxIsPiece | State.cpp:143-160 | For a piece that exactly fills a rectangle, the measured box is that rectangle. |
| MoveGen.ColumnClear | State.cpp:166-171 | The column scan succeeds exactly when every scanned cell is 0. |
| MoveGen.RowClear | State.cpp:194-199 | The row scan succeeds exactly when every scanned cell is 0. |
| MoveGen.LineClearIffSideEmpty | State.cpp:162-214 | For a side inside the grid, the scan succeeds exactly when every cell the piece would move onto is 0. |
| MoveGen.SideOkMeaning | State.cpp:164-172 | A side's flag ends up set exactly when the box touches that grid edge or the cells beyond that side are all empty. |
| MoveGen.MovesFromFlags | State.cpp:173-216 | The set flags give their moves for the piece, each direction at most once, in the order LEFT, RIGHT, UP, DOWN. |
| MoveGen.BoxMoves | State.cpp:162-219 | A box's moves are in emission order, and a direction is listed exactly when its side is reported. |
| MoveGen.PieceMoves | State.cpp:114-220 | Labels below 2 get no moves. A label of 2 or more that is absent is an error. Otherwise the moves are in emission order, and a direction is listed exactly when the measured box touches that edge or the cells beyond it are empty. |
| MoveGen.SideLegal | State.cpp:164-172 | Corrected flag: set exactly when the cells beyond the side are in the grid and all empty. |
| MoveGen.LegalPieceMoves | State.cpp:114-220 | Corrected `possible_moves(piece)`: same error and order behaviour, and a direction is listed exactly when the move stays in the grid onto empty cells. |
| MoveGen.EdgeMoveLeavesGrid | State.cpp:164-216 | On the grid `2,0 / 0,0`, piece 2 gets all four moves, although LEFT and UP lead off the grid. The corrected version gives only RIGHT and DOWN. |
| MoveGen.DistinctSpec | State.cpp:226-236 | The `checked` set's effect: each label is kept once, at its first appearance, with no repeats and no label lost. |
| MoveGen.AllMoves | State.cpp:225-239 | The row-major scan returns the concatenation of each distinct label's moves, in first-appearance order. |
| MoveGen.AllMovesExactly | State.cpp:225-239 | A move is listed exactly when its piece is on the board and the move is among that piece's own moves. |
| Apply.ShiftColumns | State.cpp:285-297 | The UP/DOWN loop writes the label into one row and 0 into another over the box's columns, and leaves every other cell and the dimensions unchanged. |
| Apply.ShiftRows | State.cpp:298-308 | The LEFT/RIGHT loop writes the label into one column and 0 into another over the box's rows, and leaves every other cell and the dimensions unchanged. |
| Apply.ApplyMove | State.cpp:247-310 | For a piece on the board, every cell beyond the measured box in the move's direction gets the label, and every cell the box leaves becomes 0. All other cells and the dimensions are unchanged. A label that is not on the board leaves the state unchanged. |
| Apply.ApplyMoveShifts | State.cpp:283-309 | For a rectangular piece moving onto empty in-grid cells: the piece occupies exactly its box shifted by one cell, the vacated line is 0, all other cells are unchanged, and it covers as many cells as before. |
| Apply.ApplyMovePreservesComplete | State.cpp:283-309 | Every applicable move keeps a complete grid complete: only the label and 0 are written, and on a grid without -1 a move of piece -1 changes nothing. |
| Apply.LegalMoveShifts | State.cpp:247-310 | Every move the corrected move generation lists can be applied, and it shifts the piece by exactly one cell. |
| States.Clone | State.cpp:85-87 | A clone equals the original. |
| States.IsComplete | State.cpp:92-101 | True exactly when no cell holds -1. |
| States.Equal | State.cpp:324-342 | Unless both grids are empty, true exactly when the two grids have the same dimensions and equal cells. |
| States.NotEqual | State.cpp:344-346 | Unless both grids are empty, true exactly when the states differ. |
| States.ApplyMoveCloning | State.cpp:315-319 | Equals `apply_move` on a clone. When a piece on the board moves onto empty cells, the copy differs from the receiver. |
| Normalization.SwapIdx | State.cpp:369-380 | Cells holding `a` hold `b`, cells holding `b` hold `a`, every other cell keeps its label, and the shape is kept. |
| Normalization.SwapIdxInvolution | State.cpp:369-380 | Swapping the same two labels twice restores the grid. |
| Normalization.NormalizeFrom | State.cpp:352-363 | The rest of the scan keeps the shape. A cell below 3 keeps its label, and no cell gets a label below 3 that it did not already have. |
| Normalization.NormalizeFromSound | State.cpp:352-363 | From any scan point whose seen labels are 3 up to the counter, the rest of the scan yields a relabelling with labels below 3 fixed, and labels from 3 on in first-appearance order. |
| Normalization.Normalize | State.cpp:351-364 | The result has the input's shape and is a one-to-one relabelling of it that fixes labels below 3. Labels from 3 on first appear in row-major order as 3, 4, 5, ... |
| Normalization.CanonicalUnique | State.cpp:351-364 | Two canonical grids that relabel one another are equal. |
| Normalization.NormalizeFixesCanonical | State.cpp:351-364 | A grid already in canonical form is left unchanged. |
| Normalization.NormalizeIdempotent | State.cpp:351-364 | Normalizing twice gives the same grid as normalizing once. |
| Normalization.NormalizeIgnoresNaming | State.cpp:351-364 | Grids that differ only in how labels of 3 or more are named normalize to the same grid. |
| Normalization.NormalizePreservesComplete | State.cpp:351-364 | Normalizing leaves every -1 cell in place, so completion is unchanged. |

## Left out

- The file-loading constructor (State.cpp:42-61): file I/O and `std::stoi`. Its use of `split` is covered by `Text.Split`.
- `operator<<` for `State` (State.cpp:66-80): console output only.
- `random_walk`, `random_element`, `bfs` and main.cpp: they depend on a random number generator and printing, or are unfinished. `dfs`, `ids` and `State::random_walk` are declared but have no definition.
- 32-bit `int` overflow of labels and of the `normalize` counter is not modelled. Labels are unbounded integers, which agrees with the source for every grid whose labels stay below `INT_MAX`.
- `Move`'s constructor and its `direction()`/`piece()` getters are the datatype's constructor and destructors, so there is nothing further to state about them.
- `Direction` has exactly four constructors. The source's `default:` branches (State.h:60, State.cpp:304) therefore cover only LEFT and RIGHT respectively.
- `apply_move_cloning` does not change its receiver. In the model this holds because states are immutable values, so no separate contract states it.
- Apply.ApplyMove: for a piece on the board, requires the line beyond its box to lie inside the grid. The source assumes "the move is a valid one" (State.cpp:244-245), and an edge move writes outside the grid (State.cpp:288, 294, 300, 306), which is undefined behaviour rather than a result. An absent piece is modelled as leaving the state unchanged. It needs a non-empty grid because the source reads `grid_[0]`.
- States.Equal, States.NotEqual: require both grids to be rectangular, and exclude only the case where both grids are empty. With equal row counts of 0 the source reads `grid_[0]` of an empty vector (State.cpp:329), which is undefined behaviour. A receiver with no rows and a non-empty argument returns false at the row-count test (State.cpp:326-328) and is modelled. On ragged grids the source compares only the first row's width.
- MoveGen.PieceMoves: a missing piece is an `Err` result rather than a process exit.

## Findings

| source | as written | input that shows it | evidently intended | confidence | as-written member | corrected member |
|---|---|---|---|---|---|---|
| State.cpp:164-216 | Each `*_ok` flag starts `true` and is cleared only inside the in-grid test, so a side on the grid edge is reported as a legal move. `apply_move` then writes outside the grid (State.cpp:288, 294, 300, 306). | grid `2,0 / 0,0`, piece 2: LEFT and UP are listed | A direction is listed only when the cells beyond the side are inside the grid and empty | high, not executed | MoveGen.EdgeMoveLeavesGrid | MoveGen.LegalPieceMoves |
| State.cpp:26 | After a match at `pos` the search resumes at `pos + 1`, not past the whole delimiter. | `split("a::b", "::")` gives "a" and ":b" | Resume at `pos + delim.length()`, so the parts join back to the text | medium (only "," is passed in this repository), not executed | Text.SplitMultiCharDelimiter | Text.SplitCorrectedJoin |
