/**
 * getLegalMoves of chess-website/script.js: the destination squares of the
 * piece on a square, by the movement rules of its kind.  Nothing here
 * filters for check, so the moves are pseudo-legal.
 */
module MoveGen {
  import opened Board

  /** A square {r, c} as getLegalMoves pushes it. */
  datatype Square = Square(r: int, c: int)

  /** A sliding direction: both components in -1..1, not both zero. */
  predicate IsDirection(d: (int, int)) {
    -1 <= d.0 <= 1 && -1 <= d.1 <= 1 && d != (0, 0)
  }

  predicate AllDirections(dirs: seq<(int, int)>) {
    forall k :: 0 <= k < |dirs| ==> IsDirection(dirs[k])
  }

  const RookDirs: seq<(int, int)> := [(1, 0), (-1, 0), (0, 1), (0, -1)]
  const BishopDirs: seq<(int, int)> := [(1, 1), (1, -1), (-1, 1), (-1, -1)]
  const KnightOffsets: seq<(int, int)> :=
    [(2, 1), (2, -1), (-2, 1), (-2, -1), (1, 2), (1, -2), (-1, 2), (-1, -2)]
  const KingOffsets: seq<(int, int)> :=
    [(1, 0), (-1, 0), (0, 1), (0, -1), (1, 1), (1, -1), (-1, 1), (-1, -1)]

  /** white ? isBlack(x) : isWhite(x): x holds a piece the mover may capture. */
  predicate Opposes(white: bool, x: Cell) {
    if white then IsBlack(x) else IsWhite(x)
  }

  /** x holds a piece of the mover's own colour. */
  predicate Own(white: bool, x: Cell) {
    if white then IsWhite(x) else IsBlack(x)
  }

  /** A square a knight, king or sliding piece may land on: on the board, empty or opposing. */
  predicate Enterable(g: Grid, white: bool, r: int, c: int)
    requires Shaped(g)
  {
    InBounds(r, c) && (g[r][c] == Empty || Opposes(white, g[r][c]))
  }

  // ---------------------------------------------------------------------
  // Specification of the generator
  // ---------------------------------------------------------------------

  /** The pawn's forward direction and start row. */
  function PawnDir(white: bool): int { if white then -1 else 1 }
  function StartRow(white: bool): int { if white then 6 else 1 }

  /** The diagonal captures of a pawn, offsets tried in order. */
  function CaptureMoves(g: Grid, r: int, c: int, white: bool, offs: seq<(int, int)>): seq<Square>
    requires Shaped(g)
    decreases |offs|
  {
    if offs == [] then []
    else
      var rest := CaptureMoves(g, r, c, white, offs[..|offs| - 1]);
      var nr, nc := r + offs[|offs| - 1].0, c + offs[|offs| - 1].1;
      if InBounds(nr, nc) && g[nr][nc] != Empty && Opposes(white, g[nr][nc])
      then rest + [Square(nr, nc)] else rest
  }

  /** The pawn rules: single push, double push from the start row, diagonal captures. */
  function PawnMoves(g: Grid, r: int, c: int, white: bool): seq<Square>
    requires Shaped(g) && InBounds(r, c)
  {
    var dir := PawnDir(white);
    var single := if InBounds(r + dir, c) && g[r + dir][c] == Empty then [Square(r + dir, c)] else [];
    var double :=
      if r == StartRow(white) && g[r + dir][c] == Empty && g[r + 2 * dir][c] == Empty
      then [Square(r + 2 * dir, c)] else [];
    single + double + CaptureMoves(g, r, c, white, [(dir, -1), (dir, 1)])
  }

  /** The moves of a knight or king: the enterable squares at the given offsets, in order. */
  function StepMoves(g: Grid, r: int, c: int, white: bool, offs: seq<(int, int)>): seq<Square>
    requires Shaped(g)
    decreases |offs|
  {
    if offs == [] then []
    else
      var rest := StepMoves(g, r, c, white, offs[..|offs| - 1]);
      var nr, nc := r + offs[|offs| - 1].0, c + offs[|offs| - 1].1;
      if Enterable(g, white, nr, nc) then rest + [Square(nr, nc)] else rest
  }

  /** An upper bound on the squares left on a ray, used only for termination. */
  function RayBudget(r: int, c: int, d: (int, int)): int {
    (if d.0 > 0 then 8 - r else if d.0 < 0 then r + 1 else 0) +
    (if d.1 > 0 then 8 - c else if d.1 < 0 then c + 1 else 0)
  }

  /** The ray from (r, c) onwards in direction d: empty squares, then an opposing piece if one blocks it. */
  function Ray(g: Grid, r: int, c: int, d: (int, int), white: bool): seq<Square>
    requires Shaped(g) && IsDirection(d)
    decreases RayBudget(r, c, d)
  {
    if !InBounds(r, c) then []
    else if g[r][c] == Empty then [Square(r, c)] + Ray(g, r + d.0, c + d.1, d, white)
    else if Opposes(white, g[r][c]) then [Square(r, c)]
    else []
  }

  /** The moves of a sliding piece: one ray per direction, in order. */
  function SlideMoves(g: Grid, r: int, c: int, white: bool, dirs: seq<(int, int)>): seq<Square>
    requires Shaped(g) && AllDirections(dirs)
    decreases |dirs|
  {
    if dirs == [] then []
    else
      var d := dirs[|dirs| - 1];
      SlideMoves(g, r, c, white, dirs[..|dirs| - 1]) + Ray(g, r + d.0, c + d.1, d, white)
  }

  /** slideDirs: rook, bishop, both for a queen, none for anything else. */
  function SlideDirs(piece: Cell): (dirs: seq<(int, int)>)
    ensures AllDirections(dirs)
  {
    if HasKind(piece, 'r') then RookDirs
    else if HasKind(piece, 'b') then BishopDirs
    else if HasKind(piece, 'q') then RookDirs + BishopDirs
    else []
  }

  /** getLegalMoves(r, c, piece) on the board g. */
  function PseudoLegalMoves(g: Grid, r: int, c: int, piece: Cell): seq<Square>
    requires Shaped(g) && InBounds(r, c)
  {
    var white := IsWhite(piece);
    if HasKind(piece, 'p') then PawnMoves(g, r, c, white)
    else if HasKind(piece, 'n') then StepMoves(g, r, c, white, KnightOffsets)
    else if HasKind(piece, 'k') then StepMoves(g, r, c, white, KingOffsets)
    else SlideMoves(g, r, c, white, SlideDirs(piece))
  }

  // ---------------------------------------------------------------------
  // The generator on the live board
  // ---------------------------------------------------------------------

  /** The pawn branch of getLegalMoves. */
  method GetPawnMoves(board: array2<Cell>, r: int, c: int, white: bool) returns (moves: seq<Square>)
    requires Is8x8(board) && InBounds(r, c)
    ensures moves == PawnMoves(Snapshot(board), r, c, white)
  {
    ghost var g := Snapshot(board);
    var dir := if white then -1 else 1;
    var startRow := if white then 6 else 1;
    assert dir == PawnDir(white) && startRow == StartRow(white);
    moves := [];
    if InBounds(r + dir, c) && board[r + dir, c] == Empty {
      moves := moves + [Square(r + dir, c)];
    }
    assert moves == if InBounds(r + dir, c) && g[r + dir][c] == Empty then [Square(r + dir, c)] else [];
    ghost var single := moves;
    if r == startRow && board[r + dir, c] == Empty && board[r + 2 * dir, c] == Empty {
      moves := moves + [Square(r + 2 * dir, c)];
    }
    assert r == startRow ==> g[r + dir][c] == board[r + dir, c] && g[r + 2 * dir][c] == board[r + 2 * dir, c];
    assert moves == single + if r == StartRow(white) && g[r + dir][c] == Empty && g[r + 2 * dir][c] == Empty
      then [Square(r + 2 * dir, c)] else [];
    var captures := GetCaptureMoves(board, r, c, white, [(dir, -1), (dir, 1)]);
    moves := moves + captures;
  }

  /** The forEach over the two diagonal offsets of the pawn branch. */
  method GetCaptureMoves(board: array2<Cell>, r: int, c: int, white: bool, offs: seq<(int, int)>)
    returns (moves: seq<Square>)
    requires Is8x8(board)
    ensures moves == CaptureMoves(Snapshot(board), r, c, white, offs)
  {
    ghost var g := Snapshot(board);
    moves := [];
    for i := 0 to |offs|
      invariant moves == CaptureMoves(g, r, c, white, offs[..i])
    {
      var nr, nc := r + offs[i].0, c + offs[i].1;
      if InBounds(nr, nc) && board[nr, nc] != Empty && Opposes(white, board[nr, nc]) {
        moves := moves + [Square(nr, nc)];
      }
      assert offs[..i + 1][..i] == offs[..i];
    }
    assert offs[..|offs|] == offs;
  }

  /** The knight and king branches of getLegalMoves: one fixed offset list. */
  method GetStepMoves(board: array2<Cell>, r: int, c: int, white: bool, offs: seq<(int, int)>)
    returns (moves: seq<Square>)
    requires Is8x8(board)
    ensures moves == StepMoves(Snapshot(board), r, c, white, offs)
  {
    ghost var g := Snapshot(board);
    moves := [];
    for i := 0 to |offs|
      invariant moves == StepMoves(g, r, c, white, offs[..i])
    {
      var nr, nc := r + offs[i].0, c + offs[i].1;
      if InBounds(nr, nc) && (board[nr, nc] == Empty || Opposes(white, board[nr, nc])) {
        moves := moves + [Square(nr, nc)];
      }
      assert offs[..i + 1][..i] == offs[..i];
    }
    assert offs[..|offs|] == offs;
  }

  /** The sliding branch of getLegalMoves: each direction walked in turn. */
  method GetSlideMoves(board: array2<Cell>, r: int, c: int, white: bool, dirs: seq<(int, int)>)
    returns (moves: seq<Square>)
    requires Is8x8(board) && AllDirections(dirs)
    ensures moves == SlideMoves(Snapshot(board), r, c, white, dirs)
  {
    ghost var g := Snapshot(board);
    moves := [];
    for i := 0 to |dirs|
      invariant moves == SlideMoves(g, r, c, white, dirs[..i])
    {
      assert dirs[..i + 1][..i] == dirs[..i];
      moves := WalkRay(board, r, c, dirs[i], white, moves);
    }
    assert dirs[..|dirs|] == dirs;
  }

  /**
   * The while loop of the sliding branch along direction d: empty squares
   * are pushed, the first occupied one only when it holds an opposing piece.
   */
  method WalkRay(board: array2<Cell>, r: int, c: int, d: (int, int), white: bool, moves: seq<Square>)
    returns (result: seq<Square>)
    requires Is8x8(board) && IsDirection(d)
    ensures result == moves + Ray(Snapshot(board), r + d.0, c + d.1, d, white)
  {
    ghost var g := Snapshot(board);
    ghost var target := moves + Ray(g, r + d.0, c + d.1, d, white);
    result := moves;
    var nr, nc := r + d.0, c + d.1;
    while InBounds(nr, nc)
      invariant result + Ray(g, nr, nc, d, white) == target
      decreases RayBudget(nr, nc, d)
    {
      assert g[nr][nc] == board[nr, nc];
      if board[nr, nc] == Empty {
        assert Ray(g, nr, nc, d, white) == [Square(nr, nc)] + Ray(g, nr + d.0, nc + d.1, d, white);
        result := result + [Square(nr, nc)];
      } else {
        assert Ray(g, nr, nc, d, white) == if Opposes(white, g[nr][nc]) then [Square(nr, nc)] else [];
        if Opposes(white, board[nr, nc]) {
          result := result + [Square(nr, nc)];
        }
        break;
      }
      nr, nc := nr + d.0, nc + d.1;
    }
  }

  /** getLegalMoves(r, c, piece). */
  method GetLegalMoves(board: array2<Cell>, r: int, c: int, piece: Cell) returns (moves: seq<Square>)
    requires Is8x8(board) && InBounds(r, c)
    ensures moves == PseudoLegalMoves(Snapshot(board), r, c, piece)
  {
    var white := IsWhite(piece);
    if HasKind(piece, 'p') {
      moves := GetPawnMoves(board, r, c, white);
      return;
    }
    if HasKind(piece, 'n') {
      moves := GetStepMoves(board, r, c, white, KnightOffsets);
      return;
    }
    if HasKind(piece, 'k') {
      moves := GetStepMoves(board, r, c, white, KingOffsets);
      return;
    }
    var slideDirs: seq<(int, int)> := [];
    if HasKind(piece, 'r') { slideDirs := RookDirs; }
    if HasKind(piece, 'b') { slideDirs := BishopDirs; }
    if HasKind(piece, 'q') { slideDirs := RookDirs + BishopDirs; }
    assert slideDirs == SlideDirs(piece);
    moves := GetSlideMoves(board, r, c, white, slideDirs);
  }
}
