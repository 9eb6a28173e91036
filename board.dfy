/**
 * The board of chess-website/script.js: an 8 by 8 grid of one-character
 * strings, upper case for White, lower case for Black and "" for an empty
 * square, together with the helpers isWhite, isBlack and inBounds, the
 * initial layout and the in-place move executor movePiece.
 */
module Board {

  /** One entry of the board: the empty string or a one-character string. */
  datatype Cell = Empty | Occupied(ch: char)

  /** String.prototype.toUpperCase on one character, restricted to ASCII. */
  function ToUpper(ch: char): char {
    if 'a' <= ch <= 'z' then (ch as int - 32) as char else ch
  }

  /** String.prototype.toLowerCase on one character, restricted to ASCII. */
  function ToLower(ch: char): char {
    if 'A' <= ch <= 'Z' then (ch as int + 32) as char else ch
  }

  /** isWhite(p): p is not "" and upper-casing leaves it unchanged. */
  predicate IsWhite(x: Cell)
    ensures IsWhite(x) <==> x.Occupied? && !('a' <= x.ch <= 'z')
  {
    x.Occupied? && ToUpper(x.ch) == x.ch
  }

  /** isBlack(p): p is not "" and lower-casing leaves it unchanged. */
  predicate IsBlack(x: Cell)
    ensures IsBlack(x) <==> x.Occupied? && !('A' <= x.ch <= 'Z')
  {
    x.Occupied? && ToLower(x.ch) == x.ch
  }

  /** piece.toLowerCase() === k, for a one-letter k: either case of the letter k. */
  predicate HasKind(x: Cell, k: char)
    ensures 'a' <= k <= 'z' ==> (HasKind(x, k) <==> x == Occupied(k) || x == Occupied((k as int - 32) as char))
  {
    x.Occupied? && ToLower(x.ch) == k
  }

  /** inBounds(r, c). */
  predicate InBounds(r: int, c: int) {
    0 <= r < 8 && 0 <= c < 8
  }

  /** The twelve letters the board ever holds. */
  predicate IsPieceLetter(ch: char) {
    ch in "PNBRQKpnbrqk"
  }

  /** A cell as the game produces it: empty or one of the twelve piece letters. */
  predicate WellFormedCell(x: Cell) {
    x.Empty? || IsPieceLetter(x.ch)
  }

  /** A piece letter is of exactly one colour; "" is of neither. */
  lemma ColoursExclusive(x: Cell)
    requires WellFormedCell(x)
    ensures x.Occupied? <==> (IsWhite(x) || IsBlack(x))
    ensures !(IsWhite(x) && IsBlack(x))
  {
  }

  /** The board as a value: rows, then columns. */
  type Grid = seq<seq<Cell>>

  predicate Shaped(g: Grid) {
    |g| == 8 && forall i :: 0 <= i < 8 ==> |g[i]| == 8
  }

  predicate WellFormed(g: Grid)
    requires Shaped(g)
  {
    forall i, j :: 0 <= i < 8 && 0 <= j < 8 ==> WellFormedCell(g[i][j])
  }

  /** On a shaped grid, inBounds holds exactly when board[r][c] exists. */
  lemma InBoundsMeansOnBoard(g: Grid, r: int, c: int)
    requires Shaped(g)
    ensures InBounds(r, c) <==> (0 <= r < |g| && 0 <= c < |g[r]|)
  {
  }

  const EmptyRank: seq<Cell> := [Empty, Empty, Empty, Empty, Empty, Empty, Empty, Empty]

  /** initialBoard: Black's pieces on rows 0 and 1, White's on rows 6 and 7. */
  const InitialBoard: Grid := [
    [Occupied('r'), Occupied('n'), Occupied('b'), Occupied('q'),
     Occupied('k'), Occupied('b'), Occupied('n'), Occupied('r')],
    [Occupied('p'), Occupied('p'), Occupied('p'), Occupied('p'),
     Occupied('p'), Occupied('p'), Occupied('p'), Occupied('p')],
    EmptyRank,
    EmptyRank,
    EmptyRank,
    EmptyRank,
    [Occupied('P'), Occupied('P'), Occupied('P'), Occupied('P'),
     Occupied('P'), Occupied('P'), Occupied('P'), Occupied('P')],
    [Occupied('R'), Occupied('N'), Occupied('B'), Occupied('Q'),
     Occupied('K'), Occupied('B'), Occupied('N'), Occupied('R')]
  ]

  /** The initial layout holds 16 pieces of each colour and nothing else. */
  lemma InitialBoardLayout()
    ensures Shaped(InitialBoard) && WellFormed(InitialBoard)
    ensures forall i, j :: InBounds(i, j) ==>
      (IsWhite(InitialBoard[i][j]) <==> 6 <= i) &&
      (IsBlack(InitialBoard[i][j]) <==> i <= 1) &&
      (InitialBoard[i][j] == Empty <==> 2 <= i <= 5)
  {
    forall i, j | InBounds(i, j)
      ensures WellFormedCell(InitialBoard[i][j])
      ensures IsWhite(InitialBoard[i][j]) <==> 6 <= i
      ensures IsBlack(InitialBoard[i][j]) <==> i <= 1
      ensures InitialBoard[i][j] == Empty <==> 2 <= i <= 5
    {
      // Naming row i lets the verifier unfold that rank of the constant.
      assert InitialBoard[i] == InitialBoard[i];
    }
  }

  predicate Is8x8(board: array2<Cell>) {
    board.Length0 == 8 && board.Length1 == 8
  }

  /** The contents of the live board. */
  ghost function Snapshot(board: array2<Cell>): (g: Grid)
    reads board
    ensures |g| == board.Length0
    ensures forall i :: 0 <= i < |g| ==> |g[i]| == board.Length1
    ensures forall i, j :: 0 <= i < board.Length0 && 0 <= j < board.Length1 ==> g[i][j] == board[i, j]
    ensures Is8x8(board) ==> Shaped(g)
  {
    seq(board.Length0, i requires 0 <= i < board.Length0 reads board =>
      seq(board.Length1, j requires 0 <= j < board.Length1 reads board => board[i, j]))
  }

  /** Two shaped grids that agree on every square are equal. */
  lemma GridsEqual(g: Grid, h: Grid)
    requires Shaped(g) && Shaped(h)
    requires forall i, j :: InBounds(i, j) ==> g[i][j] == h[i][j]
    ensures g == h
  {
    forall i | 0 <= i < 8
      ensures g[i] == h[i]
    {
      assert forall j :: 0 <= j < 8 ==> g[i][j] == h[i][j] by {
        forall j | 0 <= j < 8 ensures g[i][j] == h[i][j] {
          assert InBounds(i, j);
        }
      }
    }
  }

  /**
   * The board after movePiece(sr, sc, tr, tc): the target gets the source's
   * occupant, overwriting (capturing) what was there, the source becomes
   * empty, and nothing else changes.
   */
  function Moved(g: Grid, sr: int, sc: int, tr: int, tc: int): (h: Grid)
    requires Shaped(g) && InBounds(sr, sc) && InBounds(tr, tc)
    ensures Shaped(h)
    ensures h[sr][sc] == Empty
    ensures (tr, tc) != (sr, sc) ==> h[tr][tc] == g[sr][sc]
    ensures forall i, j :: InBounds(i, j) && (i, j) != (sr, sc) && (i, j) != (tr, tc) ==> h[i][j] == g[i][j]
  {
    var placed := g[tr := g[tr][tc := g[sr][sc]]];
    placed[sr := placed[sr][sc := Empty]]
  }

  /** A move between well-formed cells keeps the grid well formed. */
  lemma MovedWellFormed(g: Grid, sr: int, sc: int, tr: int, tc: int)
    requires Shaped(g) && WellFormed(g) && InBounds(sr, sc) && InBounds(tr, tc)
    ensures WellFormed(Moved(g, sr, sc, tr, tc))
  {
    var h := Moved(g, sr, sc, tr, tc);
    forall i, j | InBounds(i, j) ensures WellFormedCell(h[i][j]) {
      if (i, j) == (sr, sc) {
      } else if (i, j) == (tr, tc) {
      } else {
      }
    }
  }

  /** movePiece: board[tr][tc] = board[sr][sc]; board[sr][sc] = "". */
  method MovePiece(board: array2<Cell>, sr: int, sc: int, tr: int, tc: int)
    requires Is8x8(board) && InBounds(sr, sc) && InBounds(tr, tc)
    modifies board
    ensures board[sr, sc] == Empty
    ensures (tr, tc) != (sr, sc) ==> board[tr, tc] == old(board[sr, sc])
    ensures forall i, j :: InBounds(i, j) && (i, j) != (sr, sc) && (i, j) != (tr, tc) ==> board[i, j] == old(board[i, j])
    ensures Snapshot(board) == Moved(old(Snapshot(board)), sr, sc, tr, tc)
  {
    ghost var before := Snapshot(board);
    board[tr, tc] := board[sr, sc];
    board[sr, sc] := Empty;
    GridsEqual(Snapshot(board), Moved(before, sr, sc, tr, tc));
  }

  /** The board set up by resetGame: a fresh copy of initialBoard. */
  method NewBoard() returns (board: array2<Cell>)
    ensures fresh(board) && Is8x8(board)
    ensures Snapshot(board) == InitialBoard
  {
    board := new Cell[8, 8]((i, j) requires 0 <= i < 8 && 0 <= j < 8 => InitialBoard[i][j]);
    GridsEqual(Snapshot(board), InitialBoard);
  }
}
