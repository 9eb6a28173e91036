/**
 * evaluateBoard (chess-website/js/ai.js): the material balance of a
 * chess.js board, white pieces counting positively and black negatively.
 */
module Material {
  import opened Wrappers
  import Board

  datatype Color = White | Black
  datatype Kind = Pawn | Knight | Bishop | Rook | Queen | King

  /** One entry of chess.js's board(): a piece type and colour. */
  datatype Piece = Piece(kind: Kind, color: Color)

  /** board(): rows of squares, each empty (null) or holding a piece. */
  type PieceBoard = seq<seq<Option<Piece>>>

  /** The values table {p:1, n:3, b:3, r:5, q:9, k:0}. */
  function PieceValue(k: Kind): (v: nat)
    ensures v == 0 <==> k == King
    ensures v <= 9
  {
    match k
    case Pawn => 1
    case Knight => 3
    case Bishop => 3
    case Rook => 5
    case Queen => 9
    case King => 0
  }

  /** What one square adds to the score: nothing when empty, the value signed by colour otherwise. */
  function Contribution(x: Option<Piece>): (v: int)
    ensures x.None? ==> v == 0
    ensures x.Some? ==> (v > 0 <==> x.value.color == White && x.value.kind != King)
    ensures x.Some? ==> (v < 0 <==> x.value.color == Black && x.value.kind != King)
    ensures x.Some? ==> (v == PieceValue(x.value.kind) || v == -(PieceValue(x.value.kind) as int))
  {
    match x
    case None => 0
    case Some(p) => (if p.color == White then 1 else -1) * PieceValue(p.kind)
  }

  function RowScore(row: seq<Option<Piece>>): int
    decreases |row|
  {
    if row == [] then 0 else RowScore(row[..|row| - 1]) + Contribution(row[|row| - 1])
  }

  /** The sum of all contributions, row by row. */
  function Score(b: PieceBoard): int
    decreases |b|
  {
    if b == [] then 0 else Score(b[..|b| - 1]) + RowScore(b[|b| - 1])
  }

  /** evaluateBoard's two loops. */
  method EvaluateBoard(b: PieceBoard) returns (score: int)
    ensures score == Score(b)
  {
    score := 0;
    for i := 0 to |b|
      invariant score == Score(b[..i])
    {
      var row := b[i];
      for j := 0 to |row|
        invariant score == Score(b[..i]) + RowScore(row[..j])
      {
        assert row[..j + 1][..j] == row[..j];
        var p := row[j];
        if p == None {
          continue;
        }
        score := score + (if p.value.color == White then 1 else -1) * PieceValue(p.value.kind);
      }
      assert row[..|row|] == row;
      assert b[..i + 1][..i] == b[..i];
    }
    assert b[..|b|] == b;
  }

  // ---------------------------------------------------------------------
  // Properties of the score
  // ---------------------------------------------------------------------

  /** Replacing the content of one square changes the score by the difference of the contributions. */
  lemma {:induction false} RowScoreUpdate(row: seq<Option<Piece>>, j: int, x: Option<Piece>)
    requires 0 <= j < |row|
    ensures RowScore(row[j := x]) == RowScore(row) - Contribution(row[j]) + Contribution(x)
    decreases |row|
  {
    var n := |row| - 1;
    var row' := row[j := x];
    assert row'[..n] == if j == n then row[..n] else row[..n][j := x];
    if j < n {
      RowScoreUpdate(row[..n], j, x);
    }
  }

  /** The score is local: it changes by exactly what the changed square contributes. */
  lemma {:induction false} ScoreUpdate(b: PieceBoard, i: int, j: int, x: Option<Piece>)
    requires 0 <= i < |b| && 0 <= j < |b[i]|
    ensures Score(b[i := b[i][j := x]]) == Score(b) - Contribution(b[i][j]) + Contribution(x)
    decreases |b|
  {
    var n := |b| - 1;
    var b' := b[i := b[i][j := x]];
    if i == n {
      assert b'[..n] == b[..n];
      RowScoreUpdate(b[i], j, x);
    } else {
      assert b'[..n] == b[..n][i := b[i][j := x]];
      ScoreUpdate(b[..n], i, j, x);
    }
  }

  /** Kings carry value 0: putting a king on an empty square or removing one leaves the score alone. */
  lemma KingsNeverCount(b: PieceBoard, i: int, j: int, c: Color)
    requires 0 <= i < |b| && 0 <= j < |b[i]|
    requires b[i][j] == None
    ensures Score(b[i := b[i][j := Some(Piece(King, c))]]) == Score(b)
  {
    ScoreUpdate(b, i, j, Some(Piece(King, c)));
  }

  function Swap(x: Option<Piece>): Option<Piece> {
    match x
    case None => None
    case Some(p) => Some(Piece(p.kind, if p.color == White then Black else White))
  }

  /** The board with every piece's colour exchanged. */
  function Swapped(b: PieceBoard): (s: PieceBoard)
    ensures |s| == |b|
    ensures forall i :: 0 <= i < |b| ==> |s[i]| == |b[i]|
    ensures forall i, j :: 0 <= i < |b| && 0 <= j < |b[i]| ==> s[i][j] == Swap(b[i][j])
  {
    seq(|b|, i requires 0 <= i < |b| => seq(|b[i]|, j requires 0 <= j < |b[i]| => Swap(b[i][j])))
  }

  lemma {:induction false} RowSwapNegates(row: seq<Option<Piece>>, s: seq<Option<Piece>>)
    requires |s| == |row| && forall j :: 0 <= j < |row| ==> s[j] == Swap(row[j])
    ensures RowScore(s) == -RowScore(row)
    decreases |row|
  {
    if row != [] {
      var n := |row| - 1;
      RowSwapNegates(row[..n], s[..n]);
    }
  }

  lemma {:induction false} SwapNegatesRows(b: PieceBoard, s: PieceBoard)
    requires |s| == |b|
    requires forall i :: 0 <= i < |b| ==> |s[i]| == |b[i]|
    requires forall i, j :: 0 <= i < |b| && 0 <= j < |b[i]| ==> s[i][j] == Swap(b[i][j])
    ensures Score(s) == -Score(b)
    decreases |b|
  {
    if b != [] {
      var n := |b| - 1;
      SwapNegatesRows(b[..n], s[..n]);
      RowSwapNegates(b[n], s[n]);
    }
  }

  /** The evaluation is colour-symmetric: exchanging every piece's colour negates it. */
  lemma ColourSwapNegates(b: PieceBoard)
    ensures Score(Swapped(b)) == -Score(b)
  {
    SwapNegatesRows(b, Swapped(b));
  }

  // ---------------------------------------------------------------------
  // The starting position
  // ---------------------------------------------------------------------

  function KindOf(ch: char): Option<Kind> {
    match Board.ToLower(ch)
    case 'p' => Some(Pawn)
    case 'n' => Some(Knight)
    case 'b' => Some(Bishop)
    case 'r' => Some(Rook)
    case 'q' => Some(Queen)
    case 'k' => Some(King)
    case _ => None
  }

  /** A square of the letter board read as a chess.js square; upper case is white. */
  function AsPiece(x: Board.Cell): Option<Piece> {
    if x.Empty? || KindOf(x.ch).None? then None
    else Some(Piece(KindOf(x.ch).value, if Board.IsWhite(x) then White else Black))
  }

  function AsPieceRow(row: seq<Board.Cell>): (s: seq<Option<Piece>>)
    ensures |s| == |row| && forall j :: 0 <= j < |row| ==> s[j] == AsPiece(row[j])
  {
    seq(|row|, j requires 0 <= j < |row| => AsPiece(row[j]))
  }

  lemma RowScorePrefix(row: seq<Option<Piece>>, k: int)
    requires 0 < k <= |row|
    ensures RowScore(row[..k]) == RowScore(row[..k - 1]) + Contribution(row[k - 1])
  {
    assert row[..k][..k - 1] == row[..k - 1];
  }

  /** The score of an 8-square row, square by square. */
  lemma EightSquares(row: seq<Option<Piece>>)
    requires |row| == 8
    ensures RowScore(row) == Contribution(row[0]) + Contribution(row[1]) + Contribution(row[2])
      + Contribution(row[3]) + Contribution(row[4]) + Contribution(row[5]) + Contribution(row[6])
      + Contribution(row[7])
  {
    assert |row[..0]| == 0;
    RowScorePrefix(row, 1);
    RowScorePrefix(row, 2);
    RowScorePrefix(row, 3);
    RowScorePrefix(row, 4);
    RowScorePrefix(row, 5);
    RowScorePrefix(row, 6);
    RowScorePrefix(row, 7);
    RowScorePrefix(row, 8);
    assert row[..8] == row;
  }

  const InitialRowScores: seq<int> := [-31, -8, 0, 0, 0, 0, 8, 31]

  /** Black's back rank and pawns are worth 31 and 8, White's the same, the middle ranks nothing. */
  lemma InitialRowScore(i: int)
    requires 0 <= i < 8
    ensures RowScore(AsPieceRow(Board.InitialBoard[i])) == InitialRowScores[i]
  {
    var cells := Board.InitialBoard[i];
    var row := AsPieceRow(cells);
    EightSquares(row);
    LetterContributions();
    assert forall j :: 0 <= j < 8 ==> row[j] == AsPiece(cells[j]);
    if i == 0 {
      assert cells == Board.InitialBoard[0];
    } else if i == 1 {
      assert cells == Board.InitialBoard[1];
    } else if i < 6 {
      assert cells == Board.EmptyRank;
    } else if i == 6 {
      assert cells == Board.InitialBoard[6];
    } else {
      assert cells == Board.InitialBoard[7];
    }
  }

  /** The contribution of each piece letter of the letter board. */
  lemma LetterContributions()
    ensures Contribution(AsPiece(Board.Occupied('p'))) == -1 && Contribution(AsPiece(Board.Occupied('P'))) == 1
    ensures Contribution(AsPiece(Board.Occupied('n'))) == -3 && Contribution(AsPiece(Board.Occupied('N'))) == 3
    ensures Contribution(AsPiece(Board.Occupied('b'))) == -3 && Contribution(AsPiece(Board.Occupied('B'))) == 3
    ensures Contribution(AsPiece(Board.Occupied('r'))) == -5 && Contribution(AsPiece(Board.Occupied('R'))) == 5
    ensures Contribution(AsPiece(Board.Occupied('q'))) == -9 && Contribution(AsPiece(Board.Occupied('Q'))) == 9
    ensures Contribution(AsPiece(Board.Occupied('k'))) == 0 && Contribution(AsPiece(Board.Occupied('K'))) == 0
    ensures Contribution(AsPiece(Board.Empty)) == 0
  {
  }

  /** The starting position is balanced: its evaluation is 0. */
  lemma InitialPositionBalanced()
    ensures Score(seq(8, i requires 0 <= i < 8 => AsPieceRow(Board.InitialBoard[i]))) == 0
  {
    var b := seq(8, i requires 0 <= i < 8 => AsPieceRow(Board.InitialBoard[i]));
    forall i | 0 <= i < 8 ensures RowScore(b[i]) == InitialRowScores[i] {
      InitialRowScore(i);
    }
    assert |b[..0]| == 0;
    ScorePrefix(b, 1);
    ScorePrefix(b, 2);
    ScorePrefix(b, 3);
    ScorePrefix(b, 4);
    ScorePrefix(b, 5);
    ScorePrefix(b, 6);
    ScorePrefix(b, 7);
    ScorePrefix(b, 8);
    assert b[..8] == b;
  }

  /** The score of the first k rows adds row k - 1 to that of the first k - 1. */
  lemma ScorePrefix(b: PieceBoard, k: int)
    requires 0 < k <= |b|
    ensures Score(b[..k]) == Score(b[..k - 1]) + RowScore(b[k - 1])
  {
    assert b[..k][..k - 1] == b[..k - 1];
  }
}
