/**
 * The enumeration at the start of computerMove (chess-website/script.js):
 * every (piece, destination) pair of Black, squares in row-major order and
 * each square's destinations in the order getLegalMoves produces them.
 */
module Enumeration {
  import opened Board
  import opened MoveGen

  /** {from: {r, c}, to: m} as pushed onto allMoves. */
  datatype Move = Move(from: Square, to: Square)

  /** The moves from one square towards the given destinations, in order. */
  function MovesTo(from: Square, tos: seq<Square>): (ms: seq<Move>)
    ensures |ms| == |tos|
    ensures forall i :: 0 <= i < |tos| ==> ms[i] == Move(from, tos[i])
    decreases |tos|
  {
    if tos == [] then [] else MovesTo(from, tos[..|tos| - 1]) + [Move(from, tos[|tos| - 1])]
  }

  /** The pairs contributed by square (r, c): its destinations if it holds a black piece. */
  function SquareMoves(g: Grid, r: int, c: int): seq<Move>
    requires Shaped(g) && InBounds(r, c)
  {
    if IsBlack(g[r][c]) then MovesTo(Square(r, c), PseudoLegalMoves(g, r, c, g[r][c])) else []
  }

  /** The pairs of row r contributed by its first c squares. */
  function RowMoves(g: Grid, r: int, c: nat): seq<Move>
    requires Shaped(g) && 0 <= r < 8 && c <= 8
  {
    if c == 0 then [] else RowMoves(g, r, c - 1) + SquareMoves(g, r, c - 1)
  }

  /** The pairs of the first r rows. */
  function RowsMoves(g: Grid, r: nat): seq<Move>
    requires Shaped(g) && r <= 8
  {
    if r == 0 then [] else RowsMoves(g, r - 1) + RowMoves(g, r - 1, 8)
  }

  /** allMoves once both forEach loops are done. */
  function BlackMoves(g: Grid): seq<Move>
    requires Shaped(g)
  {
    RowsMoves(g, 8)
  }

  /** moves.forEach(m => allMoves.push({from, to: m})). */
  method PushMoves(allMoves: seq<Move>, from: Square, moves: seq<Square>) returns (result: seq<Move>)
    ensures result == allMoves + MovesTo(from, moves)
  {
    result := allMoves;
    for k := 0 to |moves|
      invariant result == allMoves + MovesTo(from, moves[..k])
    {
      result := result + [Move(from, moves[k])];
      assert moves[..k + 1][..k] == moves[..k];
    }
    assert moves[..|moves|] == moves;
  }

  /** The enumeration of computerMove on the live board. */
  method EnumerateBlackMoves(board: array2<Cell>) returns (allMoves: seq<Move>)
    requires Is8x8(board)
    ensures allMoves == BlackMoves(Snapshot(board))
  {
    ghost var g := Snapshot(board);
    allMoves := [];
    for r := 0 to 8
      invariant allMoves == RowsMoves(g, r)
    {
      for c := 0 to 8
        invariant allMoves == RowsMoves(g, r) + RowMoves(g, r, c)
      {
        var piece := board[r, c];
        assert piece == g[r][c];
        ghost var before := allMoves;
        if IsBlack(piece) {
          var moves := GetLegalMoves(board, r, c, piece);
          allMoves := PushMoves(allMoves, Square(r, c), moves);
        }
        assert allMoves == before + SquareMoves(g, r, c);
        RowMovesStep(g, r, c, before, allMoves);
      }
      assert RowsMoves(g, r + 1) == RowsMoves(g, r) + RowMoves(g, r, 8);
    }
  }

  /** One square of the inner forEach: the pairs it pushes extend the row prefix by one square. */
  lemma RowMovesStep(g: Grid, r: int, c: int, before: seq<Move>, after: seq<Move>)
    requires Shaped(g) && 0 <= r < 8 && 0 <= c < 8
    requires before == RowsMoves(g, r) + RowMoves(g, r, c)
    requires after == before + SquareMoves(g, r, c)
    ensures after == RowsMoves(g, r) + RowMoves(g, r, c + 1)
  {
    var rows, row, here := RowsMoves(g, r), RowMoves(g, r, c), SquareMoves(g, r, c);
    RowMovesUnfold(g, r, c);
    AppendAssoc(rows, row, here);
  }

  /** Regrouping the appended pairs, kept apart so that the extensional equality is proved without the move definitions in scope. */
  lemma AppendAssoc(a: seq<Move>, b: seq<Move>, c: seq<Move>)
    ensures (a + b) + c == a + (b + c)
  {
  }

  lemma RowMovesUnfold(g: Grid, r: int, c: int)
    requires Shaped(g) && 0 <= r < 8 && 0 <= c < 8
    ensures RowMoves(g, r, c + 1) == RowMoves(g, r, c) + SquareMoves(g, r, c)
  {
  }

  // ---------------------------------------------------------------------
  // What the enumeration contains
  // ---------------------------------------------------------------------

  /** m is a move of a black piece that getLegalMoves allows. */
  ghost predicate IsBlackMove(g: Grid, m: Move)
    requires Shaped(g)
  {
    InBounds(m.from.r, m.from.c) && IsBlack(g[m.from.r][m.from.c])
    && m.to in PseudoLegalMoves(g, m.from.r, m.from.c, g[m.from.r][m.from.c])
  }

  /** The row-major position of a square. */
  function Index(s: Square): int { 8 * s.r + s.c }

  /** The moves are listed square by square in row-major order. */
  ghost predicate RowMajor(ms: seq<Move>) {
    forall i, j :: 0 <= i < j < |ms| ==> Index(ms[i].from) <= Index(ms[j].from)
  }

  lemma RowMajorConcat(a: seq<Move>, b: seq<Move>)
    requires RowMajor(a) && RowMajor(b)
    requires forall x, y :: x in a && y in b ==> Index(x.from) <= Index(y.from)
    ensures RowMajor(a + b)
  {
    forall i, j | 0 <= i < j < |a + b| ensures Index((a + b)[i].from) <= Index((a + b)[j].from) {
      if i < |a| && j >= |a| {
        assert (a + b)[i] == a[i] && (a + b)[j] == b[j - |a|];
      } else if i >= |a| {
        assert (a + b)[i] == b[i - |a|] && (a + b)[j] == b[j - |a|];
      }
    }
  }

  /** The first c squares of row r contribute the black moves from those squares, left to right. */
  lemma {:induction false} RowMovesExactly(g: Grid, r: int, c: nat)
    requires Shaped(g) && 0 <= r < 8 && c <= 8
    ensures forall m :: m in RowMoves(g, r, c) <==> IsBlackMove(g, m) && m.from.r == r && m.from.c < c
    ensures RowMajor(RowMoves(g, r, c))
  {
    if c > 0 {
      RowMovesExactly(g, r, c - 1);
      var pre, here := RowMoves(g, r, c - 1), SquareMoves(g, r, c - 1);
      SquareMovesExactly(g, r, c - 1);
      RowMajorConcat(pre, here);
      assert RowMoves(g, r, c) == pre + here;
    }
  }

  /** A square contributes the black moves from it, and only those. */
  lemma SquareMovesExactly(g: Grid, r: int, c: int)
    requires Shaped(g) && InBounds(r, c)
    ensures forall m :: m in SquareMoves(g, r, c) <==> IsBlackMove(g, m) && m.from == Square(r, c)
    ensures forall m :: m in SquareMoves(g, r, c) ==> Index(m.from) == 8 * r + c
  {
    if IsBlack(g[r][c]) {
      var tos := PseudoLegalMoves(g, r, c, g[r][c]);
      var ms := MovesTo(Square(r, c), tos);
      forall m | m in ms ensures m.from == Square(r, c) && m.to in tos {
        var i :| 0 <= i < |ms| && ms[i] == m;
      }
      forall m | IsBlackMove(g, m) && m.from == Square(r, c) ensures m in ms {
        var i :| 0 <= i < |tos| && tos[i] == m.to;
        assert ms[i] == m;
      }
    }
  }

  /** The first r rows contribute the black moves from those rows, in row-major order. */
  lemma {:induction false} RowsMovesExactly(g: Grid, r: nat)
    requires Shaped(g) && r <= 8
    ensures forall m :: m in RowsMoves(g, r) <==> IsBlackMove(g, m) && m.from.r < r
    ensures RowMajor(RowsMoves(g, r))
  {
    if r > 0 {
      RowsMovesExactly(g, r - 1);
      RowMovesExactly(g, r - 1, 8);
      RowMajorConcat(RowsMoves(g, r - 1), RowMoves(g, r - 1, 8));
    }
  }

  /**
   * allMoves holds exactly the black moves getLegalMoves allows, listed
   * square by square in row-major order.
   */
  lemma BlackMovesExactly(g: Grid)
    requires Shaped(g)
    ensures forall m :: m in BlackMoves(g) <==> IsBlackMove(g, m)
    ensures RowMajor(BlackMoves(g))
  {
    RowsMovesExactly(g, 8);
  }

  /** allMoves is empty, the "Game over" case, exactly when no black piece has a destination. */
  lemma NoBlackMovesMeansGameOver(g: Grid)
    requires Shaped(g)
    ensures BlackMoves(g) == [] <==>
      forall r, c :: InBounds(r, c) && IsBlack(g[r][c]) ==> PseudoLegalMoves(g, r, c, g[r][c]) == []
  {
    BlackMovesExactly(g);
    if BlackMoves(g) != [] {
      var m := BlackMoves(g)[0];
      assert IsBlackMove(g, m);
    } else {
      forall r, c | InBounds(r, c) && IsBlack(g[r][c])
        ensures PseudoLegalMoves(g, r, c, g[r][c]) == []
      {
        var ms := PseudoLegalMoves(g, r, c, g[r][c]);
        if ms != [] {
          assert IsBlackMove(g, Move(Square(r, c), ms[0]));
        }
      }
    }
  }
}
