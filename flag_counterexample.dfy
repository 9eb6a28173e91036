/**
 * getBestMove (chess-website/js/ai.js) passes isMaximizingPlayer =
 * (game.turn() === 'w' ? false : true) for the position after each root
 * move. After White's move it is Black's turn, so the reply is searched as
 * a maximizing node: the side to move next is assumed to help the side
 * that just moved. The intended flag is turn() === 'w', so that Black
 * minimizes and White maximizes.
 */
module FlagCounterexample {
  import opened Wrappers
  import opened ExtInts
  import opened Material
  import opened Search

  // ---------------------------------------------------------------------
  // As written: a two-ply game where the flag picks the losing move
  // ---------------------------------------------------------------------

  /** Positions are the sequences of moves played; each side has moves 0 and 1 for two plies. */
  function TwoPlyMoves(s: seq<int>): seq<int> {
    if |s| < 2 then [0, 1] else []
  }

  function TwoPlyApply(s: seq<int>, m: int): seq<int> {
    s + [m]
  }

  function TwoPlyOver(s: seq<int>): bool {
    |s| >= 2
  }

  /** After 0 then 0 White has a rook, after 0 then 1 Black has one, otherwise White has a pawn. */
  function TwoPlyBoard(s: seq<int>): PieceBoard {
    if s == [0, 0] then [[Some(Piece(Rook, White))]]
    else if s == [0, 1] then [[Some(Piece(Rook, Black))]]
    else [[Some(Piece(Pawn, White))]]
  }

  function TwoPlyWhite(s: seq<int>): bool {
    |s| % 2 == 0
  }

  const TwoPly: Rules<seq<int>, int> := Rules(TwoPlyMoves, TwoPlyApply, TwoPlyOver, TwoPlyBoard, TwoPlyWhite)

  lemma TwoPlyLeafScores()
    ensures Evaluate(TwoPly, [0, 0]) == Fin(5)
    ensures Evaluate(TwoPly, [0, 1]) == Fin(-5)
    ensures Evaluate(TwoPly, [1, 0]) == Fin(1) && Evaluate(TwoPly, [1, 1]) == Fin(1)
  {
    var rook: PieceBoard := [[Some(Piece(Rook, White))]];
    var black: PieceBoard := [[Some(Piece(Rook, Black))]];
    var pawn: PieceBoard := [[Some(Piece(Pawn, White))]];
    assert |rook[..0]| == 0 && |rook[0][..0]| == 0;
    assert |black[..0]| == 0 && |black[0][..0]| == 0;
    assert |pawn[..0]| == 0 && |pawn[0][..0]| == 0;
  }

  /** The value of Black's reply position when Black, at [m], maximizes or minimizes. */
  lemma TwoPlyReplyValues()
    ensures Value(TwoPly, [0], 1, true) == Fin(5) && Value(TwoPly, [0], 1, false) == Fin(-5)
    ensures Value(TwoPly, [1], 1, true) == Fin(1) && Value(TwoPly, [1], 1, false) == Fin(1)
  {
    TwoPlyLeafScores();
    var ms := [0, 1];
    assert ms[..1] == [0] && |ms[..1][..0]| == 0;
    assert TwoPlyApply([0], 0) == [0, 0] && TwoPlyApply([0], 1) == [0, 1];
    assert TwoPlyApply([1], 0) == [1, 0] && TwoPlyApply([1], 1) == [1, 1];
  }

  /** The scan over two values: the first is kept unless the second beats it. */
  lemma ScanOfTwo(a: ExtInt, b: ExtInt, white: bool)
    requires Improves(white, a, Worst(white))
    ensures Scan([a, b], white) == if Improves(white, b, a) then (Some(1), b) else (Some(0), a)
  {
    var vals := [a, b];
    assert vals[..1] == [a];
    assert |[a][..0]| == 0;
    assert Scan([a], white) == (Some(0), a);
  }

  /** The start position: White to move, with moves 0 and 1 leading to [0] and [1]. */
  lemma TwoPlyStart()
    ensures TwoPly.moves([]) == [0, 1] && TwoPly.whiteToMove([]) && !TwoPly.gameOver([])
    ensures TwoPly.apply([], 0) == [0] && TwoPly.apply([], 1) == [1]
    ensures !TwoPly.whiteToMove([0]) && !TwoPly.whiteToMove([1])
  {
    assert TwoPly.apply([], 0) == [] + [0];
  }

  /**
   * As written, getBestMove at the start of this game picks move 0,
   * which the reply 1 answers with a black rook (-5), over move 1, worth
   * 1 whatever Black does: the minimax value of the start is 1.
   */
  lemma WrittenFlagPicksLosingMove()
    ensures ChosenMove(TwoPly, [], 2) == Some(0)
    ensures Value(TwoPly, [], 2, true) == Fin(1)
    ensures Value(TwoPly, TwoPly.apply([], 0), 1, TwoPly.whiteToMove(TwoPly.apply([], 0))) == Fin(-5)
  {
    TwoPlyReplyValues();
    TwoPlyStart();
    WrittenRootValues();
    ScanOfTwo(Fin(5), Fin(1), true);
    TwoPlyStartValue();
  }

  /** As written, each root move is scored by letting Black maximize. */
  lemma WrittenRootValues()
    ensures RootValues(TwoPly, [], [0, 1], 2) == [Fin(5), Fin(1)]
  {
    TwoPlyReplyValues();
    TwoPlyStart();
    assert RootValue(TwoPly, [], 0, 2) == Fin(5);
    assert RootValue(TwoPly, [], 1, 2) == Fin(1);
  }

  /** The minimax value of the start, White maximizing over Black's minimizing replies. */
  lemma TwoPlyStartValue()
    ensures Value(TwoPly, [], 2, true) == Fin(1)
  {
    TwoPlyReplyValues();
    TwoPlyStart();
    var ms := [0, 1];
    assert ms[..1] == [0] && |ms[..1][..0]| == 0;
    assert Children(TwoPly, [], ms[..1], 1, true) == Fin(-5);
    assert Children(TwoPly, [], ms, 1, true) == Fin(1);
  }

  // ---------------------------------------------------------------------
  // Corrected: the child searched with isMaximizingPlayer = turn() === 'w'
  // ---------------------------------------------------------------------

  function IntendedRootValue<S, M>(rules: Rules<S, M>, s: S, m: M, depth: nat): ExtInt
    requires depth >= 1
  {
    var child := rules.apply(s, m);
    Value(rules, child, depth - 1, rules.whiteToMove(child))
  }

  function IntendedRootValues<S, M>(rules: Rules<S, M>, s: S, ms: seq<M>, depth: nat): (vals: seq<ExtInt>)
    requires depth >= 1
    ensures |vals| == |ms| && forall i :: 0 <= i < |ms| ==> vals[i] == IntendedRootValue(rules, s, ms[i], depth)
  {
    seq(|ms|, i requires 0 <= i < |ms| => IntendedRootValue(rules, s, ms[i], depth))
  }

  /** The move getBestMove returns with the corrected flag. */
  function IntendedChoice<S, M>(rules: Rules<S, M>, s: S, depth: nat): Option<M>
    requires depth >= 1
  {
    var ms := rules.moves(s);
    var (k, _) := Scan(IntendedRootValues(rules, s, ms, depth), rules.whiteToMove(s));
    if k.None? then None else Some(ms[k.value])
  }

  /** Every move hands the turn to the other side. */
  ghost predicate Alternates<S(!new), M(!new)>(rules: Rules<S, M>) {
    forall t, m :: rules.whiteToMove(rules.apply(t, m)) == !rules.whiteToMove(t)
  }

  /** bestValue after the scan is the fold Children computes, when the values are the children's. */
  lemma {:induction false} ScanMatchesChildren<S, M>(rules: Rules<S, M>, s: S, ms: seq<M>, d: nat, white: bool, vals: seq<ExtInt>)
    requires |vals| == |ms|
    requires forall i :: 0 <= i < |ms| ==> vals[i] == ChildValue(rules, s, ms[i], d, white)
    ensures Scan(vals, white).1 == Children(rules, s, ms, d, white)
    decreases |ms|
  {
    if ms != [] {
      var n := |ms| - 1;
      assert forall i :: 0 <= i < n ==> vals[..n][i] == vals[i] && ms[..n][i] == ms[i];
      ScanMatchesChildren(rules, s, ms[..n], d, white, vals[..n]);
      LeTotalOrder(Scan(vals[..n], white).1, vals[n], vals[n]);
    }
  }

  /**
   * With the corrected flag the move chosen in a live position attains the
   * minimax value of that position for the side to move.
   */
  lemma IntendedChoiceIsOptimal<S(!new), M(!new)>(rules: Rules<S, M>, s: S, depth: nat)
    requires depth >= 1 && Alternates(rules) && !rules.gameOver(s)
    ensures IntendedChoice(rules, s, depth).Some? ==>
      IntendedChoice(rules, s, depth).value in rules.moves(s)
      && IntendedRootValue(rules, s, IntendedChoice(rules, s, depth).value, depth) == Value(rules, s, depth, rules.whiteToMove(s))
    ensures Scan(IntendedRootValues(rules, s, rules.moves(s), depth), rules.whiteToMove(s)).1
      == Value(rules, s, depth, rules.whiteToMove(s))
  {
    var ms, w := rules.moves(s), rules.whiteToMove(s);
    var vals := IntendedRootValues(rules, s, ms, depth);
    forall i | 0 <= i < |ms| ensures vals[i] == ChildValue(rules, s, ms[i], depth - 1, w) {
      assert rules.whiteToMove(rules.apply(s, ms[i])) == !w;
    }
    ScanMatchesChildren(rules, s, ms, depth - 1, w, vals);
  }

  /** In the same game the corrected flag picks move 1. */
  lemma IntendedFlagPicksBestMove()
    ensures IntendedChoice(TwoPly, [], 2) == Some(1)
  {
    TwoPlyStart();
    IntendedRootValuesOfTwoPly();
    ScanOfTwo(Fin(-5), Fin(1), true);
  }

  /** With the corrected flag, each root move is scored by letting Black minimize. */
  lemma IntendedRootValuesOfTwoPly()
    ensures IntendedRootValues(TwoPly, [], [0, 1], 2) == [Fin(-5), Fin(1)]
  {
    TwoPlyReplyValues();
    TwoPlyStart();
    assert IntendedRootValue(TwoPly, [], 0, 2) == Fin(-5);
    assert IntendedRootValue(TwoPly, [], 1, 2) == Fin(1);
  }
}
