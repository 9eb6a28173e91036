/**
 * The search of chess-website/js/ai.js: minimax with alpha-beta pruning
 * over a chess.js game, and getBestMove at the root.
 *
 * chess.js itself is not modelled. What the search uses of it is a record
 * of functions, Rules: the listed moves of a position, the position after
 * a move, game_over(), board() and turn(). The game object the search
 * mutates with move() and undo() is the class Game.
 */
module Search {
  import opened Wrappers
  import opened ExtInts
  import opened Material

  /** The parts of chess.js the search relies on, over positions S and moves M. */
  datatype Rules<!S, !M> = Rules(
    moves: S -> seq<M>,
    apply: (S, M) -> S,
    gameOver: S -> bool,
    board: S -> PieceBoard,
    whiteToMove: S -> bool)

  /** A chess.js game object: a current position and the undo history. */
  class Game<S, M(==)> {
    const rules: Rules<S, M>
    var state: S
    var history: seq<S>

    constructor (rules: Rules<S, M>, start: S)
      ensures this.rules == rules && state == start && history == []
    {
      this.rules := rules;
      state := start;
      history := [];
    }

    /** game.move(m): plays a listed move and records the position it left; any other move is refused. */
    method Move(m: M)
      modifies this
      ensures m in rules.moves(old(state)) ==>
        state == rules.apply(old(state), m) && history == old(history) + [old(state)]
      ensures m !in rules.moves(old(state)) ==> state == old(state) && history == old(history)
    {
      if m in rules.moves(state) {
        history := history + [state];
        state := rules.apply(state, m);
      }
    }

    /** game.undo(): returns to the last recorded position, if there is one. */
    method Undo()
      modifies this
      ensures old(history) != [] ==>
        state == old(history)[|old(history)| - 1] && history == old(history)[..|old(history)| - 1]
      ensures old(history) == [] ==> state == old(state) && history == old(history)
    {
      if history != [] {
        state := history[|history| - 1];
        history := history[..|history| - 1];
      }
    }
  }

  // ---------------------------------------------------------------------
  // Plain minimax: the value alpha-beta must agree with
  // ---------------------------------------------------------------------

  /** evaluateBoard of a position. */
  function Evaluate<S, M>(rules: Rules<S, M>, s: S): ExtInt {
    Fin(Score(rules.board(s)))
  }

  /**
   * The minimax value of s searched depth plies deep, s maximizing when
   * isMax holds; the flag alternates from ply to ply, as in minimax.
   */
  function Value<S, M>(rules: Rules<S, M>, s: S, depth: nat, isMax: bool): ExtInt
    decreases depth, 0, 0
  {
    if depth == 0 || rules.gameOver(s) then Evaluate(rules, s)
    else Children(rules, s, rules.moves(s), depth - 1, isMax)
  }

  /** The best of the values of the positions the moves ms lead to, from -Infinity or Infinity. */
  function Children<S, M>(rules: Rules<S, M>, s: S, ms: seq<M>, d: nat, isMax: bool): ExtInt
    decreases d, 1, |ms|
  {
    if ms == [] then (if isMax then NegInf else PosInf)
    else
      var best := Children(rules, s, ms[..|ms| - 1], d, isMax);
      var v := Value(rules, rules.apply(s, ms[|ms| - 1]), d, !isMax);
      if isMax then Max(best, v) else Min(best, v)
  }

  /** The value of a child of s in the fold. */
  function ChildValue<S, M>(rules: Rules<S, M>, s: S, m: M, d: nat, isMax: bool): ExtInt {
    Value(rules, rules.apply(s, m), d, !isMax)
  }

  /** Children is the optimum over the moves: bounded by every child and attained by one. */
  lemma {:induction false} ChildrenIsOptimum<S, M>(rules: Rules<S, M>, s: S, ms: seq<M>, d: nat, isMax: bool)
    ensures forall k :: 0 <= k < |ms| ==>
      if isMax then Le(ChildValue(rules, s, ms[k], d, isMax), Children(rules, s, ms, d, isMax))
      else Le(Children(rules, s, ms, d, isMax), ChildValue(rules, s, ms[k], d, isMax))
    ensures ms == [] ==> Children(rules, s, ms, d, isMax) == (if isMax then NegInf else PosInf)
    ensures ms != [] ==> exists k :: 0 <= k < |ms| && Children(rules, s, ms, d, isMax) == ChildValue(rules, s, ms[k], d, isMax)
    decreases |ms|
  {
    if ms != [] {
      var n := |ms| - 1;
      ChildrenIsOptimum(rules, s, ms[..n], d, isMax);
      var v := ChildValue(rules, s, ms[n], d, isMax);
      assert Children(rules, s, ms, d, isMax) == if isMax then Max(Children(rules, s, ms[..n], d, isMax), v)
        else Min(Children(rules, s, ms[..n], d, isMax), v);
      forall k | 0 <= k < n ensures ms[..n][k] == ms[k] { }
      if Children(rules, s, ms, d, isMax) != v {
        var k :| 0 <= k < n && Children(rules, s, ms[..n], d, isMax) == ChildValue(rules, s, ms[..n][k], d, isMax);
        assert ms[..n][k] == ms[k];
      }
    }
  }

  /** One more move in the fold. */
  lemma ChildrenStep<S, M>(rules: Rules<S, M>, s: S, ms: seq<M>, i: int, d: nat, isMax: bool)
    requires 0 <= i < |ms|
    ensures Children(rules, s, ms[..i + 1], d, isMax) ==
      if isMax then Max(Children(rules, s, ms[..i], d, isMax), ChildValue(rules, s, ms[i], d, isMax))
      else Min(Children(rules, s, ms[..i], d, isMax), ChildValue(rules, s, ms[i], d, isMax))
  {
    assert ms[..i + 1][..i] == ms[..i];
  }

  /** A prefix of the moves is never better than all of them. */
  lemma {:induction false} ChildrenPrefix<S, M>(rules: Rules<S, M>, s: S, ms: seq<M>, i: int, d: nat, isMax: bool)
    requires 0 <= i <= |ms|
    ensures isMax ==> Le(Children(rules, s, ms[..i], d, isMax), Children(rules, s, ms, d, isMax))
    ensures !isMax ==> Le(Children(rules, s, ms, d, isMax), Children(rules, s, ms[..i], d, isMax))
    decreases |ms|
  {
    if i == |ms| {
      assert ms[..i] == ms;
    } else {
      var n := |ms| - 1;
      ChildrenPrefix(rules, s, ms[..n], i, d, isMax);
      assert ms[..n][..i] == ms[..i];
      LeTotalOrder(Children(rules, s, ms[..i], d, isMax), Children(rules, s, ms[..n], d, isMax),
        Children(rules, s, ms, d, isMax));
      LeTotalOrder(Children(rules, s, ms, d, isMax), Children(rules, s, ms[..n], d, isMax),
        Children(rules, s, ms[..i], d, isMax));
    }
  }

  /** No side is ever left without a move in a live position. */
  ghost predicate NeverStuck<S(!new), M>(rules: Rules<S, M>) {
    forall t :: rules.gameOver(t) || rules.moves(t) != []
  }

  /** When live positions always have moves, every value is a number, never +-Infinity. */
  lemma {:induction false} ValueIsFinite<S(!new), M>(rules: Rules<S, M>, s: S, depth: nat, isMax: bool)
    requires NeverStuck(rules)
    ensures Value(rules, s, depth, isMax).Fin?
    decreases depth, 0, 0
  {
    if depth > 0 && !rules.gameOver(s) {
      assert rules.moves(s) != [];
      ChildrenAreFinite(rules, s, rules.moves(s), depth - 1, isMax);
    }
  }

  lemma {:induction false} ChildrenAreFinite<S(!new), M>(rules: Rules<S, M>, s: S, ms: seq<M>, d: nat, isMax: bool)
    requires NeverStuck(rules) && ms != []
    ensures Children(rules, s, ms, d, isMax).Fin?
    decreases d, 1, |ms|
  {
    var n := |ms| - 1;
    ValueIsFinite(rules, rules.apply(s, ms[n]), d, !isMax);
    if n > 0 {
      ChildrenAreFinite(rules, s, ms[..n], d, isMax);
    }
  }

  // ---------------------------------------------------------------------
  // Alpha-beta
  // ---------------------------------------------------------------------

  /**
   * Fail-soft alpha-beta soundness: a result at or below alpha is an upper
   * bound of the exact value, one strictly inside the window is the exact
   * value, and one at or above beta is a lower bound.
   */
  predicate WindowSound(v: ExtInt, exact: ExtInt, alpha: ExtInt, beta: ExtInt) {
    (Le(v, alpha) ==> Le(exact, v))
    && (Lt(alpha, v) && Lt(v, beta) ==> v == exact)
    && (Le(beta, v) ==> Le(v, exact))
  }

  /** With the window (-Infinity, Infinity) the result is exact. */
  lemma FullWindowExact(v: ExtInt, exact: ExtInt)
    requires WindowSound(v, exact, NegInf, PosInf)
    ensures v == exact
  {
  }

  /** One child of a maximizing node, folded into maxEval and alpha. */
  lemma MaxNodeStep(alpha: ExtInt, beta: ExtInt, m: ExtInt, eval: ExtInt, m2: ExtInt, p: ExtInt, f: ExtInt)
    requires Lt(Max(alpha, m), beta)
    requires Le(p, m) && (Lt(alpha, m) ==> Le(m, p))
    requires WindowSound(eval, f, Max(alpha, m), beta)
    requires m2 == if Lt(m, eval) then eval else m
    ensures Max(Max(alpha, m), eval) == Max(alpha, m2)
    ensures Le(beta, Max(alpha, m2)) ==> Le(beta, m2) && m2 == eval && Le(eval, f)
    ensures Lt(Max(alpha, m2), beta) ==> Le(Max(p, f), m2) && (Lt(alpha, m2) ==> Le(m2, Max(p, f)))
  {
  }

  /** One child of a minimizing node, folded into minEval and beta. */
  lemma MinNodeStep(alpha: ExtInt, beta: ExtInt, m: ExtInt, eval: ExtInt, m2: ExtInt, p: ExtInt, f: ExtInt)
    requires Lt(alpha, Min(beta, m))
    requires Le(m, p) && (Lt(m, beta) ==> Le(p, m))
    requires WindowSound(eval, f, alpha, Min(beta, m))
    requires m2 == if Lt(eval, m) then eval else m
    ensures Min(Min(beta, m), eval) == Min(beta, m2)
    ensures Le(Min(beta, m2), alpha) ==> Le(m2, alpha) && m2 == eval && Le(f, eval)
    ensures Lt(alpha, Min(beta, m2)) ==> Le(m2, Min(p, f)) && (Lt(m2, beta) ==> Le(Min(p, f), m2))
  {
  }

  /**
   * The loop of a maximizing node after child i: maxEval and the raised
   * alpha either keep the loop invariant for i + 1 or, at a cut-off, are
   * already sound for the whole node.
   */
  lemma MaxChildFolded<S, M>(rules: Rules<S, M>, s: S, ms: seq<M>, i: int, d: nat,
                             alpha: ExtInt, beta: ExtInt, m: ExtInt, eval: ExtInt, m2: ExtInt)
    requires 0 <= i < |ms|
    requires Lt(Max(alpha, m), beta)
    requires Le(Children(rules, s, ms[..i], d, true), m)
    requires Lt(alpha, m) ==> Le(m, Children(rules, s, ms[..i], d, true))
    requires WindowSound(eval, ChildValue(rules, s, ms[i], d, true), Max(alpha, m), beta)
    requires m2 == if Lt(m, eval) then eval else m
    ensures Max(Max(alpha, m), eval) == Max(alpha, m2)
    ensures Le(beta, Max(alpha, m2)) ==> WindowSound(m2, Children(rules, s, ms, d, true), alpha, beta)
    ensures Lt(Max(alpha, m2), beta) ==>
      Le(Children(rules, s, ms[..i + 1], d, true), m2)
      && (Lt(alpha, m2) ==> Le(m2, Children(rules, s, ms[..i + 1], d, true)))
  {
    var p, f := Children(rules, s, ms[..i], d, true), ChildValue(rules, s, ms[i], d, true);
    MaxNodeStep(alpha, beta, m, eval, m2, p, f);
    ChildrenStep(rules, s, ms, i, d, true);
    if Le(beta, Max(alpha, m2)) {
      ChildrenPrefix(rules, s, ms, i + 1, d, true);
      LeTotalOrder(eval, Max(p, f), Children(rules, s, ms, d, true));
      LeTotalOrder(alpha, beta, m2);
    }
  }

  /** The mirror image of MaxChildFolded for a minimizing node. */
  lemma MinChildFolded<S, M>(rules: Rules<S, M>, s: S, ms: seq<M>, i: int, d: nat,
                             alpha: ExtInt, beta: ExtInt, m: ExtInt, eval: ExtInt, m2: ExtInt)
    requires 0 <= i < |ms|
    requires Lt(alpha, Min(beta, m))
    requires Le(m, Children(rules, s, ms[..i], d, false))
    requires Lt(m, beta) ==> Le(Children(rules, s, ms[..i], d, false), m)
    requires WindowSound(eval, ChildValue(rules, s, ms[i], d, false), alpha, Min(beta, m))
    requires m2 == if Lt(eval, m) then eval else m
    ensures Min(Min(beta, m), eval) == Min(beta, m2)
    ensures Le(Min(beta, m2), alpha) ==> WindowSound(m2, Children(rules, s, ms, d, false), alpha, beta)
    ensures Lt(alpha, Min(beta, m2)) ==>
      Le(m2, Children(rules, s, ms[..i + 1], d, false))
      && (Lt(m2, beta) ==> Le(Children(rules, s, ms[..i + 1], d, false), m2))
  {
    var p, f := Children(rules, s, ms[..i], d, false), ChildValue(rules, s, ms[i], d, false);
    MinNodeStep(alpha, beta, m, eval, m2, p, f);
    ChildrenStep(rules, s, ms, i, d, false);
    if Le(Min(beta, m2), alpha) {
      ChildrenPrefix(rules, s, ms, i + 1, d, false);
      LeTotalOrder(Children(rules, s, ms, d, false), Min(p, f), eval);
      LeTotalOrder(m2, alpha, beta);
    }
  }

  /** A node whose loop ran through every move without a cut-off is sound. */
  lemma NodeDone<S, M>(rules: Rules<S, M>, s: S, ms: seq<M>, d: nat, isMax: bool,
                       alpha: ExtInt, beta: ExtInt, m: ExtInt)
    requires isMax ==> (Lt(Max(alpha, m), beta) && Le(Children(rules, s, ms[..|ms|], d, true), m)
      && (Lt(alpha, m) ==> Le(m, Children(rules, s, ms[..|ms|], d, true))))
    requires !isMax ==> (Lt(alpha, Min(beta, m)) && Le(m, Children(rules, s, ms[..|ms|], d, false))
      && (Lt(m, beta) ==> Le(Children(rules, s, ms[..|ms|], d, false), m)))
    ensures WindowSound(m, Children(rules, s, ms, d, isMax), alpha, beta)
  {
    assert ms[..|ms|] == ms;
  }

  /**
   * minimax(g, depth, isMaximizingPlayer, alpha, beta). The game is left in
   * the position it was given, and the result is sound for the window
   * against the plain minimax value.
   */
  method Minimax<S, M(==)>(g: Game<S, M>, depth: nat, isMax: bool, alpha: ExtInt, beta: ExtInt)
    returns (v: ExtInt)
    requires Lt(alpha, beta)
    modifies g
    ensures g.state == old(g.state) && g.history == old(g.history)
    ensures WindowSound(v, Value(g.rules, g.state, depth, isMax), alpha, beta)
    ensures depth == 0 || g.rules.gameOver(g.state) ==> v == Evaluate(g.rules, g.state)
    decreases depth, 2
  {
    if depth == 0 || g.rules.gameOver(g.state) {
      var score := EvaluateBoard(g.rules.board(g.state));
      return Fin(score);
    }
    if isMax {
      v := MaximizingNode(g, depth, alpha, beta);
    } else {
      v := MinimizingNode(g, depth, alpha, beta);
    }
  }

  /**
   * One child of a node: g.move(m), the recursive minimax call with the
   * child's flag, g.undo().
   */
  method SearchChild<S, M(==)>(g: Game<S, M>, m: M, d: nat, childIsMax: bool, alpha: ExtInt, beta: ExtInt)
    returns (eval: ExtInt)
    requires m in g.rules.moves(g.state) && Lt(alpha, beta)
    modifies g
    ensures g.state == old(g.state) && g.history == old(g.history)
    ensures WindowSound(eval, ChildValue(g.rules, g.state, m, d, !childIsMax), alpha, beta)
    decreases d + 1, 0
  {
    g.Move(m);
    eval := Minimax(g, d, childIsMax, alpha, beta);
    g.Undo();
  }

  /** The maximizing arm of minimax: maxEval over the moves, raising alpha, cut off once beta <= alpha. */
  method MaximizingNode<S, M(==)>(g: Game<S, M>, depth: nat, alpha: ExtInt, beta: ExtInt)
    returns (maxEval: ExtInt)
    requires depth > 0 && !g.rules.gameOver(g.state)
    requires Lt(alpha, beta)
    modifies g
    ensures g.state == old(g.state) && g.history == old(g.history)
    ensures WindowSound(maxEval, Value(g.rules, g.state, depth, true), alpha, beta)
    decreases depth, 1
  {
    ghost var s, h, rules := g.state, g.history, g.rules;
    var moves := g.rules.moves(g.state);
    assert Value(rules, s, depth, true) == Children(rules, s, moves, depth - 1, true);
    maxEval := NegInf;
    var a := alpha;
    var i := 0;
    while i < |moves|
      invariant 0 <= i <= |moves|
      invariant g.state == s && g.history == h
      invariant a == Max(alpha, maxEval) && Lt(a, beta)
      invariant Le(Children(rules, s, moves[..i], depth - 1, true), maxEval)
      invariant Lt(alpha, maxEval) ==> Le(maxEval, Children(rules, s, moves[..i], depth - 1, true))
    {
      var eval := SearchChild(g, moves[i], depth - 1, false, a, beta);
      ghost var before := maxEval;
      if Lt(maxEval, eval) {
        maxEval := eval;
      }
      MaxChildFolded(rules, s, moves, i, depth - 1, alpha, beta, before, eval, maxEval);
      a := Max(a, eval);
      if Le(beta, a) {
        return;
      }
      i := i + 1;
    }
    NodeDone(rules, s, moves, depth - 1, true, alpha, beta, maxEval);
  }

  /** The minimizing arm of minimax: minEval over the moves, lowering beta, cut off once beta <= alpha. */
  method MinimizingNode<S, M(==)>(g: Game<S, M>, depth: nat, alpha: ExtInt, beta: ExtInt)
    returns (minEval: ExtInt)
    requires depth > 0 && !g.rules.gameOver(g.state)
    requires Lt(alpha, beta)
    modifies g
    ensures g.state == old(g.state) && g.history == old(g.history)
    ensures WindowSound(minEval, Value(g.rules, g.state, depth, false), alpha, beta)
    decreases depth, 1
  {
    ghost var s, h, rules := g.state, g.history, g.rules;
    var moves := g.rules.moves(g.state);
    assert Value(rules, s, depth, false) == Children(rules, s, moves, depth - 1, false);
    minEval := PosInf;
    var b := beta;
    var i := 0;
    while i < |moves|
      invariant 0 <= i <= |moves|
      invariant g.state == s && g.history == h
      invariant b == Min(beta, minEval) && Lt(alpha, b)
      invariant Le(minEval, Children(rules, s, moves[..i], depth - 1, false))
      invariant Lt(minEval, beta) ==> Le(Children(rules, s, moves[..i], depth - 1, false), minEval)
    {
      var eval := SearchChild(g, moves[i], depth - 1, true, alpha, b);
      ghost var before := minEval;
      if Lt(eval, minEval) {
        minEval := eval;
      }
      MinChildFolded(rules, s, moves, i, depth - 1, alpha, beta, before, eval, minEval);
      b := Min(b, eval);
      if Le(b, alpha) {
        return;
      }
      i := i + 1;
    }
    NodeDone(rules, s, moves, depth - 1, false, alpha, beta, minEval);
  }

  // ---------------------------------------------------------------------
  // getBestMove
  // ---------------------------------------------------------------------

  /** One more value in the scan. */
  lemma ScanStep(vals: seq<ExtInt>, i: int, white: bool)
    requires 0 <= i < |vals|
    ensures Scan(vals[..i + 1], white) ==
      if Improves(white, vals[i], Scan(vals[..i], white).1) then (Some(i), vals[i]) else Scan(vals[..i], white)
  {
    assert vals[..i + 1][..i] == vals[..i];
  }

  /** The bound bestValue starts from: -Infinity when White is to move, Infinity otherwise. */
  function Worst(white: bool): ExtInt {
    if white then NegInf else PosInf
  }

  /** val beats bestValue for the side to move (strictly: a tie keeps the earlier move). */
  predicate Improves(white: bool, val: ExtInt, best: ExtInt) {
    if white then Lt(best, val) else Lt(val, best)
  }

  /** The scan of getBestMove's loop over the root values: the index of the move kept, and bestValue. */
  function Scan(vals: seq<ExtInt>, white: bool): (res: (Option<nat>, ExtInt))
    ensures res.0.Some? ==> res.0.value < |vals| && vals[res.0.value] == res.1
    ensures res.0.None? ==> res.1 == Worst(white)
    decreases |vals|
  {
    if vals == [] then (None, Worst(white))
    else
      var (i, best) := Scan(vals[..|vals| - 1], white);
      if Improves(white, vals[|vals| - 1], best) then (Some(|vals| - 1), vals[|vals| - 1]) else (i, best)
  }

  /** v is at least as good as w for the side to move. */
  predicate AtLeastAsGood(white: bool, v: ExtInt, w: ExtInt) {
    if white then Le(w, v) else Le(v, w)
  }

  /**
   * The scan keeps the first value that no other value beats; it keeps
   * nothing exactly when every value is the starting bound.
   */
  lemma {:induction false} ScanFindsFirstBest(vals: seq<ExtInt>, white: bool)
    ensures Scan(vals, white).0.Some? ==>
      var k := Scan(vals, white).0.value;
      (forall j :: 0 <= j < |vals| ==> AtLeastAsGood(white, vals[k], vals[j]))
      && (forall j :: 0 <= j < k ==> Improves(white, vals[k], vals[j]))
    ensures Scan(vals, white).0.None? <==> forall j :: 0 <= j < |vals| ==> vals[j] == Worst(white)
    decreases |vals|
  {
    if vals != [] {
      var n := |vals| - 1;
      var pre := vals[..n];
      ScanFindsFirstBest(pre, white);
      assert forall j :: 0 <= j < n ==> pre[j] == vals[j];
      var best := Scan(pre, white).1;
      LeTotalOrder(best, vals[n], best);
      forall j | 0 <= j < n ensures AtLeastAsGood(white, best, vals[j]) {
        if Scan(pre, white).0.None? {
          assert vals[j] == Worst(white);
        }
      }
      if Scan(pre, white).0.Some? {
        var k := Scan(pre, white).0.value;
        forall j | 0 <= j < |vals| ensures AtLeastAsGood(white, vals[n], vals[j]) || !Improves(white, vals[n], best) {
          if j < n {
            LeTotalOrder(best, vals[n], vals[j]);
            LeTotalOrder(vals[n], best, vals[j]);
            LeTotalOrder(vals[j], best, vals[n]);
            LeTotalOrder(vals[n], vals[j], best);
          }
        }
        forall j | 0 <= j < |vals| ensures !Improves(white, vals[n], best) ==> AtLeastAsGood(white, vals[k], vals[j]) {
          LeTotalOrder(vals[k], vals[n], vals[j]);
          LeTotalOrder(vals[j], vals[n], vals[k]);
        }
      }
    }
  }

  /** What getBestMove scores a move with: as written, the child searched with isMaximizingPlayer = turn() !== 'w'. */
  function RootValue<S, M>(rules: Rules<S, M>, s: S, m: M, depth: nat): ExtInt
    requires depth >= 1
  {
    var child := rules.apply(s, m);
    Value(rules, child, depth - 1, !rules.whiteToMove(child))
  }

  function RootValues<S, M>(rules: Rules<S, M>, s: S, ms: seq<M>, depth: nat): (vals: seq<ExtInt>)
    requires depth >= 1
    ensures |vals| == |ms| && forall i :: 0 <= i < |ms| ==> vals[i] == RootValue(rules, s, ms[i], depth)
  {
    seq(|ms|, i requires 0 <= i < |ms| => RootValue(rules, s, ms[i], depth))
  }

  /** The move getBestMove returns for position s, or None for null. */
  function ChosenMove<S, M>(rules: Rules<S, M>, s: S, depth: nat): Option<M>
    requires depth >= 1
  {
    var ms := rules.moves(s);
    var (k, _) := Scan(RootValues(rules, s, ms, depth), rules.whiteToMove(s));
    if k.None? then None else Some(ms[k.value])
  }

  /**
   * getBestMove returns a listed move that no other listed move beats on
   * its score, the first such in the list; it returns null exactly when
   * every move scores the starting bound (in particular, when there are
   * no moves).
   */
  lemma ChosenMoveIsBest<S, M>(rules: Rules<S, M>, s: S, depth: nat)
    requires depth >= 1
    ensures ChosenMove(rules, s, depth).Some? ==>
      var ms := rules.moves(s);
      exists k :: 0 <= k < |ms| && ChosenMove(rules, s, depth).value == ms[k]
        && (forall j :: 0 <= j < |ms| ==>
              AtLeastAsGood(rules.whiteToMove(s), RootValue(rules, s, ms[k], depth), RootValue(rules, s, ms[j], depth)))
        && (forall j :: 0 <= j < k ==>
              Improves(rules.whiteToMove(s), RootValue(rules, s, ms[k], depth), RootValue(rules, s, ms[j], depth)))
    ensures ChosenMove(rules, s, depth).None? <==>
      forall j :: 0 <= j < |rules.moves(s)| ==> RootValue(rules, s, rules.moves(s)[j], depth) == Worst(rules.whiteToMove(s))
  {
    var ms := rules.moves(s);
    var vals := RootValues(rules, s, ms, depth);
    ScanFindsFirstBest(vals, rules.whiteToMove(s));
  }

  /** When live positions always have moves, getBestMove returns null exactly when there is no move. */
  lemma ChosenMoveWhenNeverStuck<S(!new), M>(rules: Rules<S, M>, s: S, depth: nat)
    requires depth >= 1 && NeverStuck(rules)
    ensures ChosenMove(rules, s, depth).None? <==> rules.moves(s) == []
  {
    ChosenMoveIsBest(rules, s, depth);
    var ms := rules.moves(s);
    if ms != [] {
      ValueIsFinite(rules, rules.apply(s, ms[0]), depth - 1, !rules.whiteToMove(rules.apply(s, ms[0])));
      assert RootValue(rules, s, ms[0], depth) != Worst(rules.whiteToMove(s));
    }
  }

  /**
   * The body of getBestMove's loop up to the comparison: play m, search
   * the reply with the full window and the flag as written, undo.
   */
  method ScoreRootMove<S, M(==)>(g: Game<S, M>, m: M, depth: nat) returns (val: ExtInt)
    requires depth >= 1 && m in g.rules.moves(g.state)
    modifies g
    ensures g.state == old(g.state) && g.history == old(g.history)
    ensures val == RootValue(g.rules, g.state, m, depth)
  {
    g.Move(m);
    val := Minimax(g, depth - 1, if g.rules.whiteToMove(g.state) then false else true, NegInf, PosInf);
    g.Undo();
    FullWindowExact(val, RootValue(g.rules, g.state, m, depth));
  }

  /**
   * getBestMove(game, depth): every listed move is played, searched with
   * the full window and undone; the game ends where it started and the
   * move returned is ChosenMove.
   */
  method GetBestMove<S, M(==)>(g: Game<S, M>, depth: nat) returns (best: Option<M>)
    requires depth >= 1
    modifies g
    ensures g.state == old(g.state) && g.history == old(g.history)
    ensures best == ChosenMove(g.rules, g.state, depth)
  {
    ghost var s, h, rules := g.state, g.history, g.rules;
    ghost var white := rules.whiteToMove(s);
    var moves := g.rules.moves(g.state);
    ghost var vals := RootValues(rules, s, moves, depth);
    best := None;
    var bestValue := if g.rules.whiteToMove(g.state) then NegInf else PosInf;
    ghost var kept: Option<nat> := None;
    for i := 0 to |moves|
      invariant g.state == s && g.history == h
      invariant kept == Scan(vals[..i], white).0 && bestValue == Scan(vals[..i], white).1
      invariant best == if kept.None? then None else Some(moves[kept.value])
    {
      ScanStep(vals, i, white);
      var val := ScoreRootMove(g, moves[i], depth);
      if g.rules.whiteToMove(g.state) {
        if Lt(bestValue, val) {
          bestValue := val;
          best := Some(moves[i]);
          kept := Some(i);
        }
      } else {
        if Lt(val, bestValue) {
          bestValue := val;
          best := Some(moves[i]);
          kept := Some(i);
        }
      }
    }
    assert vals[..|moves|] == vals;
  }
}
