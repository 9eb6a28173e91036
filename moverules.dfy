/**
 * What the movement rules of getLegalMoves (chess-website/script.js)
 * promise, proved about the specification in MoveGen.
 */
module MoveRules {
  import opened Board
  import opened MoveGen

  // ---------------------------------------------------------------------
  // Sliding pieces
  // ---------------------------------------------------------------------

  /**
   * ray is the ray from (r, c) in direction d: consecutive squares starting
   * at (r, c), every one enterable, every one but the last empty, and it
   * stops either at an occupied (so opposing) square or just before a square
   * that cannot be entered.
   */
  ghost predicate IsRay(g: Grid, r: int, c: int, d: (int, int), white: bool, ray: seq<Square>)
    requires Shaped(g)
  {
    && (|ray| > 0 ==> ray[0] == Square(r, c))
    && (forall i :: 0 <= i < |ray| - 1 ==> ray[i + 1] == Square(ray[i].r + d.0, ray[i].c + d.1))
    && (forall i :: 0 <= i < |ray| ==> Enterable(g, white, ray[i].r, ray[i].c))
    && (forall i :: 0 <= i < |ray| - 1 ==> g[ray[i].r][ray[i].c] == Empty)
    && (|ray| == 0 ==> !Enterable(g, white, r, c))
    && (|ray| > 0 ==>
          var last := ray[|ray| - 1];
          g[last.r][last.c] != Empty || !Enterable(g, white, last.r + d.0, last.c + d.1))
  }

  /** An empty square in front of a ray extends it by one. */
  lemma RayCons(g: Grid, r: int, c: int, d: (int, int), white: bool, rest: seq<Square>)
    requires Shaped(g) && IsDirection(d) && InBounds(r, c) && g[r][c] == Empty
    requires IsRay(g, r + d.0, c + d.1, d, white, rest)
    ensures IsRay(g, r, c, d, white, [Square(r, c)] + rest)
  {
    var ray := [Square(r, c)] + rest;
    forall i | 0 <= i < |ray| - 1 ensures ray[i + 1] == Square(ray[i].r + d.0, ray[i].c + d.1) {
      if i > 0 { assert ray[i + 1] == rest[i] && ray[i] == rest[i - 1]; }
    }
    forall i | 0 <= i < |ray| ensures Enterable(g, white, ray[i].r, ray[i].c) {
      if i > 0 { assert ray[i] == rest[i - 1]; }
    }
    forall i | 0 <= i < |ray| - 1 ensures g[ray[i].r][ray[i].c] == Empty {
      if i > 0 { assert ray[i] == rest[i - 1]; }
    }
    if |rest| > 0 {
      assert ray[|ray| - 1] == rest[|rest| - 1];
    }
  }

  /** Ray includes every empty square up to the first occupied one, that one only if opposing, nothing beyond. */
  lemma {:induction false} RayShape(g: Grid, r: int, c: int, d: (int, int), white: bool)
    requires Shaped(g) && IsDirection(d)
    ensures IsRay(g, r, c, d, white, Ray(g, r, c, d, white))
    decreases RayBudget(r, c, d)
  {
    if !InBounds(r, c) {
      assert Ray(g, r, c, d, white) == [];
    } else if g[r][c] == Empty {
      var rest := Ray(g, r + d.0, c + d.1, d, white);
      assert Ray(g, r, c, d, white) == [Square(r, c)] + rest;
      RayShape(g, r + d.0, c + d.1, d, white);
      RayCons(g, r, c, d, white, rest);
    } else {
      assert Ray(g, r, c, d, white) == if Opposes(white, g[r][c]) then [Square(r, c)] else [];
    }
  }

  /** Past an empty first square, the rest of a ray is the ray from the next square. */
  lemma RayTail(g: Grid, r: int, c: int, d: (int, int), white: bool, a: seq<Square>)
    requires Shaped(g) && IsDirection(d) && InBounds(r, c) && g[r][c] == Empty
    requires IsRay(g, r, c, d, white, a) && a != []
    ensures IsRay(g, r + d.0, c + d.1, d, white, a[1..])
  {
    var t := a[1..];
    assert forall i :: 0 <= i < |t| ==> t[i] == a[i + 1];
    if |t| == 0 {
      assert a[|a| - 1] == Square(r, c);
    } else {
      assert t[|t| - 1] == a[|a| - 1];
      assert t[0] == a[1];
    }
  }

  /** A ray is empty exactly when its first square cannot be entered. */
  lemma RayEmptyExactly(g: Grid, r: int, c: int, d: (int, int), white: bool, a: seq<Square>)
    requires Shaped(g) && IsRay(g, r, c, d, white, a)
    ensures a == [] <==> !Enterable(g, white, r, c)
    ensures a != [] ==> a[0] == Square(r, c)
  {
    if a != [] {
      assert a[0] == Square(r, c) && Enterable(g, white, a[0].r, a[0].c);
    }
  }

  /** A nonempty ray whose first square is occupied is that square alone. */
  lemma RayBlockedAtStart(g: Grid, r: int, c: int, d: (int, int), white: bool, a: seq<Square>)
    requires Shaped(g) && IsDirection(d) && InBounds(r, c) && g[r][c] != Empty
    requires IsRay(g, r, c, d, white, a) && a != []
    ensures a == [Square(r, c)]
  {
    assert a[0] == Square(r, c);
  }

  /** The description of a ray determines it: Ray is the only sequence that fits. */
  lemma {:induction false} RayDetermined(g: Grid, r: int, c: int, d: (int, int), white: bool, a: seq<Square>)
    requires Shaped(g) && IsDirection(d)
    requires IsRay(g, r, c, d, white, a)
    ensures a == Ray(g, r, c, d, white)
    decreases RayBudget(r, c, d)
  {
    RayEmptyExactly(g, r, c, d, white, a);
    if !Enterable(g, white, r, c) {
      assert Ray(g, r, c, d, white) == [];
    } else if g[r][c] != Empty {
      RayBlockedAtStart(g, r, c, d, white, a);
      assert Ray(g, r, c, d, white) == [Square(r, c)];
    } else {
      RayTail(g, r, c, d, white, a);
      RayDetermined(g, r + d.0, c + d.1, d, white, a[1..]);
      RayConsEquals(g, r, c, d, white, a);
    }
  }

  /** A sequence headed by an empty square and followed by the next square's ray is the ray. */
  lemma RayConsEquals(g: Grid, r: int, c: int, d: (int, int), white: bool, a: seq<Square>)
    requires Shaped(g) && IsDirection(d) && InBounds(r, c) && g[r][c] == Empty
    requires a != [] && a[0] == Square(r, c) && a[1..] == Ray(g, r + d.0, c + d.1, d, white)
    ensures a == Ray(g, r, c, d, white)
  {
    assert a == [a[0]] + a[1..];
  }

  /** Two sequences that both fit the description of the same ray are equal. */
  lemma RayUnique(g: Grid, r: int, c: int, d: (int, int), white: bool, a: seq<Square>, b: seq<Square>)
    requires Shaped(g) && IsDirection(d)
    requires IsRay(g, r, c, d, white, a) && IsRay(g, r, c, d, white, b)
    ensures a == b
  {
    RayDetermined(g, r, c, d, white, a);
    RayDetermined(g, r, c, d, white, b);
  }

  /** s lies on the ray from (r, c) along one of the directions. */
  ghost predicate OnSomeRay(g: Grid, r: int, c: int, white: bool, dirs: seq<(int, int)>, s: Square)
    requires Shaped(g) && AllDirections(dirs)
  {
    exists k :: 0 <= k < |dirs| && s in Ray(g, r + dirs[k].0, c + dirs[k].1, dirs[k], white)
  }

  /** A square on a ray of the directions is on a ray of all but the last, or on the last one's. */
  lemma OnSomeRaySplit(g: Grid, r: int, c: int, white: bool, dirs: seq<(int, int)>, s: Square)
    requires Shaped(g) && AllDirections(dirs) && dirs != []
    requires OnSomeRay(g, r, c, white, dirs, s)
    ensures var n := |dirs| - 1;
      OnSomeRay(g, r, c, white, dirs[..n], s) || s in Ray(g, r + dirs[n].0, c + dirs[n].1, dirs[n], white)
  {
    var n := |dirs| - 1;
    var pre := dirs[..n];
    var k :| 0 <= k < |dirs| && s in Ray(g, r + dirs[k].0, c + dirs[k].1, dirs[k], white);
    if k < n {
      assert pre[k] == dirs[k];
      assert s in Ray(g, r + pre[k].0, c + pre[k].1, pre[k], white);
      assert OnSomeRay(g, r, c, white, pre, s);
    } else {
      assert k == n;
    }
  }

  /** A square on a ray of a prefix of the directions is on a ray of them all. */
  lemma OnSomeRayPrefix(g: Grid, r: int, c: int, white: bool, dirs: seq<(int, int)>, n: int, s: Square)
    requires Shaped(g) && AllDirections(dirs) && 0 <= n <= |dirs|
    requires OnSomeRay(g, r, c, white, dirs[..n], s)
    ensures OnSomeRay(g, r, c, white, dirs, s)
  {
    var pre := dirs[..n];
    var k :| 0 <= k < |pre| && s in Ray(g, r + pre[k].0, c + pre[k].1, pre[k], white);
    assert pre[k] == dirs[k];
  }

  /** A sliding piece's destinations are exactly the squares of its rays. */
  lemma {:induction false} SlideMovesMembership(g: Grid, r: int, c: int, white: bool, dirs: seq<(int, int)>)
    requires Shaped(g) && AllDirections(dirs)
    ensures forall s :: s in SlideMoves(g, r, c, white, dirs) <==> OnSomeRay(g, r, c, white, dirs, s)
    decreases |dirs|
  {
    if dirs != [] {
      var n := |dirs| - 1;
      var pre, d := dirs[..n], dirs[n];
      var last := Ray(g, r + d.0, c + d.1, d, white);
      assert SlideMoves(g, r, c, white, dirs) == SlideMoves(g, r, c, white, pre) + last;
      SlideMovesMembership(g, r, c, white, pre);
      forall s ensures s in SlideMoves(g, r, c, white, dirs) <==> OnSomeRay(g, r, c, white, dirs, s) {
        if OnSomeRay(g, r, c, white, dirs, s) {
          OnSomeRaySplit(g, r, c, white, dirs, s);
        }
        if OnSomeRay(g, r, c, white, pre, s) {
          OnSomeRayPrefix(g, r, c, white, dirs, n, s);
        }
        if s in last {
          assert OnSomeRay(g, r, c, white, dirs, s) by {
            assert s in Ray(g, r + dirs[n].0, c + dirs[n].1, dirs[n], white);
          }
        }
      }
    }
  }

  /** Every destination of a sliding piece is enterable. */
  lemma SlideMovesEnterable(g: Grid, r: int, c: int, white: bool, dirs: seq<(int, int)>)
    requires Shaped(g) && AllDirections(dirs)
    ensures forall s :: s in SlideMoves(g, r, c, white, dirs) ==> Enterable(g, white, s.r, s.c)
  {
    SlideMovesMembership(g, r, c, white, dirs);
    forall s | OnSomeRay(g, r, c, white, dirs, s) ensures Enterable(g, white, s.r, s.c) {
      var k :| 0 <= k < |dirs| && s in Ray(g, r + dirs[k].0, c + dirs[k].1, dirs[k], white);
      RayShape(g, r + dirs[k].0, c + dirs[k].1, dirs[k], white);
    }
  }

  // ---------------------------------------------------------------------
  // Knight and king
  // ---------------------------------------------------------------------

  /** s is reached from (r, c) by one of the offsets and may be entered. */
  ghost predicate StepTarget(g: Grid, r: int, c: int, white: bool, offs: seq<(int, int)>, s: Square)
    requires Shaped(g)
  {
    exists k :: 0 <= k < |offs| && s == Square(r + offs[k].0, c + offs[k].1) && Enterable(g, white, s.r, s.c)
  }

  /** The stepping moves are exactly the enterable squares at the offsets, at most one per offset. */
  lemma {:induction false} StepMovesExactly(g: Grid, r: int, c: int, white: bool, offs: seq<(int, int)>)
    requires Shaped(g)
    ensures |StepMoves(g, r, c, white, offs)| <= |offs|
    ensures forall s :: s in StepMoves(g, r, c, white, offs) <==> StepTarget(g, r, c, white, offs, s)
    decreases |offs|
  {
    if offs != [] {
      var n := |offs| - 1;
      var pre := offs[..n];
      StepMovesExactly(g, r, c, white, pre);
      var last := Square(r + offs[n].0, c + offs[n].1);
      var rest := StepMoves(g, r, c, white, pre);
      assert StepMoves(g, r, c, white, offs) == if Enterable(g, white, last.r, last.c) then rest + [last] else rest;
      forall s
        ensures StepTarget(g, r, c, white, offs, s) <==>
          StepTarget(g, r, c, white, pre, s) || (s == last && Enterable(g, white, s.r, s.c))
      {
        StepTargetSnoc(g, r, c, white, offs, s);
      }
    }
  }

  /** A target of the offsets is a target of all but the last one, or the last one's square. */
  lemma StepTargetSnoc(g: Grid, r: int, c: int, white: bool, offs: seq<(int, int)>, s: Square)
    requires Shaped(g) && offs != []
    ensures var n := |offs| - 1;
      StepTarget(g, r, c, white, offs, s) <==>
        StepTarget(g, r, c, white, offs[..n], s)
        || (s == Square(r + offs[n].0, c + offs[n].1) && Enterable(g, white, s.r, s.c))
  {
    var n := |offs| - 1;
    var pre := offs[..n];
    if StepTarget(g, r, c, white, offs, s) {
      var k :| 0 <= k < |offs| && s == Square(r + offs[k].0, c + offs[k].1) && Enterable(g, white, s.r, s.c);
      if k < n {
        assert pre[k] == offs[k];
      }
    }
    if StepTarget(g, r, c, white, pre, s) {
      var k :| 0 <= k < |pre| && s == Square(r + pre[k].0, c + pre[k].1) && Enterable(g, white, s.r, s.c);
      assert pre[k] == offs[k];
    }
  }

  /** Knight and king destinations are the enterable squares at the fixed offsets: at most 8 of them. */
  lemma KnightAndKingMoves(g: Grid, r: int, c: int, piece: Cell)
    requires Shaped(g) && InBounds(r, c)
    requires HasKind(piece, 'n') || HasKind(piece, 'k')
    ensures var offs := if HasKind(piece, 'n') then KnightOffsets else KingOffsets;
      var moves := PseudoLegalMoves(g, r, c, piece);
      && |moves| <= 8
      && forall s :: s in moves <==> StepTarget(g, r, c, IsWhite(piece), offs, s)
  {
    var offs := if HasKind(piece, 'n') then KnightOffsets else KingOffsets;
    StepMovesExactly(g, r, c, IsWhite(piece), offs);
  }

  // ---------------------------------------------------------------------
  // Pawns
  // ---------------------------------------------------------------------

  /** The squares a pawn may go to, stated rule by rule. */
  ghost predicate PawnTarget(g: Grid, r: int, c: int, white: bool, s: Square)
    requires Shaped(g) && InBounds(r, c)
  {
    var dir := PawnDir(white);
    || (s == Square(r + dir, c) && InBounds(s.r, s.c) && g[s.r][s.c] == Empty)
    || (r == StartRow(white) && s == Square(r + 2 * dir, c) && g[r + dir][c] == Empty && g[s.r][s.c] == Empty)
    || (s.r == r + dir && (s.c == c - 1 || s.c == c + 1) && InBounds(s.r, s.c)
        && g[s.r][s.c] != Empty && Opposes(white, g[s.r][s.c]))
  }

  /** Whether a pawn of the given colour on (r, c) may capture diagonally towards column c + dc. */
  predicate CanCapture(g: Grid, r: int, c: int, white: bool, dc: int)
    requires Shaped(g)
  {
    var nr, nc := r + PawnDir(white), c + dc;
    InBounds(nr, nc) && g[nr][nc] != Empty && Opposes(white, g[nr][nc])
  }

  /** The two diagonal probes of a pawn, left then right. */
  lemma PawnCaptures(g: Grid, r: int, c: int, white: bool)
    requires Shaped(g)
    ensures var dir := PawnDir(white);
      CaptureMoves(g, r, c, white, [(dir, -1), (dir, 1)]) ==
        (if CanCapture(g, r, c, white, -1) then [Square(r + dir, c - 1)] else []) +
        (if CanCapture(g, r, c, white, 1) then [Square(r + dir, c + 1)] else [])
  {
    var dir := PawnDir(white);
    var offs := [(dir, -1), (dir, 1)];
    var left := [(dir, -1)];
    assert offs[..1] == left;
    assert |left[..0]| == 0;
    assert CaptureMoves(g, r, c, white, left) ==
      (if CanCapture(g, r, c, white, -1) then [Square(r + dir, c - 1)] else []);
  }

  /** A pawn's destinations are exactly the squares its three rules allow. */
  lemma PawnMovesExactly(g: Grid, r: int, c: int, piece: Cell)
    requires Shaped(g) && InBounds(r, c) && HasKind(piece, 'p')
    ensures forall s :: s in PseudoLegalMoves(g, r, c, piece) <==> PawnTarget(g, r, c, IsWhite(piece), s)
  {
    var white := IsWhite(piece);
    var dir := PawnDir(white);
    PawnCaptures(g, r, c, white);
    var single := if InBounds(r + dir, c) && g[r + dir][c] == Empty then [Square(r + dir, c)] else [];
    var double :=
      if r == StartRow(white) && g[r + dir][c] == Empty && g[r + 2 * dir][c] == Empty
      then [Square(r + 2 * dir, c)] else [];
    var left := if CanCapture(g, r, c, white, -1) then [Square(r + dir, c - 1)] else [];
    var right := if CanCapture(g, r, c, white, 1) then [Square(r + dir, c + 1)] else [];
    assert PseudoLegalMoves(g, r, c, piece) == single + double + (left + right);
    forall s ensures s in single + double + (left + right) <==> PawnTarget(g, r, c, white, s) {
      assert s in single + double + (left + right) <==> s in single || s in double || s in left || s in right;
    }
  }

  /**
   * The pawn rules one by one: a single push onto an empty square, a double
   * push only from the start row over two empty squares, a diagonal step
   * only onto an opposing piece, and nothing else.
   */
  lemma PawnRules(g: Grid, r: int, c: int, piece: Cell)
    requires Shaped(g) && InBounds(r, c) && HasKind(piece, 'p')
    ensures var white := IsWhite(piece);
      var dir := PawnDir(white);
      var moves := PseudoLegalMoves(g, r, c, piece);
      && (Square(r + dir, c) in moves <==> InBounds(r + dir, c) && g[r + dir][c] == Empty)
      && (Square(r + 2 * dir, c) in moves <==>
            r == StartRow(white) && g[r + dir][c] == Empty && g[r + 2 * dir][c] == Empty)
      && (Square(r + dir, c - 1) in moves <==> CanCapture(g, r, c, white, -1))
      && (Square(r + dir, c + 1) in moves <==> CanCapture(g, r, c, white, 1))
      && (forall s :: s in moves ==> s.r == r + dir || s.r == r + 2 * dir)
      && (forall s :: s in moves ==>
            s in [Square(r + dir, c), Square(r + 2 * dir, c), Square(r + dir, c - 1), Square(r + dir, c + 1)])
      && |moves| <= 4
  {
    PawnCaptures(g, r, c, IsWhite(piece));
    PawnMovesExactly(g, r, c, piece);
  }

  // ---------------------------------------------------------------------
  // All pieces
  // ---------------------------------------------------------------------

  /** Every destination is on the board and is empty or holds an opposing piece. */
  lemma MovesLandOnEmptyOrOpposing(g: Grid, r: int, c: int, piece: Cell)
    requires Shaped(g) && InBounds(r, c)
    ensures forall s :: s in PseudoLegalMoves(g, r, c, piece) ==> Enterable(g, IsWhite(piece), s.r, s.c)
  {
    var white := IsWhite(piece);
    if HasKind(piece, 'p') {
      PawnMovesExactly(g, r, c, piece);
    } else if HasKind(piece, 'n') {
      StepMovesExactly(g, r, c, white, KnightOffsets);
    } else if HasKind(piece, 'k') {
      StepMovesExactly(g, r, c, white, KingOffsets);
    } else {
      SlideMovesEnterable(g, r, c, white, SlideDirs(piece));
    }
  }

  /** On a board of piece letters no destination holds a piece of the mover's own colour. */
  lemma NeverOwnColour(g: Grid, r: int, c: int, piece: Cell)
    requires Shaped(g) && WellFormed(g) && InBounds(r, c)
    ensures forall s :: s in PseudoLegalMoves(g, r, c, piece) ==>
      InBounds(s.r, s.c) && !Own(IsWhite(piece), g[s.r][s.c])
  {
    MovesLandOnEmptyOrOpposing(g, r, c, piece);
    forall s | s in PseudoLegalMoves(g, r, c, piece)
      ensures InBounds(s.r, s.c) && !Own(IsWhite(piece), g[s.r][s.c])
    {
      ColoursExclusive(g[s.r][s.c]);
    }
  }

  /** "" and any character other than p, n, k, r, b, q (either case) give no moves. */
  lemma NoMovesForOtherCharacters(g: Grid, r: int, c: int, piece: Cell)
    requires Shaped(g) && InBounds(r, c)
    requires piece.Occupied? ==> ToLower(piece.ch) !in "pnkrbq"
    ensures PseudoLegalMoves(g, r, c, piece) == []
  {
  }

  /** In the initial position each pawn has exactly its single and double push. */
  lemma InitialPawnMoves()
    ensures forall c :: 0 <= c < 8 ==>
      PseudoLegalMoves(InitialBoard, 6, c, InitialBoard[6][c]) == [Square(5, c), Square(4, c)]
    ensures forall c :: 0 <= c < 8 ==>
      PseudoLegalMoves(InitialBoard, 1, c, InitialBoard[1][c]) == [Square(2, c), Square(3, c)]
  {
    forall c | 0 <= c < 8
      ensures PseudoLegalMoves(InitialBoard, 6, c, InitialBoard[6][c]) == [Square(5, c), Square(4, c)]
      ensures PseudoLegalMoves(InitialBoard, 1, c, InitialBoard[1][c]) == [Square(2, c), Square(3, c)]
    {
      InitialPawnMovesAt(c, true);
      InitialPawnMovesAt(c, false);
    }
  }

  /** One pawn of the starting position: two pushes and no capture. */
  lemma InitialPawnMovesAt(c: int, white: bool)
    requires 0 <= c < 8
    ensures var r := StartRow(white);
      var dir := PawnDir(white);
      PseudoLegalMoves(InitialBoard, r, c, InitialBoard[r][c]) == [Square(r + dir, c), Square(r + 2 * dir, c)]
  {
    var g := InitialBoard;
    var r, dir := StartRow(white), PawnDir(white);
    assert g[r][c] == if white then Occupied('P') else Occupied('p');
    assert g[r + dir] == EmptyRank && g[r + 2 * dir] == EmptyRank;
    PawnCaptures(g, r, c, white);
  }
}
