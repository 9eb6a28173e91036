# Chess website: move generator, evaluator and alpha-beta search in Dafny

This project models the two algorithmic parts of a browser chess game.

**The board and its move generator** (`chess-website/script.js`):
- The board is an 8×8 grid of one-character strings. Upper case is White, lower case is Black, and `""` is an empty square.
- The live board is an `array2<Cell>`. Its contents as a value are `Board.Snapshot(board)`, a `seq<seq<Cell>>`.
- The model covers `inBounds`, `isWhite`, `isBlack`, `initialBoard`, `resetGame`'s copy of it, and `movePiece`, which updates the board in place.
- `MoveGen.GetLegalMoves` follows `getLegalMoves` branch by branch and loop by loop:
  - a pawn's single push, double push and diagonal captures;
  - a knight's or king's fixed offsets;
  - the rays of a rook, bishop or queen, walked by a `while` loop.
- Each method is proved equal to a specification function on the board's contents (`MoveGen.PseudoLegalMoves` and its parts).
- `MoveRules` proves what those functions mean. Each rule is restated independently: a predicate on squares for pawns and steps, and a description of a ray for sliders. Each restatement is proved equivalent to the generator.
- `Enumeration` models the first part of `computerMove`: the nested `forEach` loops that collect every Black (from, to) pair. It proves that the list holds exactly the moves getLegalMoves allows Black, in row-major order.

**The computer player** (`chess-website/js/ai.js`):
- `Material.EvaluateBoard` is the material count with values p=1, n=3, b=3, r=5, q=9, k=0, positive for White.
- The chess.js game object is abstracted as `Search.Rules`, a record of functions: listed moves, successor position, `game_over()`, `board()` and `turn()`.
- The mutable game object is the class `Search.Game`. Its `Move` and `Undo` push onto and pop from a history of positions.
- `Search.Minimax` is the alpha-beta search, written with `move`/`undo` on the game as in the source. It is proved:
  - to leave the game where it found it;
  - to be fail-soft window-sound against the plain minimax function `Search.Value`, so with the window (-Infinity, Infinity) it returns exactly the minimax value.
- `Search.GetBestMove` is proved to return `Search.ChosenMove`: the first move whose root score no other move beats, with strict comparisons, as written.
- `FlagCounterexample` proves a consequence of the flag `getBestMove` passes to `minimax` in a two-ply game, and the corrected choice's optimality.

Scores are JavaScript numbers in the source. Here they are an extended integer type, `ExtInts.ExtInt` = `NegInf | Fin(int) | PosInf`, because every score is an integer or ±Infinity.

Behaviour of the code worth noting:
- `getLegalMoves` does no check or king-safety filtering, so its moves are pseudo-legal.
- A search node with no moves returns maxEval = -Infinity or minEval = Infinity.
- The evaluation is always from White's side.
- The search plays and undoes moves on the one game object.

## Model

| member | source | states |
|---|---|---|
| Board.IsWhite | chess-website/script.js:39 | `isWhite(p)`: p is not "" and upper-casing leaves it unchanged, i.e. its character is not a lower-case letter |
| Board.IsBlack | chess-website/script.js:40 | `isBlack(p)`: p is not "" and lower-casing leaves it unchanged, i.e. its character is not an upper-case letter |
| Board.InBounds | chess-website/script.js:41 | `inBounds(r, c)`: 0 ≤ r < 8 and 0 ≤ c < 8 |
| Board.HasKind | chess-website/script.js:133 | `piece.toLowerCase() === k`: for a lower-case letter k, the piece is k in either case (also lines 150, 160, 171-173) |
| Board.InitialBoard | chess-website/script.js:12-21 | `initialBoard` rank by rank: Black's back rank and pawns on rows 0–1, four empty rows, White's pawns and back rank on rows 6–7 |
| Board.ColoursExclusive | chess-website/script.js:39-40 | for "" or a piece letter, `isWhite` or `isBlack` holds exactly when the square is occupied, and never both |
| Board.InBoundsMeansOnBoard | chess-website/script.js:41 | `inBounds(r, c)` holds exactly when `board[r][c]` is a square of the 8×8 grid |
| Board.InitialBoardLayout | chess-website/script.js:12-21 | the initial layout is well formed; White exactly on rows 6–7, Black exactly on rows 0–1, rows 2–5 empty |
| Board.Moved | chess-website/script.js:91-94 | after a move the source is empty, the target holds the source's old occupant (a piece there is overwritten, i.e. captured), every other square is unchanged |
| Board.MovedWellFormed | chess-website/script.js:91-94 | a board holding only "" and piece letters still does after a move |
| Board.MovePiece | chess-website/script.js:91-94 | the live board afterwards is `Moved` of the board before: source emptied, target overwritten, nothing else touched |
| Board.NewBoard | chess-website/script.js:30-31 | `resetGame`'s board is a fresh 8×8 array holding exactly `initialBoard` |
| MoveGen.SlideDirs | chess-website/script.js:170-173 | the slide directions of a rook, bishop or queen (and the empty list for anything else) are all unit directions |
| MoveGen.GetPawnMoves | chess-website/script.js:132-147 | the pawn branch returns the single push, the double push and the captures, in that order, as `PawnMoves` of the board |
| MoveGen.GetCaptureMoves | chess-website/script.js:140-145 | the diagonal probes push exactly the in-bounds, occupied, opposing squares, offsets in order |
| MoveGen.GetStepMoves | chess-website/script.js:149-167 | the knight and king branches push exactly the enterable squares at the offsets, in order |
| MoveGen.GetSlideMoves | chess-website/script.js:169-185 | the sliding branch is the concatenation of the rays of its directions, in order |
| MoveGen.WalkRay | chess-website/script.js:176-184 | the while loop appends the ray from the first square in direction d: empty squares, then the blocking square only if it is opposing |
| MoveGen.GetLegalMoves | chess-website/script.js:121-188 | `getLegalMoves(r, c, piece)` returns `PseudoLegalMoves` of the current board, dispatching on the lower-cased piece letter |
| MoveRules.RayShape | chess-website/script.js:176-184 | every ray is a ray by description: consecutive squares in direction d, all enterable, all but the last empty, ending at an occupied square or before an unenterable one |
| MoveRules.RayDetermined | chess-website/script.js:176-184 | any sequence fitting that description is the ray the loop produces |
| MoveRules.RayUnique | chess-website/script.js:176-184 | two sequences fitting the description of the same ray are equal |
| MoveRules.RayCons | chess-website/script.js:178 | an empty square in front of a ray extends it by that square |
| MoveRules.RayTail | chess-website/script.js:178-183 | past an empty first square, the rest of a ray is the ray from the next square |
| MoveRules.RayEmptyExactly | chess-website/script.js:177-181 | a ray is empty exactly when its first square cannot be entered, and otherwise starts there |
| MoveRules.RayBlockedAtStart | chess-website/script.js:179-181 | a nonempty ray whose first square is occupied is that square alone |
| MoveRules.SlideMovesMembership | chess-website/script.js:175-185 | a square is a slider's destination exactly when it lies on the ray of one of its directions |
| MoveRules.SlideMovesEnterable | chess-website/script.js:175-185 | every slider destination is on the board and empty or opposing |
| MoveRules.StepMovesExactly | chess-website/script.js:151-155 | the stepping moves are exactly the enterable squares at the offsets, at most |offs| of them |
| MoveRules.KnightAndKingMoves | chess-website/script.js:126-127 | knight and king destinations are exactly the in-bounds offsets that are empty or opposing, at most 8 of them |
| MoveRules.PawnCaptures | chess-website/script.js:140-145 | the capture list is the left probe's square if it can capture, then the right probe's |
| MoveRules.PawnMovesExactly | chess-website/script.js:132-147 | a pawn's destinations are exactly the squares its push, double push and capture rules allow |
| MoveRules.PawnRules | chess-website/script.js:134-145 | single push iff one row ahead is in bounds and empty; double push iff on the start row with both squares empty; each diagonal iff it holds an opposing piece; nothing else (every destination is one of those four squares), at most 4 moves |
| MoveRules.MovesLandOnEmptyOrOpposing | chess-website/script.js:137-185 | every destination of every piece is in bounds and empty or opposing |
| MoveRules.NeverOwnColour | chess-website/script.js:137-185 | on a board of piece letters no destination holds a piece of the mover's own colour |
| MoveRules.NoMovesForOtherCharacters | chess-website/script.js:170-187 | "" and any character other than p, n, k, r, b, q in either case yield no moves |
| MoveRules.InitialPawnMoves | chess-website/script.js:198-202 | in the initial position every white pawn has exactly its two pushes to rows 5 and 4, every black pawn to rows 2 and 3 |
| MoveRules.InitialPawnMovesAt | chess-website/script.js:198-202 | one initial pawn of either colour has its single and double push and no capture |
| Enumeration.MovesTo | chess-website/script.js:103 | the pairs pushed for one square are `{from, to: m}` for each destination m, in order |
| Enumeration.PushMoves | chess-website/script.js:103 | `moves.forEach(push)` appends those pairs to `allMoves` |
| Enumeration.EnumerateBlackMoves | chess-website/script.js:97-106 | the nested loops leave `allMoves` equal to `BlackMoves` of the board, the board unchanged |
| Enumeration.RowMovesStep | chess-website/script.js:100-105 | one square of the inner loop extends the list by that square's pairs |
| Enumeration.SquareMovesExactly | chess-website/script.js:101-104 | a square contributes exactly the Black moves from it |
| Enumeration.RowMovesExactly | chess-website/script.js:100-105 | the first c squares of row r contribute exactly the Black moves from them, left to right |
| Enumeration.RowsMovesExactly | chess-website/script.js:99-106 | the first r rows contribute exactly the Black moves from those rows, in row-major order |
| Enumeration.BlackMovesExactly | chess-website/script.js:97-106 | `allMoves` holds exactly the moves of Black pieces that getLegalMoves allows, square by square in row-major order |
| Enumeration.NoBlackMovesMeansGameOver | chess-website/script.js:108-111 | `allMoves` is empty, the "Game over" case, exactly when no Black piece has a destination |
| ExtInts.Max | chess-website/js/ai.js:29 | `Math.max` is an upper bound of both arguments and is one of them |
| ExtInts.Min | chess-website/js/ai.js:40 | `Math.min` is a lower bound of both arguments and is one of them |
| ExtInts.LeTotalOrder | chess-website/js/ai.js:28 | the comparison of scores with ±Infinity is a total order, and `<` is `<=` without equality |
| ExtInts.MaxMinBounds | chess-website/js/ai.js:29-41 | Max is the least upper bound and Min the greatest lower bound |
| Material.PieceValue | chess-website/js/ai.js:5 | the values table p=1, n=3, b=3, r=5, q=9, k=0: zero exactly for the king, at most 9 |
| Material.Contribution | chess-website/js/ai.js:10-11 | an empty square adds 0; a piece adds ± its value, positive exactly for a white non-king, negative exactly for a black non-king |
| Material.EvaluateBoard | chess-website/js/ai.js:4-15 | the nested loops return the sum over pieces of ±value, + for White, − for Black |
| Material.ScoreUpdate | chess-website/js/ai.js:8-13 | changing one square changes the score by exactly the difference of that square's contributions |
| Material.RowScoreUpdate | chess-website/js/ai.js:9-12 | the same locality within one row |
| Material.KingsNeverCount | chess-website/js/ai.js:5 | placing a king of either colour on an empty square leaves the score unchanged |
| Material.ColourSwapNegates | chess-website/js/ai.js:11 | exchanging every piece's colour negates the score |
| Material.InitialRowScore | chess-website/js/ai.js:5 | the ranks of the initial layout are worth −31, −8, 0, 0, 0, 0, 8, 31 |
| Material.InitialPositionBalanced | chess-website/js/ai.js:4-15 | the initial layout (read as chess.js pieces) evaluates to 0 |
| Search.Game.constructor | chess-website/js/ai.js:47 | a game starts at the given position with an empty undo history |
| Search.Game.Move | chess-website/js/ai.js:25 | `g.move` plays a listed move and records the position it left; any other move changes nothing |
| Search.Game.Undo | chess-website/js/ai.js:27 | `g.undo` returns to the last recorded position and drops it; with no history it changes nothing |
| Search.ChildrenIsOptimum | chess-website/js/ai.js:22-44 | the fold over the children is bounded by every child's value and equals one of them, or is ∓Infinity when there are no moves |
| Search.ChildrenPrefix | chess-website/js/ai.js:24-31 | a prefix of the moves never gives a better value than all of them |
| Search.ValueIsFinite | chess-website/js/ai.js:18-44 | when every live position has a move, every minimax value is a number, never ±Infinity |
| Search.ChildrenAreFinite | chess-website/js/ai.js:23-43 | the same for the fold over a nonempty move list |
| Search.FullWindowExact | chess-website/js/ai.js:53 | a result sound for the window (−Infinity, Infinity) is the exact value |
| Search.MaxChildFolded | chess-website/js/ai.js:24-31 | after child i a maximizing node either keeps its loop invariant or, at the cut-off, is already sound for the whole node |
| Search.MinChildFolded | chess-website/js/ai.js:35-42 | the same for a minimizing node |
| Search.NodeDone | chess-website/js/ai.js:32-43 | a node whose loop ran through every move is sound |
| Search.Minimax | chess-website/js/ai.js:17-45 | the game is restored; at depth 0 or game over the result is `evaluateBoard`; otherwise it is window-sound against plain minimax |
| Search.SearchChild | chess-website/js/ai.js:25-27 | move, recursive search, undo: the game is restored and the child's score is window-sound |
| Search.MaximizingNode | chess-website/js/ai.js:22-32 | maxEval, with alpha raised and the beta cut-off, is window-sound against the maximum over the children; the game is restored |
| Search.MinimizingNode | chess-website/js/ai.js:33-44 | minEval, with beta lowered and the alpha cut-off, is window-sound against the minimum over the children; the game is restored |
| Search.Scan | chess-website/js/ai.js:50-60 | the move kept is the index of bestValue in the list of scores, or none and bestValue is the starting bound |
| Search.ScanFindsFirstBest | chess-website/js/ai.js:55-60 | the kept score is at least as good as every score and strictly better than every earlier one; nothing is kept exactly when every score is the starting bound |
| Search.RootValues | chess-website/js/ai.js:51-54 | each root move is scored by searching the position after it with the flag as written |
| Search.ChosenMoveIsBest | chess-website/js/ai.js:47-63 | getBestMove returns a listed move no other beats (strictly greatest for White, least for Black), the first such; null exactly when every score is the starting bound |
| Search.ChosenMoveWhenNeverStuck | chess-website/js/ai.js:48-62 | when every live position has a move, getBestMove returns null exactly when there are no moves |
| Search.ScoreRootMove | chess-website/js/ai.js:52-54 | move, full-window minimax with the flag as written, undo: the game is restored and the score is the exact root value |
| Search.GetBestMove | chess-website/js/ai.js:47-63 | the game is restored and the move returned is `ChosenMove` |
| FlagCounterexample.WrittenFlagPicksLosingMove | chess-website/js/ai.js:53 | in a two-ply game getBestMove picks move 0, whose true value is −5, while the minimax value of the start is 1 |
| FlagCounterexample.WrittenRootValues | chess-website/js/ai.js:53 | as written, Black's replies are searched as the maximizer, scoring the root moves 5 and 1 |
| FlagCounterexample.TwoPlyStartValue | chess-website/js/ai.js:17-45 | the true minimax value of that game's start is 1 |
| FlagCounterexample.ScanMatchesChildren | chess-website/js/ai.js:55-60 | when the root scores are the children's values, bestValue is the fold minimax computes |
| FlagCounterexample.IntendedChoiceIsOptimal | chess-website/js/ai.js:47-63 | with the corrected flag and alternating turns, the chosen move attains the minimax value of the position |
| FlagCounterexample.IntendedFlagPicksBestMove | chess-website/js/ai.js:53 | with the corrected flag the same game's choice is move 1 |
| FlagCounterexample.IntendedRootValuesOfTwoPly | chess-website/js/ai.js:53 | with the corrected flag the root moves score −5 and 1 |

## Left out

- Rendering, click handling, screen changes and the theme toggle in `chess-website/script.js` are user-interface code.
- `computerMove`'s random choice among `allMoves` and the move it then plays are left out. The choice comes from `Math.random`; only the enumeration before it is modelled.
- The `setTimeout` scheduling of the computer's move is presentation timing.
- `chess-website/js/script.js` is a user-interface controller and is not part of this model.
- chess.js is not part of this model. `Search.Rules` stands for what the search reads from it: the move list (`moves`), the position after a move (`apply`), `game_over()` (`gameOver`), `board()` (`board`) and `turn()` (`whiteToMove`). `move` and `undo` are `Search.Game.Move` and `Search.Game.Undo`, which act on `Search.Game.history`.
- That design assumes two things about chess.js. First, `undo` restores exactly the position before the last move. Second, a move that is not listed is refused and changes nothing. The search only ever plays listed moves.
- Nothing is assumed about check, checkmate, stalemate, castling, en passant or promotion. The promotion field passed to `g.move` is part of the move value M.
- `Search.Rules` is not instantiated with the generator of `chess-website/script.js`. The search runs on chess.js, not on that generator.
- `runTests` itself is not modelled. Its two assertions about the initial pawns are the lemma `MoveRules.InitialPawnMoves`.
- `Board.ToUpper` and `Board.ToLower` are ASCII-only. For the single characters the board holds they agree with JavaScript's case mapping. Other Unicode case mappings are left out.
- JavaScript numbers are modelled as unbounded integers with ±Infinity. Rounding of large doubles is left out, because the scores are small integers.
- Search.Minimax: requires alpha < beta. Every call in the source is made with such a window: getBestMove's, and every recursive call, which is issued before the cut-off test fails.
- Search.GetBestMove: requires depth ≥ 1. At depth 0 the source would call `minimax` with depth −1, which never reaches the depth-0 case. That behaviour is not modelled.
- Search.SearchChild, Search.ScoreRootMove, MoveGen.WalkRay, MoveGen.GetCaptureMoves and Enumeration.PushMoves are loop bodies or inner loops of the source, written as methods of their own. They are not separate functions in the source.

## Findings

| source | as written | input that shows it | evidently intended | confidence | as-written member | corrected member |
|---|---|---|---|---|---|---|
| chess-website/js/ai.js:53 | after the root move the flag is `turn() === 'w' ? false : true`, so when White is at the root, Black's reply is searched as the maximizer | two plies, each side with moves 0 and 1: after 0,0 White has a rook (+5), after 0,1 Black has one (−5), after 1,x White has a pawn (+1); getBestMove at depth 2 picks move 0, worth −5, although move 1 guarantees 1 | the flag is `turn() === 'w'`, so that the side to move after the root move maximizes if it is White and minimizes if it is Black, matching the root comparison at lines 55–60 | not executed | FlagCounterexample.WrittenFlagPicksLosingMove | FlagCounterexample.IntendedChoiceIsOptimal |
