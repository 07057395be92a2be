# Othello rule engine, modelled in Dafny

This project models `OthelloModel`, the game engine of a desktop Othello
(Reversi) program: the 8x8 board, the opening layout, move legality, disc
flipping, capture counting, move enumeration, the greedy computer player,
the single save/restore snapshot, reset, game-over detection and the final
result.

The engine is a mutable object; here it is a value. `GameState` holds the
board, the side to move and the snapshot slot, and each public operation is
a pure function from the old state to the new one.

- `board.dfy` (module `Board`): players, cells and positions. The board is a
  flat sequence of 64 cells in row-major order, so the source's
  `board[r][c]` is `At(b, Pos(r, c))`. It also holds disc counting and the
  opening layout.
- `rays.dfy` (module `Rays`): the eight directions in the order the source
  lists them. It defines the cell `k` steps along a ray and the run of
  opponent discs that the scanning loops measure. A direction is
  "sandwiched" when such a run is closed by a disc of the mover.
- `rules.dfy` (module `Rules`): the board-level rules.
  - `isValidMove` and `getFlippableDiscs`.
  - The flip loops of `makeMove`.
  - `countCapturesForMove` and `getValidMoves`.
- `greedy.dfy` (module `Greedy`): the selection loop of `makeGreedyCPUMove`,
  run over the list of capture counts.
- `othello.dfy` (module `Othello`): the engine state and its public
  operations, plus a worked opening move.
- `wrappers.dfy` (module `Wrappers`): `Option`.

Every operation is paired with a reference description. The scanning loops
are matched against a cell-by-cell statement of a sandwich. The flip loops
are matched against the existential `Captured` ("lies inside the opponent
run of some sandwiched direction"). The enumeration is matched against
membership plus row-major order, and the greedy loop against "first
maximum". The lemmas below connect each pair for all inputs.

## Model

| member | source | states |
|---|---|---|
| Board.Opp | src/OthelloModel.java:80-82 | the opponent is the other player: Black's is White and White's is Black |
| Board.Opening | src/OthelloModel.java:14-19 | the opening board has White on (3,3) and (4,4), Black on (3,4) and (4,3), and every other cell empty |
| Board.OpeningCounts | src/OthelloModel.java:14-19 | the opening has two black discs, two white discs and 60 empty cells |
| Board.CountPartition | src/OthelloModel.java:190-198 | every cell is empty, black or white, so the three counts add up to the number of cells |
| Board.PlaceOnEmpty | src/OthelloModel.java:40 | putting a disc on an empty cell raises that colour's count by one, lowers the empty count by one and leaves the other colour alone |
| Board.Recolour | src/OthelloModel.java:45 | turning an opponent disc into the mover's disc moves one unit of count from the opponent to the mover |
| Rays.DirectionsDistinct | src/OthelloModel.java:54-58 | the direction table lists each of the eight directions exactly once |
| Rays.RunFrom | src/OthelloModel.java:64-68 | the scanning while-loop stops at the first cell that is off the board or not an opponent disc, and every cell it passed over is an on-board opponent disc |
| Rays.Run | src/OthelloModel.java:62-68 | cells 1..n out from the move are opponent discs, and cell n+1 is not an on-board opponent disc |
| Rays.Sandwiched | src/OthelloModel.java:69 | the direction test: a run of at least one opponent disc followed by an on-board disc of the mover; no contract of its own, SandwichedIff gives its cell-by-cell reading |
| Rays.SandwichedIff | src/OthelloModel.java:62-71 | the loop's test succeeds exactly when, for some n >= 1, cells 1..n are opponent discs and cell n+1 is on the board and holds the mover's disc |
| Rays.RunFromFrame | src/OthelloModel.java:64-68 | the length of a scan depends only on the cells of its own ray |
| Rays.RayFrame | src/OthelloModel.java:62-71 | the run next to the move, and whether the direction captures, depend only on the cells of that ray |
| Rays.SetOffRay | src/OthelloModel.java:62-71 | changing a cell off a ray changes neither its run nor its verdict |
| Rules.FlippableFrom | src/OthelloModel.java:60-72 | the collected directions are exactly the sandwiched ones of the table, and there are no duplicates when the table has none |
| Rules.FlippableDirs | src/OthelloModel.java:53-74 | getFlippableDiscs returns every sandwiched direction, each once |
| Rules.IsValidMove | src/OthelloModel.java:33-36 | a legal move is always on an empty cell; the full condition is ValidMoveIff |
| Rules.ValidMoveIff | src/OthelloModel.java:33-36 | a move is legal exactly when its cell is empty and some direction is sandwiched; an occupied cell is never legal for either player |
| Rules.CapturesFrom | src/OthelloModel.java:133-148 | the summed captures over a list of directions are positive exactly when one of them is sandwiched |
| Rules.CapturesFromSkip | src/OthelloModel.java:145-147 | directions that are not sandwiched add nothing to the capture count |
| Rules.Captures | src/OthelloModel.java:125-151 | countCapturesForMove is positive exactly when some direction is sandwiched; PlayCounts states that it equals the number of discs makeMove flips |
| Rules.FlipRay | src/OthelloModel.java:43-48 | the while-loop of makeMove along one direction, from k steps out; no contract of its own, FlipRayEffect and FlipRayCounts state what it does |
| Rules.FlipStep | src/OthelloModel.java:44-47 | one turn of the flip loop turns the current opponent disc to the mover and leaves the rest of the run untouched for the next turn |
| Rules.FlipRayEffect | src/OthelloModel.java:43-48 | the flip loop for one direction turns exactly the run's cells to the mover, stays on the board, and leaves every other cell alone |
| Rules.FlipRayCounts | src/OthelloModel.java:43-48 | the flip loop for one direction moves exactly the run length from the opponent's count to the mover's |
| Rules.FlipKeepsSandwich | src/OthelloModel.java:42-49 | flipping one direction's run leaves every other capturing direction's sandwich intact, because distinct rays share no cell |
| Rules.FlipKeepsLaterSandwiches | src/OthelloModel.java:42-49 | after the first direction is flipped, the remaining directions are still sandwiches of their original lengths |
| Rules.FlipAll | src/OthelloModel.java:42-49 | the for-loop of makeMove over the capturing directions, in the order getFlippableDiscs returns them; no contract of its own, FlipAllEffect and FlipAllCounts state what it does |
| Rules.FlipAllEffect | src/OthelloModel.java:42-49 | the loop over the capturing directions turns exactly the cells on their runs to the mover and leaves every other cell alone |
| Rules.FlipAllCounts | src/OthelloModel.java:42-49 | the loop over the capturing directions moves the summed run lengths from the opponent's count to the mover's |
| Rules.FlippableRuns | src/OthelloModel.java:53-74 | each direction returned by getFlippableDiscs is a sandwich of exactly its measured length |
| Rules.FlippableIndex | src/OthelloModel.java:69-71 | a sandwiched direction appears in the list getFlippableDiscs returns |
| Rules.CapturedIsFlipped | src/OthelloModel.java:40-49 | every captured cell lies on a run that makeMove flips |
| Rules.FlippedIsCaptured | src/OthelloModel.java:40-49 | every cell on a run that makeMove flips is a captured cell |
| Rules.PlayRunsAreCaptures | src/OthelloModel.java:40-49 | the runs makeMove flips, computed after the disc is placed, are exactly the captured cells of the board before the move |
| Rules.Play | src/OthelloModel.java:40-49 | the board after a legal makeMove holds the mover's disc on the target, which was not there before; PlayEffect and PlayCounts give the full effect |
| Rules.PlayEffect | src/OthelloModel.java:38-50 | after a legal move the target holds the mover's disc, exactly the captured cells turn to the mover (all of them were opponent discs), and every other cell is unchanged |
| Rules.FlippedRunsSum | src/OthelloModel.java:133-148 | the run lengths of the flipped directions add up to countCapturesForMove over the same directions |
| Rules.CapturesFromPlace | src/OthelloModel.java:40 | placing the disc on the target does not change the capture count from that target |
| Rules.PlayCounts | src/OthelloModel.java:38-50 | a legal move captures at least one disc; the mover gains 1 + countCapturesForMove discs, the opponent loses countCapturesForMove, one empty cell is filled and the disc total rises by exactly one |
| Rules.ValidMovesFrom | src/OthelloModel.java:86-91 | the nested row and column loops from row-major index i on; no contract of its own, the three lemmas below state what it collects and in which order |
| Rules.ValidMovesFromSound | src/OthelloModel.java:84-94 | every collected cell is an on-board legal move at or after the starting index |
| Rules.ValidMovesFromComplete | src/OthelloModel.java:84-94 | every on-board legal move at or after the starting index is collected |
| Rules.ValidMovesFromSorted | src/OthelloModel.java:86-91 | the collected cells come in strictly increasing row-major order |
| Rules.ValidMoves | src/OthelloModel.java:84-94 | getValidMoves holds exactly the on-board legal cells, in strictly increasing row-major order, each once |
| Greedy.FirstMaxUnique | src/OthelloModel.java:111-117 | there is only one first position of the maximum |
| Greedy.BestFrom | src/OthelloModel.java:108-117 | starting from "no move, maximum -1" and replacing only on a strictly greater count, the loop ends on the first position of the maximum, and on nothing only for an empty list |
| Greedy.FirstMax | src/OthelloModel.java:105-123 | the greedy loop selects nothing exactly when there are no candidates, and otherwise the first maximal one |
| Othello.Init | src/OthelloModel.java:6-19 | the state a new engine starts in; no contract of its own, InitialState states its contents |
| Othello.InitialState | src/OthelloModel.java:6-19 | a new engine has the opening layout, four discs, Black to move and no snapshot |
| Othello.SwitchPlayer | src/OthelloModel.java:29-31 | switchPlayer changes the side to move and nothing else |
| Othello.MakeMove | src/OthelloModel.java:38-51 | an illegal move changes nothing; a legal one changes the board, keeps the snapshot and always hands the turn to the opponent |
| Othello.MakeMoveEffect | src/OthelloModel.java:38-51 | after a legal makeMove the target holds the mover's disc, exactly the captured cells (all opponent discs before) are flipped, the rest is unchanged, and the opponent is to move |
| Othello.MakeMoveCounts | src/OthelloModel.java:38-51 | a legal makeMove flips exactly countCapturesForMove discs and adds exactly one disc to the board |
| Othello.CaptureCounts | src/OthelloModel.java:111-112 | the candidate list's capture counts are countCapturesForMove of each move, in order |
| Othello.GreedyMove | src/OthelloModel.java:105-123 | the greedy choice is absent exactly when there is no legal move; otherwise it is a legal move with the most captures, and every earlier legal move in row-major order captures strictly fewer |
| Othello.FirstMaxIsGreedy | src/OthelloModel.java:108-117 | the first maximum of the capture counts, over the legal moves in row-major order, is the greedy choice |
| Othello.FirstMaxBeats | src/OthelloModel.java:111-117 | no legal move captures more than the chosen one, and every legal move before it captures strictly fewer |
| Othello.GreedyChoiceUnique | src/OthelloModel.java:111-117 | any move meeting the greedy rule (legal, most captures, strictly more than every earlier legal move) is the one the greedy loop picks, so that move is unique |
| Othello.GreedyCpuMove | src/OthelloModel.java:105-123 | with no legal move nothing changes (no pass); otherwise the result is makeMove on the greedy choice |
| Othello.RandomCpuMove | src/OthelloModel.java:96-103 | with no legal move nothing changes; otherwise the result is makeMove on some element of getValidMoves, so the opponent is to move, the snapshot is kept and the disc total rises by one |
| Othello.SaveGameState | src/OthelloModel.java:153-161 | saving leaves the board and side to move as they were, marks a snapshot as present, and restoring straight afterwards changes nothing |
| Othello.RestoreGameState | src/OthelloModel.java:163-172 | without a snapshot nothing changes; with one, the board and side to move become the saved ones and the snapshot itself is kept |
| Othello.RestoreTwice | src/OthelloModel.java:163-172 | restoring twice is the same as restoring once |
| Othello.HasSavedState | src/OthelloModel.java:174-176 | whether a snapshot is present; no contract of its own, SaveGameState sets it and RestoreGameState and ResetGame keep it |
| Othello.SnapshotSurvivesPlay | src/OthelloModel.java:153-172 | after a save, one makeMove, one greedy computer move and a reset, restoring brings back the saved board and side to move |
| Othello.ResetGame | src/OthelloModel.java:209-224 | resetGame gives the opening layout with Black to move and keeps the snapshot |
| Othello.ResetOfInit | src/OthelloModel.java:209-224 | resetting a new engine gives exactly the newly constructed state |
| Othello.IsGameOver | src/OthelloModel.java:178-180 | the game is over exactly when no on-board cell is a legal move for either player |
| Othello.FullBoardIsOver | src/OthelloModel.java:178-180 | a board without an empty cell is over |
| Othello.GameResult | src/OthelloModel.java:182-207 | no result unless the game is over; otherwise the black and white disc counts (at most 64 together), a draw exactly when they are equal, else a win for the side with more discs |
| Othello.BlackWinsScenario | src/OthelloModel.java:200-201 | a finished game with 33 black and 31 white discs is a black win, 33 to 31 |
| Othello.OpeningRunsAt23 | src/OthelloModel.java:62-68 | from the opening, Black at (2,3) sees a single white disc to the south and no opponent disc in any other direction |
| Othello.CapturesSouthOnly | src/OthelloModel.java:133-150 | a move whose only run is one disc to the south captures exactly one disc |
| Othello.OpeningCapturesAt23 | src/OthelloModel.java:33-36 | from the opening, Black at (2,3) is legal, sandwiches southwards and captures exactly one disc |
| Othello.FlipsNeighbour | src/OthelloModel.java:43-45 | the cell next to the target on a sandwiched ray is always flipped |
| Othello.OpeningMove | src/OthelloModel.java:38-51 | from the opening, Black at (2,3) flips (3,3), leaving four black discs and one white disc with White to move |

## Left out

- The GUI (`OthelloView`, `OthelloController`, `Main`) is not part of this model. It is display, mouse handling and timers.
- `Math.random()` in makeRandomCPUMove becomes the parameter `pick` of `RandomCpuMove`: the index the random draw would produce.
- Othello.RandomCpuMove: states that makeMove is played on some element of getValidMoves, not on which one, because the choice depends on the random draw.
- getGameResult's message text is not modelled; `Outcome` keeps the winner and both counts. The text reports a white win as "whiteCount - blackCount" and every other result as "blackCount - whiteCount".
- getBoard returns the live array, so callers could mutate the board; values have no aliasing, so this is not modelled. getBoard, getCurrentPlayer and hasSavedState are plain field reads.
- The contents of `savedBoard` before the first save cannot be observed, because restoreGameState ignores it while hasSavedState is false. The snapshot is therefore an `Option`.
- Players are a two-valued datatype instead of the ints 1 and 2. getOpponent's "anything but BLACK maps to BLACK" case, and isValidMove called with a player value other than 1 or 2, cannot arise.
- Coordinates passed to isValidMove and makeMove must be on the board (`requires InBounds(m)`). The source indexes the array without a check and would throw for such input.
- Objects are not shared, so concurrent use is not modelled.
