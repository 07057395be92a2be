/** OthelloModel as a value: the board, the side to move and the single
    saved snapshot, with every public operation as a pure function from
    the old state to the new one.
 */
module Othello {
  import opened Wrappers
  import opened Board
  import opened Rays
  import opened Rules
  import opened Greedy

  /** What saveGameState copies: the board and the side to move. */
  datatype Snapshot = Snapshot(board: Board, player: Player)

  /** board, currentPlayer, and the saved slot: `None` when hasSavedState
      is false. */
  datatype GameState = GameState(board: Board, current: Player, saved: Option<Snapshot>)

  /** The constructor: the opening layout, Black to move, nothing saved. */
  function Init(): GameState {
    GameState(Opening(), Black, None)
  }

  /** The starting position has the four centre discs, Black to move and
      no snapshot. */
  lemma InitialState()
    ensures var s := Init();
            && At(s.board, Pos(3, 3)) == Disc(White) && At(s.board, Pos(4, 4)) == Disc(White)
            && At(s.board, Pos(3, 4)) == Disc(Black) && At(s.board, Pos(4, 3)) == Disc(Black)
            && (forall x :: InBounds(x) && !IsCentre(x) ==> At(s.board, x) == Empty)
            && s.current == Black && s.saved == None
            && Discs(s.board) == 4
  {
    OpeningCounts();
  }

  /** switchPlayer: hand the turn to the other side. */
  function SwitchPlayer(s: GameState): (t: GameState)
    ensures t.current != s.current
    ensures t.board == s.board && t.saved == s.saved
  {
    s.(current := Opp(s.current))
  }

  lemma SwitchPlayerTwice(s: GameState)
    ensures SwitchPlayer(SwitchPlayer(s)) == s
  {
  }

  /** makeMove: a move that is not legal for the side to move changes
      nothing; a legal one places and flips discs and then always hands
      the turn over, whether or not the opponent can move. The source
      indexes the board without a bounds check, so (row, col) must be on
      the board. */
  function MakeMove(s: GameState, m: Pos): (t: GameState)
    requires InBounds(m)
    ensures !IsValidMove(s.board, m, s.current) ==> t == s
    ensures IsValidMove(s.board, m, s.current) ==>
              t.current == Opp(s.current) && t.saved == s.saved && t.board != s.board
  {
    if !IsValidMove(s.board, m, s.current) then s
    else
      var b := Play(s.board, m, s.current);
      PlayEffect(s.board, m, s.current);
      SwitchPlayer(s.(board := b))
  }

  /** The board after a legal makeMove, cell by cell: the target holds the
      mover's disc, the captured cells (all of them opponent discs before)
      hold the mover's disc, and every other cell is unchanged. */
  lemma MakeMoveEffect(s: GameState, m: Pos)
    requires InBounds(m) && IsValidMove(s.board, m, s.current)
    ensures var t := MakeMove(s, m);
            && At(t.board, m) == Disc(s.current)
            && (forall x :: InBounds(x) && x != m ==>
                  At(t.board, x) == if Captured(s.board, s.current, m, x) then Disc(s.current) else At(s.board, x))
            && (forall x :: InBounds(x) && Captured(s.board, s.current, m, x) ==>
                  At(s.board, x) == Disc(Opp(s.current)))
            && t.current == Opp(s.current)
  {
    PlayEffect(s.board, m, s.current);
  }

  /** Disc arithmetic of a legal makeMove: the number of discs flipped is
      countCapturesForMove, and one disc is added to the board. */
  lemma MakeMoveCounts(s: GameState, m: Pos)
    requires InBounds(m) && IsValidMove(s.board, m, s.current)
    ensures var t := MakeMove(s, m);
            var p := s.current;
            && Count(t.board, Disc(p)) == Count(s.board, Disc(p)) + 1 + Captures(s.board, m, p)
            && Count(t.board, Disc(Opp(p))) == Count(s.board, Disc(Opp(p))) - Captures(s.board, m, p)
            && Discs(t.board) == Discs(s.board) + 1
  {
    PlayCounts(s.board, m, s.current);
  }

  /** The capture counts of the candidate moves, in order. */
  function CaptureCounts(b: Board, p: Player, moves: seq<Pos>): (cs: seq<int>)
    requires forall j :: 0 <= j < |moves| ==> InBounds(moves[j])
    ensures |cs| == |moves|
    ensures forall j :: 0 <= j < |moves| ==> cs[j] == Captures(b, moves[j], p) >= 0
  {
    if |moves| == 0 then []
    else [Captures(b, moves[0], p)] + CaptureCounts(b, p, moves[1..])
  }

  /** q is the move the greedy rule should pick: legal, capturing as many
      discs as any legal move, and capturing strictly more than every
      legal move before it in row-major order. */
  ghost predicate IsGreedyChoice(b: Board, p: Player, q: Pos) {
    && InBounds(q) && IsValidMove(b, q, p)
    && (forall q' :: InBounds(q') && IsValidMove(b, q', p) ==> Captures(b, q', p) <= Captures(b, q, p))
    && (forall q' :: InBounds(q') && IsValidMove(b, q', p) && RowMajorBefore(q', q) ==>
          Captures(b, q', p) < Captures(b, q, p))
  }

  /** The move makeGreedyCPUMove plays, if any. */
  function GreedyMove(b: Board, p: Player): (r: Option<Pos>)
    ensures r.None? <==> ValidMoves(b, p) == []
    ensures r.Some? ==> IsGreedyChoice(b, p, r.value)
  {
    var moves := ValidMoves(b, p);
    var cs := CaptureCounts(b, p, moves);
    match FirstMax(cs)
    case None => None
    case Some(j) =>
      FirstMaxIsGreedy(b, p, j);
      Some(moves[j])
  }

  /** The first maximum of the capture counts, taken over the legal moves
      in row-major order, is the greedy choice. */
  lemma FirstMaxIsGreedy(b: Board, p: Player, j: int)
    requires IsFirstMax(CaptureCounts(b, p, ValidMoves(b, p)), j)
    ensures IsGreedyChoice(b, p, ValidMoves(b, p)[j])
  {
    var moves := ValidMoves(b, p);
    assert moves[j] in moves;
    forall q' | InBounds(q') && IsValidMove(b, q', p)
      ensures Captures(b, q', p) <= Captures(b, moves[j], p)
      ensures RowMajorBefore(q', moves[j]) ==> Captures(b, q', p) < Captures(b, moves[j], p)
    {
      FirstMaxBeats(b, p, j, q');
    }
  }

  /** One legal move q' against the first maximum at position j. */
  lemma FirstMaxBeats(b: Board, p: Player, j: int, q': Pos)
    requires IsFirstMax(CaptureCounts(b, p, ValidMoves(b, p)), j)
    requires InBounds(q') && IsValidMove(b, q', p)
    ensures Captures(b, q', p) <= Captures(b, ValidMoves(b, p)[j], p)
    ensures RowMajorBefore(q', ValidMoves(b, p)[j]) ==>
              Captures(b, q', p) < Captures(b, ValidMoves(b, p)[j], p)
  {
    var moves := ValidMoves(b, p);
    var cs := CaptureCounts(b, p, moves);
    var k := IndexOf(moves, q');
    SortedPosition(moves, j, k);
    assert cs[k] == Captures(b, q', p) && cs[j] == Captures(b, moves[j], p);
  }

  /** In a list sorted in row-major order, an element before the one at
      position j sits at an earlier position. */
  lemma SortedPosition(xs: seq<Pos>, j: int, k: int)
    requires forall a, c :: 0 <= a < c < |xs| ==> RowMajorBefore(xs[a], xs[c])
    requires 0 <= j < |xs| && 0 <= k < |xs|
    ensures RowMajorBefore(xs[k], xs[j]) ==> k < j
  {
  }

  /** A position of x in xs. */
  lemma IndexOf(xs: seq<Pos>, x: Pos) returns (k: nat)
    requires x in xs
    ensures k < |xs| && xs[k] == x
  {
    k :| 0 <= k < |xs| && xs[k] == x;
  }

  /** The greedy choice is unique, and it is the move GreedyMove finds. */
  lemma GreedyChoiceUnique(b: Board, p: Player)
    ensures forall q :: IsGreedyChoice(b, p, q) ==> GreedyMove(b, p) == Some(q)
  {
    forall q | IsGreedyChoice(b, p, q)
      ensures GreedyMove(b, p) == Some(q)
    {
      assert q in ValidMoves(b, p);
      var r := GreedyMove(b, p).value;
      assert Captures(b, q, p) == Captures(b, r, p);
      assert q != r ==> RowMajorBefore(q, r) || RowMajorBefore(r, q);
    }
  }

  /** makeGreedyCPUMove: with no legal move for the side to move nothing
      happens (there is no pass, so the turn stays); otherwise it is
      makeMove on the greedy choice. */
  function GreedyCpuMove(s: GameState): (t: GameState)
    ensures ValidMoves(s.board, s.current) == [] ==> t == s
    ensures ValidMoves(s.board, s.current) != [] ==>
              exists q :: IsGreedyChoice(s.board, s.current, q) && t == MakeMove(s, q)
  {
    match GreedyMove(s.board, s.current)
    case None => s
    case Some(q) => MakeMove(s, q)
  }

  /** makeRandomCPUMove with the random draw as a parameter: `pick` is the
      index the source derives from Math.random(), below the number of
      legal moves. With no legal move nothing happens; otherwise makeMove
      is played on one of the legal moves, so the turn passes and the
      board gains one disc. */
  function RandomCpuMove(s: GameState, pick: nat): (t: GameState)
    requires var n := |ValidMoves(s.board, s.current)|; n == 0 || pick < n
    ensures ValidMoves(s.board, s.current) == [] ==> t == s
    ensures ValidMoves(s.board, s.current) != [] ==>
              exists q :: q in ValidMoves(s.board, s.current) && t == MakeMove(s, q)
    ensures ValidMoves(s.board, s.current) != [] ==>
              && t.current == Opp(s.current) && t.saved == s.saved
              && Discs(t.board) == Discs(s.board) + 1
  {
    var moves := ValidMoves(s.board, s.current);
    if |moves| == 0 then s
    else
      assert moves[pick] in moves;
      MakeMoveCounts(s, moves[pick]);
      MakeMove(s, moves[pick])
  }

  /** saveGameState: copy the board and the side to move into the slot,
      overwriting any earlier snapshot. The position itself is untouched,
      and restoring straight away gives it back. */
  function SaveGameState(s: GameState): (t: GameState)
    ensures t.board == s.board && t.current == s.current
    ensures HasSavedState(t)
    ensures RestoreGameState(t) == t
  {
    s.(saved := Some(Snapshot(s.board, s.current)))
  }

  /** restoreGameState: with a snapshot, bring back its board and side to
      move (the snapshot stays); without one, do nothing. */
  function RestoreGameState(s: GameState): (t: GameState)
    ensures t.saved == s.saved
    ensures !HasSavedState(s) ==> t == s
    ensures HasSavedState(s) ==> t.board == s.saved.value.board && t.current == s.saved.value.player
  {
    match s.saved
    case None => s
    case Some(snap) => s.(board := snap.board, current := snap.player)
  }

  function HasSavedState(s: GameState): bool {
    s.saved.Some?
  }

  /** Restoring keeps the snapshot, so restoring again changes nothing. */
  lemma RestoreTwice(s: GameState)
    ensures RestoreGameState(RestoreGameState(s)) == RestoreGameState(s)
  {
  }

  /** Only saveGameState writes the slot: after a save, one makeMove, one
      greedy computer move and a reset, restoring brings back the saved
      position. */
  lemma SnapshotSurvivesPlay(s: GameState, m: Pos)
    requires InBounds(m)
    ensures var t := ResetGame(GreedyCpuMove(MakeMove(SaveGameState(s), m)));
            RestoreGameState(t).board == s.board && RestoreGameState(t).current == s.current
  {
  }

  /** resetGame: the opening layout and Black to move; the snapshot is
      left alone. */
  function ResetGame(s: GameState): (t: GameState)
    ensures t.board == Init().board && t.current == Init().current
    ensures t.saved == s.saved
  {
    GameState(Opening(), Black, s.saved)
  }

  /** Resetting a fresh engine yields the freshly constructed state. */
  lemma ResetOfInit()
    ensures ResetGame(Init()) == Init()
  {
  }

  /** isGameOver: neither side has a legal move. */
  function IsGameOver(b: Board): (r: bool)
    ensures r <==> forall q :: InBounds(q) ==> !IsValidMove(b, q, Black) && !IsValidMove(b, q, White)
  {
    var black := ValidMoves(b, Black);
    var white := ValidMoves(b, White);
    assert |black| > 0 ==> black[0] in black;
    assert |white| > 0 ==> white[0] in white;
    |black| == 0 && |white| == 0
  }

  /** A board without an empty cell admits no move: the game is over. */
  lemma FullBoardIsOver(b: Board)
    requires Count(b, Empty) == 0
    ensures IsGameOver(b)
  {
    CountZero(b, Empty);
    forall q | InBounds(q)
      ensures !IsValidMove(b, q, Black) && !IsValidMove(b, q, White)
    {
      ValidMoveIff(b, q, Black);
    }
  }

  /** The outcome getGameResult reports: the winner with both scores, or a
      draw; the scores are the black and white disc counts. */
  datatype Outcome = Win(winner: Player, black: nat, white: nat) | Draw(black: nat, white: nat)

  /** getGameResult: absent (null) while the game is not over; otherwise
      the side with more discs wins, equal counts are a draw. */
  function GameResult(s: GameState): (r: Option<Outcome>)
    ensures r.None? <==> !IsGameOver(s.board)
    ensures r.Some? ==> r.value.black == Count(s.board, Disc(Black))
    ensures r.Some? ==> r.value.white == Count(s.board, Disc(White))
    ensures r.Some? ==> r.value.black + r.value.white <= Cells
    ensures r.Some? ==> (r.value.Draw? <==> r.value.black == r.value.white)
    ensures r.Some? && r.value.Win? ==>
              (r.value.winner == Black <==> r.value.black > r.value.white)
  {
    if !IsGameOver(s.board) then None
    else
      var black := Count(s.board, Disc(Black));
      var white := Count(s.board, Disc(White));
      CountPartition(s.board);
      if black > white then Some(Win(Black, black, white))
      else if white > black then Some(Win(White, black, white))
      else Some(Draw(black, white))
  }

  /** A finished game with 33 black and 31 white discs is a black win
      reported as 33 to 31. */
  lemma BlackWinsScenario(s: GameState)
    requires IsGameOver(s.board)
    requires Count(s.board, Disc(Black)) == 33 && Count(s.board, Disc(White)) == 31
    ensures GameResult(s) == Some(Win(Black, 33, 31))
  {
  }

  /** From the opening, Black at (2,3) has no opponent disc next to it
      except southwards. */
  lemma OpeningRunsAt23(b: Board, d: Dir)
    requires OpeningLayout(b)
    ensures Run(b, Black, Pos(2, 3), d) == if d == S then 1 else 0
  {
    var m := Pos(2, 3);
    if d == S {
      assert RunFrom(b, Black, Pos(4, 3), S) == 0;
    } else {
      assert Step(m, d) != Pos(3, 3) && Step(m, d) != Pos(4, 4);
      assert InBounds(Step(m, d)) ==> At(b, Step(m, d)) != Disc(White);
    }
  }

  /** A move whose only opponent neighbour is a single disc to the south,
      backed by a disc of the mover, captures exactly that one disc. */
  lemma CapturesSouthOnly(b: Board, p: Player, m: Pos)
    requires forall d :: Run(b, p, m, d) == if d == S then 1 else 0
    requires Sandwiched(b, p, m, S)
    ensures Captures(b, m, p) == 1
  {
    var ds := Directions;
    assert ds[6..] == [S, SE] && [S, SE][1..] == [SE] && [SE][1..] == [];
    assert forall i :: 0 <= i < 6 ==> Run(b, p, m, ds[i]) == 0;
    CapturesFromSkip(b, p, m, ds, 6);
  }

  /** From the opening, Black at (2,3) sandwiches the white disc at (3,3)
      against the black one at (4,3), is legal, and captures exactly one
      disc. */
  lemma OpeningCapturesAt23(b: Board)
    requires OpeningLayout(b)
    ensures Sandwiched(b, Black, Pos(2, 3), S)
    ensures IsValidMove(b, Pos(2, 3), Black)
    ensures Captures(b, Pos(2, 3), Black) == 1
  {
    var m := Pos(2, 3);
    forall d {
      OpeningRunsAt23(b, d);
    }
    assert Move(m, S, 2) == Pos(4, 3);
    assert Sandwiched(b, Black, m, S);
    ValidMoveIff(b, m, Black);
    CapturesSouthOnly(b, Black, m);
  }

  /** A cell on a sandwiched ray, next to the target, is flipped. */
  lemma FlipsNeighbour(s: GameState, m: Pos, d: Dir, x: Pos)
    requires InBounds(m) && InBounds(x) && IsValidMove(s.board, m, s.current)
    requires Sandwiched(s.board, s.current, m, d) && RayIndex(m, d, x) == 1
    ensures At(MakeMove(s, m).board, x) == Disc(s.current)
  {
    assert Captured(s.board, s.current, m, x);
    MakeMoveEffect(s, m);
  }

  /** From the opening, Black at (2,3) flips the white disc at (3,3),
      leaves four black discs and one white disc, and hands the turn to
      White. */
  lemma OpeningMove()
    ensures var t := MakeMove(Init(), Pos(2, 3));
            && At(t.board, Pos(3, 3)) == Disc(Black)
            && Count(t.board, Disc(Black)) == 4 && Count(t.board, Disc(White)) == 1
            && t.current == White
  {
    var s := Init();
    var m := Pos(2, 3);
    assert RayIndex(m, S, Pos(3, 3)) == 1;
    OpeningCapturesAt23(s.board);
    FlipsNeighbour(s, m, S, Pos(3, 3));
    MakeMoveCounts(s, m);
    OpeningCounts();
  }
}
