/** The eight rays out of a cell and the runs of opponent discs along them.

    A move at m captures along direction d when the cells m+1d, m+2d, ...
    hold one or more opponent discs followed, still on the board, by a
    disc of the mover: a "sandwich". Everything here is stated in terms of
    Move(m, d, k), the cell k steps from m in direction d.
 */
module Rays {
  import opened Board

  /** The eight compass directions, in the order OthelloModel lists them. */
  datatype Dir = NW | N | NE | W | E | SW | S | SE

  const Directions: seq<Dir> := [NW, N, NE, W, E, SW, S, SE]

  predicate Distinct(ds: seq<Dir>) {
    forall i, j :: 0 <= i < j < |ds| ==> ds[i] != ds[j]
  }

  lemma DirectionsDistinct()
    ensures Distinct(Directions)
    ensures forall d: Dir :: d in Directions
  {
    forall d: Dir
      ensures d in Directions
    {
      match d
      case NW => assert Directions[0] == d;
      case N  => assert Directions[1] == d;
      case NE => assert Directions[2] == d;
      case W  => assert Directions[3] == d;
      case E  => assert Directions[4] == d;
      case SW => assert Directions[5] == d;
      case S  => assert Directions[6] == d;
      case SE => assert Directions[7] == d;
    }
  }

  /** The cell k steps from q in direction d (row grows downwards). */
  function Move(q: Pos, d: Dir, k: int): Pos {
    match d
    case NW => Pos(q.row - k, q.col - k)
    case N  => Pos(q.row - k, q.col)
    case NE => Pos(q.row - k, q.col + k)
    case W  => Pos(q.row, q.col - k)
    case E  => Pos(q.row, q.col + k)
    case SW => Pos(q.row + k, q.col - k)
    case S  => Pos(q.row + k, q.col)
    case SE => Pos(q.row + k, q.col + k)
  }

  /** One step along d: how the scanning and flipping loops advance their
      row and column. */
  function Step(q: Pos, d: Dir): Pos {
    Move(q, d, 1)
  }

  lemma MoveStep(q: Pos, d: Dir)
    ensures forall k {:trigger Move(Step(q, d), d, k)} :: Move(Step(q, d), d, k) == Move(q, d, k + 1)
  {
  }

  /** How far x lies from m along direction d: k >= 1 exactly when
      x == Move(m, d, k); any value below 1 means x is not on that ray. */
  function RayIndex(m: Pos, d: Dir, x: Pos): int {
    match d
    case NW => if m.row - x.row == m.col - x.col then m.row - x.row else 0
    case N  => if x.col == m.col then m.row - x.row else 0
    case NE => if m.row - x.row == x.col - m.col then m.row - x.row else 0
    case W  => if x.row == m.row then m.col - x.col else 0
    case E  => if x.row == m.row then x.col - m.col else 0
    case SW => if x.row - m.row == m.col - x.col then x.row - m.row else 0
    case S  => if x.col == m.col then x.row - m.row else 0
    case SE => if x.row - m.row == x.col - m.col then x.row - m.row else 0
  }

  lemma RayIndexMove(m: Pos, d: Dir)
    ensures forall k :: k >= 1 ==> RayIndex(m, d, Move(m, d, k)) == k
    ensures forall x :: RayIndex(m, d, x) >= 1 ==> Move(m, d, RayIndex(m, d, x)) == x
  {
  }

  /** Two different rays out of the same cell share no cell. */
  lemma RaysDisjoint(m: Pos, d: Dir, d': Dir, x: Pos)
    requires RayIndex(m, d, x) >= 1 && RayIndex(m, d', x) >= 1
    ensures d == d'
  {
  }

  /** Steps left before a walk from an on-board q in direction d leaves
      the board; it strictly decreases with every step. */
  function Reach(q: Pos, d: Dir): int {
    match d
    case NW => q.row + 1
    case N  => q.row + 1
    case NE => q.row + 1
    case W  => q.col + 1
    case E  => Size - q.col
    case SW => Size - q.row
    case S  => Size - q.row
    case SE => Size - q.row
  }

  /** The number of consecutive opponent discs (opponent of p) met walking
      from q in direction d while staying on the board: the scanning loop
      of getFlippableDiscs and countCapturesForMove. The result is the
      maximal such run. */
  function RunFrom(b: Board, p: Player, q: Pos, d: Dir): (n: nat)
    decreases if InBounds(q) then Reach(q, d) else 0
    ensures forall k :: 0 <= k < n ==>
              InBounds(Move(q, d, k)) && At(b, Move(q, d, k)) == Disc(Opp(p))
    ensures !(InBounds(Move(q, d, n)) && At(b, Move(q, d, n)) == Disc(Opp(p)))
  {
    assert Move(q, d, 0) == q;
    if InBounds(q) && At(b, q) == Disc(Opp(p)) then
      var rest := RunFrom(b, p, Step(q, d), d);
      RunShift(b, p, q, d, rest);
      1 + rest
    else
      0
  }

  /** A run of n cells from the next cell, preceded by one more opponent
      disc at q, is a run of n + 1 cells from q. */
  lemma RunShift(b: Board, p: Player, q: Pos, d: Dir, n: nat)
    requires InBounds(q) && At(b, q) == Disc(Opp(p))
    requires forall k :: 0 <= k < n ==>
               InBounds(Move(Step(q, d), d, k)) && At(b, Move(Step(q, d), d, k)) == Disc(Opp(p))
    requires !(InBounds(Move(Step(q, d), d, n)) && At(b, Move(Step(q, d), d, n)) == Disc(Opp(p)))
    ensures forall k :: 0 <= k < n + 1 ==>
              InBounds(Move(q, d, k)) && At(b, Move(q, d, k)) == Disc(Opp(p))
    ensures !(InBounds(Move(q, d, n + 1)) && At(b, Move(q, d, n + 1)) == Disc(Opp(p)))
  {
    MoveStep(q, d);
    assert Move(q, d, 0) == q;
    assert forall k :: 1 <= k <= n ==> Move(q, d, k) == Move(Step(q, d), d, k - 1);
  }

  /** The run of opponent discs next to m in direction d (cells 1..n). */
  function Run(b: Board, p: Player, m: Pos, d: Dir): (n: nat)
    ensures forall k :: 1 <= k <= n ==>
              InBounds(Move(m, d, k)) && At(b, Move(m, d, k)) == Disc(Opp(p))
    ensures !(InBounds(Move(m, d, n + 1)) && At(b, Move(m, d, n + 1)) == Disc(Opp(p)))
  {
    MoveStep(m, d);
    var n := RunFrom(b, p, Step(m, d), d);
    assert forall k :: 1 <= k <= n ==> Move(Step(m, d), d, k - 1) == Move(m, d, k);
    n
  }

  /** The direction test of getFlippableDiscs: at least one opponent disc
      next to m along d, and the first cell after the run is on the board
      and holds a disc of p. */
  predicate Sandwiched(b: Board, p: Player, m: Pos, d: Dir) {
    var n := Run(b, p, m, d);
    n > 0 && InBounds(Move(m, d, n + 1)) && At(b, Move(m, d, n + 1)) == Disc(p)
  }

  /** A sandwich of exactly n opponent discs, stated cell by cell. */
  predicate SandwichOfLength(b: Board, p: Player, m: Pos, d: Dir, n: nat) {
    && n >= 1
    && (forall k :: 1 <= k <= n ==>
          InBounds(Move(m, d, k)) && At(b, Move(m, d, k)) == Disc(Opp(p)))
    && InBounds(Move(m, d, n + 1)) && At(b, Move(m, d, n + 1)) == Disc(p)
  }

  /** A sandwich of any length is the one the scanning loop measures. */
  lemma SandwichLength(b: Board, p: Player, m: Pos, d: Dir, n: nat)
    requires SandwichOfLength(b, p, m, d, n)
    ensures n == Run(b, p, m, d)
    ensures Sandwiched(b, p, m, d)
  {
  }

  /** A sandwiched direction is a sandwich of the measured run length. */
  lemma SandwichOfRun(b: Board, p: Player, m: Pos, d: Dir)
    requires Sandwiched(b, p, m, d)
    ensures SandwichOfLength(b, p, m, d, Run(b, p, m, d))
  {
  }

  /** The scanning loop finds a sandwich exactly when one exists. */
  lemma SandwichedIff(b: Board, p: Player, m: Pos, d: Dir)
    ensures Sandwiched(b, p, m, d) <==> exists n: nat :: SandwichOfLength(b, p, m, d, n)
  {
    if Sandwiched(b, p, m, d) {
      SandwichOfRun(b, p, m, d);
    }
    if n: nat :| SandwichOfLength(b, p, m, d, n) {
      SandwichLength(b, p, m, d, n);
    }
  }

  /** A run from q depends only on the cells of its ray. */
  lemma {:induction false} RunFromFrame(b: Board, b': Board, p: Player, q: Pos, d: Dir)
    requires forall k :: k >= 0 && InBounds(Move(q, d, k)) ==> At(b, Move(q, d, k)) == At(b', Move(q, d, k))
    ensures RunFrom(b, p, q, d) == RunFrom(b', p, q, d)
    decreases if InBounds(q) then Reach(q, d) else 0
  {
    assert Move(q, d, 0) == q;
    if InBounds(q) {
      assert At(b, q) == At(b', q);
      if At(b, q) == Disc(Opp(p)) {
        MoveStep(q, d);
        forall k | k >= 0 && InBounds(Move(Step(q, d), d, k))
          ensures At(b, Move(Step(q, d), d, k)) == At(b', Move(Step(q, d), d, k))
        {
          assert Move(Step(q, d), d, k) == Move(q, d, k + 1);
        }
        RunFromFrame(b, b', p, Step(q, d), d);
        assert RunFrom(b, p, q, d) == 1 + RunFrom(b, p, Step(q, d), d);
        assert RunFrom(b', p, q, d) == 1 + RunFrom(b', p, Step(q, d), d);
      } else {
        assert RunFrom(b, p, q, d) == 0 == RunFrom(b', p, q, d);
      }
    } else {
      assert RunFrom(b, p, q, d) == 0 == RunFrom(b', p, q, d);
    }
  }

  /** The run next to m along d, and whether d is sandwiched, depend only
      on the cells of that ray. */
  lemma RayFrame(b: Board, b': Board, p: Player, m: Pos, d: Dir)
    requires forall k :: k >= 1 && InBounds(Move(m, d, k)) ==> At(b, Move(m, d, k)) == At(b', Move(m, d, k))
    ensures Run(b', p, m, d) == Run(b, p, m, d)
    ensures Sandwiched(b', p, m, d) == Sandwiched(b, p, m, d)
  {
    MoveStep(m, d);
    forall k | k >= 0 && InBounds(Move(Step(m, d), d, k))
      ensures At(b, Move(Step(m, d), d, k)) == At(b', Move(Step(m, d), d, k))
    {
      assert Move(Step(m, d), d, k) == Move(m, d, k + 1);
    }
    RunFromFrame(b, b', p, Step(m, d), d);
    var n := Run(b, p, m, d);
    assert Run(b', p, m, d) == n;
    if InBounds(Move(m, d, n + 1)) {
      assert At(b, Move(m, d, n + 1)) == At(b', Move(m, d, n + 1));
    }
  }

  /** Changing a cell that is not on ray d of m changes neither the run
      next to m along d nor whether that direction is sandwiched. */
  lemma SetOffRay(b: Board, p: Player, m: Pos, d: Dir, x: Pos, v: Cell)
    requires InBounds(x) && RayIndex(m, d, x) < 1
    ensures Run(Set(b, x, v), p, m, d) == Run(b, p, m, d)
    ensures Sandwiched(Set(b, x, v), p, m, d) == Sandwiched(b, p, m, d)
  {
    var b' := Set(b, x, v);
    forall k | k >= 1 && InBounds(Move(m, d, k))
      ensures At(b, Move(m, d, k)) == At(b', Move(m, d, k))
    {
      OnRay(m, d, k);
    }
    RayFrame(b, b', p, m, d);
  }

  lemma MoveAtRayIndex(m: Pos, d: Dir, x: Pos)
    requires RayIndex(m, d, x) >= 1
    ensures Move(m, d, RayIndex(m, d, x)) == x
  {
  }

  lemma OnRay(m: Pos, d: Dir, k: int)
    requires k >= 1
    ensures RayIndex(m, d, Move(m, d, k)) == k
  {
  }
}
