/** The 8x8 Othello board: cells, players, positions and disc counting.

    The board is a flat sequence of 64 cells in row-major order, so cell
    (row, col) lives at index 8 * row + col. Row-major enumeration of the
    board is therefore plain index order.
 */
module Board {

  /** The two sides. Black moves first. */
  datatype Player = Black | White

  /** A cell is empty or holds a disc of one of the players. */
  datatype Cell = Empty | Disc(owner: Player)

  /** A zero-based (row, column) coordinate; it may lie off the board. */
  datatype Pos = Pos(row: int, col: int)

  /** Rows and columns of the board, and its number of cells. */
  const Size: int := 8
  const Cells: int := Size * Size

  type Board = b: seq<Cell> | |b| == 64 witness seq(64, _ => Empty)

  /** The other side. */
  function Opp(p: Player): (o: Player)
    ensures o != p
    ensures p == Black ==> o == White
    ensures p == White ==> o == Black
  {
    if p == Black then White else Black
  }

  predicate InBounds(q: Pos) {
    0 <= q.row < Size && 0 <= q.col < Size
  }

  /** Row-major index of an on-board position. */
  function Idx(q: Pos): (i: nat)
    requires InBounds(q)
    ensures i < Cells
  {
    Size * q.row + q.col
  }

  /** The on-board position with row-major index i. */
  function PosOf(i: nat): (q: Pos)
    requires i < Cells
    ensures InBounds(q) && Idx(q) == i
  {
    Pos(i / Size, i % Size)
  }

  lemma IdxInjective(q: Pos, q': Pos)
    requires InBounds(q) && InBounds(q')
    ensures Idx(q) == Idx(q') <==> q == q'
  {
  }

  /** "q comes before q' when the board is read row by row, left to right". */
  predicate RowMajorBefore(q: Pos, q': Pos) {
    q.row < q'.row || (q.row == q'.row && q.col < q'.col)
  }

  lemma RowMajorIsIndexOrder(q: Pos, q': Pos)
    requires InBounds(q) && InBounds(q')
    ensures RowMajorBefore(q, q') <==> Idx(q) < Idx(q')
  {
  }

  function At(b: Board, q: Pos): Cell
    requires InBounds(q)
  {
    b[Idx(q)]
  }

  /** The board with cell q overwritten by v; every other cell is unchanged. */
  function Set(b: Board, q: Pos, v: Cell): (b': Board)
    requires InBounds(q)
    ensures At(b', q) == v
    ensures forall x :: InBounds(x) && x != q ==> At(b', x) == At(b, x)
  {
    b[Idx(q) := v]
  }

  /** The number of cells of s equal to v. */
  function Count(s: seq<Cell>, v: Cell): (n: nat)
    ensures n <= |s|
  {
    if |s| == 0 then 0 else (if s[0] == v then 1 else 0) + Count(s[1..], v)
  }

  /** Discs of both colours on the board. */
  function Discs(b: Board): nat {
    Count(b, Disc(Black)) + Count(b, Disc(White))
  }

  /** Overwriting one cell moves exactly one unit of count from the old
      value to the new one. */
  lemma {:induction false} CountUpdate(s: seq<Cell>, i: nat, w: Cell, v: Cell)
    requires i < |s|
    ensures Count(s[i := w], v)
            == Count(s, v) - (if s[i] == v then 1 else 0) + (if w == v then 1 else 0)
  {
    if i == 0 {
      assert s[i := w][1..] == s[1..];
    } else {
      assert s[i := w][1..] == s[1..][i - 1 := w];
      CountUpdate(s[1..], i - 1, w, v);
    }
  }

  lemma SetCount(b: Board, q: Pos, w: Cell, v: Cell)
    requires InBounds(q)
    ensures Count(Set(b, q, w), v)
            == Count(b, v) - (if At(b, q) == v then 1 else 0) + (if w == v then 1 else 0)
  {
    CountUpdate(b, Idx(q), w, v);
  }

  /** Every cell is exactly one of the three states, so the three counts
      partition the sequence. */
  lemma {:induction false} CountPartition(s: seq<Cell>)
    ensures Count(s, Empty) + Count(s, Disc(Black)) + Count(s, Disc(White)) == |s|
  {
    if |s| > 0 {
      CountPartition(s[1..]);
      assert s[0] == Empty || s[0] == Disc(Black) || s[0] == Disc(White) by {
        if s[0].Disc? {
          assert s[0].owner == Black || s[0].owner == White;
        }
      }
    }
  }

  /** A value with count zero occurs nowhere. */
  lemma {:induction false} CountZero(s: seq<Cell>, v: Cell)
    requires Count(s, v) == 0
    ensures forall i :: 0 <= i < |s| ==> s[i] != v
  {
    if |s| > 0 {
      CountZero(s[1..], v);
      forall i | 1 <= i < |s|
        ensures s[i] != v
      {
        assert s[i] == s[1..][i - 1];
      }
    }
  }

  /** The board with every cell empty. */
  function EmptyBoard(): Board { seq(64, _ => Empty) }

  /** The four centre cells that hold discs in the opening layout. */
  predicate IsCentre(x: Pos) {
    x == Pos(3, 3) || x == Pos(4, 4) || x == Pos(3, 4) || x == Pos(4, 3)
  }

  /** White on (3,3) and (4,4), Black on (3,4) and (4,3), every other
      cell empty. */
  ghost predicate OpeningLayout(b: Board) {
    && At(b, Pos(3, 3)) == Disc(White) && At(b, Pos(4, 4)) == Disc(White)
    && At(b, Pos(3, 4)) == Disc(Black) && At(b, Pos(4, 3)) == Disc(Black)
    && forall x :: InBounds(x) && !IsCentre(x) ==> At(b, x) == Empty
  }

  /** The fixed opening layout of OthelloModel's constructor and resetGame:
      the board is cleared, then the four centre discs are placed. */
  function Opening(): (b: Board)
    ensures OpeningLayout(b)
  {
    Set(Set(Set(Set(EmptyBoard(), Pos(3, 3), Disc(White)), Pos(4, 4), Disc(White)),
            Pos(3, 4), Disc(Black)), Pos(4, 3), Disc(Black))
  }

  /** The opening position holds two discs of each colour and 60 empty cells. */
  lemma OpeningCounts()
    ensures Count(Opening(), Disc(Black)) == 2
    ensures Count(Opening(), Disc(White)) == 2
    ensures Count(Opening(), Empty) == 60
  {
    CentreCounts(EmptyBoard(), Opening());
  }

  /** Placing the four centre discs on an empty board, one cell at a time. */
  lemma CentreCounts(e: Board, b: Board)
    requires forall i :: 0 <= i < |e| ==> e[i] == Empty
    requires b == Set(Set(Set(Set(e, Pos(3, 3), Disc(White)), Pos(4, 4), Disc(White)),
                          Pos(3, 4), Disc(Black)), Pos(4, 3), Disc(Black))
    ensures Count(b, Disc(Black)) == 2 && Count(b, Disc(White)) == 2 && Count(b, Empty) == 60
  {
    CountAll(e, Empty);
    var b0 := Set(e, Pos(3, 3), Disc(White));
    var b1 := Set(b0, Pos(4, 4), Disc(White));
    var b2 := Set(b1, Pos(3, 4), Disc(Black));
    assert At(e, Pos(3, 3)) == Empty && At(e, Pos(4, 4)) == Empty;
    assert At(e, Pos(3, 4)) == Empty && At(e, Pos(4, 3)) == Empty;
    PlaceOnEmpty(e, Pos(3, 3), White);
    PlaceOnEmpty(b0, Pos(4, 4), White);
    PlaceOnEmpty(b1, Pos(3, 4), Black);
    PlaceOnEmpty(b2, Pos(4, 3), Black);
  }

  /** Putting a disc of p on an empty cell moves one unit of count from
      Empty to p. */
  lemma PlaceOnEmpty(b: Board, q: Pos, p: Player)
    requires InBounds(q) && At(b, q) == Empty
    ensures Count(Set(b, q, Disc(p)), Disc(p)) == Count(b, Disc(p)) + 1
    ensures Count(Set(b, q, Disc(p)), Disc(Opp(p))) == Count(b, Disc(Opp(p)))
    ensures Count(Set(b, q, Disc(p)), Empty) == Count(b, Empty) - 1
  {
    SetCount(b, q, Disc(p), Disc(p));
    SetCount(b, q, Disc(p), Disc(Opp(p)));
    SetCount(b, q, Disc(p), Empty);
  }

  /** Turning an opponent disc into a disc of p moves one unit of count
      from the opponent to p. */
  lemma Recolour(b: Board, q: Pos, p: Player)
    requires InBounds(q) && At(b, q) == Disc(Opp(p))
    ensures Count(Set(b, q, Disc(p)), Disc(p)) == Count(b, Disc(p)) + 1
    ensures Count(Set(b, q, Disc(p)), Disc(Opp(p))) == Count(b, Disc(Opp(p))) - 1
    ensures Count(Set(b, q, Disc(p)), Empty) == Count(b, Empty)
  {
    SetCount(b, q, Disc(p), Disc(p));
    SetCount(b, q, Disc(p), Disc(Opp(p)));
    SetCount(b, q, Disc(p), Empty);
  }

  lemma {:induction false} CountAll(s: seq<Cell>, v: Cell)
    requires forall i :: 0 <= i < |s| ==> s[i] == v
    ensures Count(s, v) == |s|
    ensures forall w :: w != v ==> Count(s, w) == 0
  {
    if |s| > 0 {
      CountAll(s[1..], v);
    }
  }
}
