/** Move legality, disc flipping, capture counting and move enumeration:
    the board-level rules of OthelloModel (isValidMove, getFlippableDiscs,
    the flip loop of makeMove, countCapturesForMove, getValidMoves).
 */
module Rules {
  import opened Board
  import opened Rays

  /** The directions of ds, in order, along which a disc of p at m would
      capture: getFlippableDiscs run over the direction list ds. */
  function FlippableFrom(b: Board, p: Player, m: Pos, ds: seq<Dir>): (r: seq<Dir>)
    ensures forall d :: d in r <==> d in ds && Sandwiched(b, p, m, d)
    ensures Distinct(ds) ==> Distinct(r)
  {
    if |ds| == 0 then []
    else
      var rest := FlippableFrom(b, p, m, ds[1..]);
      assert forall d :: d in ds[1..] ==> d in ds;
      if Sandwiched(b, p, m, ds[0]) then
        assert Distinct(ds) ==> ds[0] !in ds[1..];
        [ds[0]] + rest
      else
        rest
  }

  /** getFlippableDiscs: every capturing direction, each once. */
  function FlippableDirs(b: Board, p: Player, m: Pos): (r: seq<Dir>)
    ensures forall d :: d in r <==> Sandwiched(b, p, m, d)
    ensures Distinct(r)
  {
    DirectionsDistinct();
    FlippableFrom(b, p, m, Directions)
  }

  /** isValidMove: the cell must be empty and getFlippableDiscs must find
      at least one direction. */
  function IsValidMove(b: Board, m: Pos, p: Player): (r: bool)
    requires InBounds(m)
    ensures r ==> At(b, m) == Empty
  {
    if At(b, m) != Empty then false
    else |FlippableDirs(b, p, m)| > 0
  }

  /** A move is legal exactly when the cell is empty and at least one of
      the eight directions is a sandwich; in particular an occupied cell
      is never a legal move, for either player. */
  lemma ValidMoveIff(b: Board, m: Pos, p: Player)
    requires InBounds(m)
    ensures IsValidMove(b, m, p) <==> At(b, m) == Empty && exists d :: Sandwiched(b, p, m, d)
    ensures At(b, m) != Empty ==> !IsValidMove(b, m, Black) && !IsValidMove(b, m, White)
  {
    var ds := FlippableDirs(b, p, m);
    if |ds| > 0 {
      assert ds[0] in ds;
    }
  }

  /** countCapturesForMove restricted to the directions ds: the summed
      run lengths of the sandwiched ones. */
  function CapturesFrom(b: Board, p: Player, m: Pos, ds: seq<Dir>): (n: nat)
    ensures n > 0 <==> exists i :: 0 <= i < |ds| && Sandwiched(b, p, m, ds[i])
  {
    if |ds| == 0 then 0
    else
      var rest := CapturesFrom(b, p, m, ds[1..]);
      assert forall i :: 1 <= i < |ds| ==> ds[i] == ds[1..][i - 1];
      assert rest > 0 ==> exists i :: 1 <= i < |ds| && Sandwiched(b, p, m, ds[i]);
      (if Sandwiched(b, p, m, ds[0]) then Run(b, p, m, ds[0]) else 0) + rest
  }

  /** Directions that are not sandwiches add nothing to the count. */
  lemma {:induction false} CapturesFromSkip(b: Board, p: Player, m: Pos, ds: seq<Dir>, k: nat)
    requires k <= |ds|
    requires forall i :: 0 <= i < k ==> !Sandwiched(b, p, m, ds[i])
    ensures CapturesFrom(b, p, m, ds) == CapturesFrom(b, p, m, ds[k..])
  {
    if k > 0 {
      assert ds[1..][k - 1..] == ds[k..];
      CapturesFromSkip(b, p, m, ds[1..], k - 1);
    }
  }

  /** countCapturesForMove: how many opponent discs a move of p at m
      flips. It is positive exactly when some direction is a sandwich. */
  function Captures(b: Board, m: Pos, p: Player): (n: nat)
    ensures n > 0 <==> exists d :: Sandwiched(b, p, m, d)
  {
    AllDirectionsCapture(b, p, m);
    CapturesFrom(b, p, m, Directions)
  }

  /** Over the whole direction table, "some listed direction is a
      sandwich" is "some direction is a sandwich". */
  lemma AllDirectionsCapture(b: Board, p: Player, m: Pos)
    ensures CapturesFrom(b, p, m, Directions) > 0 <==> exists d :: Sandwiched(b, p, m, d)
  {
    DirectionsDistinct();
    if CapturesFrom(b, p, m, Directions) > 0 {
      var i :| 0 <= i < |Directions| && Sandwiched(b, p, m, Directions[i]);
    }
    if d :| Sandwiched(b, p, m, d) {
      assert d in Directions;
      var i :| 0 <= i < |Directions| && Directions[i] == d;
    }
  }

  /** The flip loop of makeMove along one direction: starting k steps from
      m, turn opponent discs into discs of p until the loop meets a cell
      that is not an opponent disc. The run has n discs and ends, on the
      board, at a disc of p; the requires are exactly what keeps every
      cell the loop reads on the board. */
  function FlipRay(b: Board, p: Player, m: Pos, d: Dir, k: nat, ghost n: nat): Board
    requires 1 <= k <= n + 1
    requires forall j :: k <= j <= n ==>
               InBounds(Move(m, d, j)) && At(b, Move(m, d, j)) == Disc(Opp(p))
    requires InBounds(Move(m, d, n + 1)) && At(b, Move(m, d, n + 1)) == Disc(p)
    decreases n + 1 - k
  {
    var q := Move(m, d, k);
    if At(b, q) == Disc(Opp(p)) then
      var b' := Set(b, q, Disc(p));
      OnRay(m, d, k);
      assert forall j :: k < j <= n + 1 ==> RayIndex(m, d, Move(m, d, j)) == j;
      FlipRay(b', p, m, d, k + 1, n)
    else
      b
  }

  /** One turn of the flip loop: the cell k steps out is an opponent disc,
      it becomes a disc of p, and the loop carries on from k + 1 with the
      rest of the run untouched. */
  lemma FlipStep(b: Board, p: Player, m: Pos, d: Dir, k: nat, n: nat)
    requires 1 <= k <= n
    requires forall j :: k <= j <= n ==>
               InBounds(Move(m, d, j)) && At(b, Move(m, d, j)) == Disc(Opp(p))
    requires InBounds(Move(m, d, n + 1)) && At(b, Move(m, d, n + 1)) == Disc(p)
    ensures InBounds(Move(m, d, k)) && At(b, Move(m, d, k)) == Disc(Opp(p))
    ensures var b' := Set(b, Move(m, d, k), Disc(p));
            && (forall j :: k + 1 <= j <= n ==>
                  InBounds(Move(m, d, j)) && At(b', Move(m, d, j)) == Disc(Opp(p)))
            && InBounds(Move(m, d, n + 1)) && At(b', Move(m, d, n + 1)) == Disc(p)
            && FlipRay(b, p, m, d, k, n) == FlipRay(b', p, m, d, k + 1, n)
  {
    OnRay(m, d, k);
    assert forall j :: k < j <= n + 1 ==> RayIndex(m, d, Move(m, d, j)) == j;
  }

  /** The flip loop turns exactly the cells k..n steps out into discs of
      p and leaves every other cell alone. */
  lemma {:induction false} FlipRayEffect(b: Board, p: Player, m: Pos, d: Dir, k: nat, n: nat)
    requires 1 <= k <= n + 1
    requires forall j :: k <= j <= n ==>
               InBounds(Move(m, d, j)) && At(b, Move(m, d, j)) == Disc(Opp(p))
    requires InBounds(Move(m, d, n + 1)) && At(b, Move(m, d, n + 1)) == Disc(p)
    decreases n + 1 - k
    ensures forall x :: InBounds(x) ==>
              At(FlipRay(b, p, m, d, k, n), x)
              == if k <= RayIndex(m, d, x) <= n then Disc(p) else At(b, x)
  {
    var q := Move(m, d, k);
    if k <= n {
      var b' := Set(b, q, Disc(p));
      FlipStep(b, p, m, d, k, n);
      var r := FlipRay(b', p, m, d, k + 1, n);
      FlipRayEffect(b', p, m, d, k + 1, n);
      forall x | InBounds(x)
        ensures At(r, x) == if k <= RayIndex(m, d, x) <= n then Disc(p) else At(b, x)
      {
        if RayIndex(m, d, x) == k {
          MoveAtRayIndex(m, d, x);
        }
      }
    } else {
      assert At(b, q) == Disc(p);
    }
  }

  /** The flip loop moves n + 1 - k discs from the opponent's count to p's
      and leaves the number of empty cells alone. */
  lemma {:induction false} FlipRayCounts(b: Board, p: Player, m: Pos, d: Dir, k: nat, n: nat)
    requires 1 <= k <= n + 1
    requires forall j :: k <= j <= n ==>
               InBounds(Move(m, d, j)) && At(b, Move(m, d, j)) == Disc(Opp(p))
    requires InBounds(Move(m, d, n + 1)) && At(b, Move(m, d, n + 1)) == Disc(p)
    decreases n + 1 - k
    ensures Count(FlipRay(b, p, m, d, k, n), Disc(p)) == Count(b, Disc(p)) + (n + 1 - k)
    ensures Count(FlipRay(b, p, m, d, k, n), Disc(Opp(p))) == Count(b, Disc(Opp(p))) - (n + 1 - k)
    ensures Count(FlipRay(b, p, m, d, k, n), Empty) == Count(b, Empty)
  {
    var q := Move(m, d, k);
    if k <= n {
      FlipStep(b, p, m, d, k, n);
      Recolour(b, q, p);
      FlipRayCounts(Set(b, q, Disc(p)), p, m, d, k + 1, n);
    } else {
      assert At(b, q) == Disc(p);
      assert FlipRay(b, p, m, d, k, n) == b;
    }
  }

  /** The sum of a sequence of run lengths. */
  function Sum(ns: seq<nat>): nat {
    if |ns| == 0 then 0 else ns[0] + Sum(ns[1..])
  }

  /** x lies inside one of the runs: for some i, it is between 1 and
      runs[i] steps from m along ds[i]. */
  predicate OnSomeRun(m: Pos, ds: seq<Dir>, runs: seq<nat>, x: Pos)
    requires |runs| == |ds|
  {
    |ds| > 0 && (1 <= RayIndex(m, ds[0], x) <= runs[0] || OnSomeRun(m, ds[1..], runs[1..], x))
  }

  /** The for-loop of makeMove over the capturing directions ds, whose
      sandwiches have lengths runs. */
  function FlipAll(b: Board, p: Player, m: Pos, ds: seq<Dir>, ghost runs: seq<nat>): Board
    requires |runs| == |ds| && Distinct(ds)
    requires forall i :: 0 <= i < |ds| ==> SandwichOfLength(b, p, m, ds[i], runs[i])
    decreases |ds|
  {
    if |ds| == 0 then b
    else
      FlipKeepsLaterSandwiches(b, p, m, ds, runs);
      FlipAll(FlipRay(b, p, m, ds[0], 1, runs[0]), p, m, ds[1..], runs[1..])
  }

  /** The for-loop of makeMove turns exactly the cells on the runs into
      discs of p and leaves every other cell alone. */
  lemma {:induction false} FlipAllEffect(b: Board, p: Player, m: Pos, ds: seq<Dir>, runs: seq<nat>)
    requires |runs| == |ds| && Distinct(ds)
    requires forall i :: 0 <= i < |ds| ==> SandwichOfLength(b, p, m, ds[i], runs[i])
    decreases |ds|
    ensures forall x :: InBounds(x) ==>
              At(FlipAll(b, p, m, ds, runs), x) == if OnSomeRun(m, ds, runs, x) then Disc(p) else At(b, x)
  {
    if |ds| > 0 {
      FlipKeepsLaterSandwiches(b, p, m, ds, runs);
      var b' := FlipRay(b, p, m, ds[0], 1, runs[0]);
      FlipRayEffect(b, p, m, ds[0], 1, runs[0]);
      FlipAllEffect(b', p, m, ds[1..], runs[1..]);
      assert FlipAll(b, p, m, ds, runs) == FlipAll(b', p, m, ds[1..], runs[1..]);
    }
  }

  /** After the first run is flipped, the remaining directions are still
      sandwiches of the same lengths. */
  lemma FlipKeepsLaterSandwiches(b: Board, p: Player, m: Pos, ds: seq<Dir>, runs: seq<nat>)
    requires |runs| == |ds| > 0 && Distinct(ds)
    requires forall i :: 0 <= i < |ds| ==> SandwichOfLength(b, p, m, ds[i], runs[i])
    ensures Distinct(ds[1..]) && SandwichOfLength(b, p, m, ds[0], runs[0])
    ensures forall i :: 0 <= i < |ds| - 1 ==>
              SandwichOfLength(FlipRay(b, p, m, ds[0], 1, runs[0]), p, m, ds[1..][i], runs[1..][i])
  {
    assert SandwichOfLength(b, p, m, ds[0], runs[0]);
    forall i | 0 <= i < |ds| - 1
      ensures SandwichOfLength(FlipRay(b, p, m, ds[0], 1, runs[0]), p, m, ds[1..][i], runs[1..][i])
    {
      FlipKeepsSandwich(b, p, m, ds[0], runs[0], ds[i + 1], runs[i + 1]);
    }
  }

  /** The for-loop of makeMove moves the summed run lengths from the
      opponent's count to p's and leaves the empty cells alone. */
  lemma {:induction false} FlipAllCounts(b: Board, p: Player, m: Pos, ds: seq<Dir>, runs: seq<nat>)
    requires |runs| == |ds| && Distinct(ds)
    requires forall i :: 0 <= i < |ds| ==> SandwichOfLength(b, p, m, ds[i], runs[i])
    decreases |ds|
    ensures Count(FlipAll(b, p, m, ds, runs), Disc(p)) == Count(b, Disc(p)) + Sum(runs)
    ensures Count(FlipAll(b, p, m, ds, runs), Disc(Opp(p))) == Count(b, Disc(Opp(p))) - Sum(runs)
    ensures Count(FlipAll(b, p, m, ds, runs), Empty) == Count(b, Empty)
  {
    if |ds| > 0 {
      assert SandwichOfLength(b, p, m, ds[0], runs[0]);
      var b' := FlipRay(b, p, m, ds[0], 1, runs[0]);
      FlipRayCounts(b, p, m, ds[0], 1, runs[0]);
      FlipKeepsLaterSandwiches(b, p, m, ds, runs);
      FlipAllCounts(b', p, m, ds[1..], runs[1..]);
      assert FlipAll(b, p, m, ds, runs) == FlipAll(b', p, m, ds[1..], runs[1..]);
    }
  }

  /** Flipping the run along d leaves a sandwich along any other direction
      intact, because different rays out of m share no cell. */
  lemma FlipKeepsSandwich(b: Board, p: Player, m: Pos, d: Dir, n: nat, d': Dir, n': nat)
    requires SandwichOfLength(b, p, m, d, n) && SandwichOfLength(b, p, m, d', n') && d != d'
    ensures SandwichOfLength(FlipRay(b, p, m, d, 1, n), p, m, d', n')
  {
    var b' := FlipRay(b, p, m, d, 1, n);
    FlipRayEffect(b, p, m, d, 1, n);
    forall k | 1 <= k <= n' + 1
      ensures InBounds(Move(m, d', k)) && At(b', Move(m, d', k)) == At(b, Move(m, d', k))
    {
      OnRay(m, d', k);
      if RayIndex(m, d, Move(m, d', k)) >= 1 {
        RaysDisjoint(m, d, d', Move(m, d', k));
      }
    }
    SandwichFrame(b, b', p, m, d', n');
  }

  /** A sandwich survives any change that keeps the cells of its ray. */
  lemma SandwichFrame(b: Board, b': Board, p: Player, m: Pos, d: Dir, n: nat)
    requires SandwichOfLength(b, p, m, d, n)
    requires forall k :: 1 <= k <= n + 1 ==>
               InBounds(Move(m, d, k)) && At(b', Move(m, d, k)) == At(b, Move(m, d, k))
    ensures SandwichOfLength(b', p, m, d, n)
  {
  }

  /** The ghost run lengths of the directions ds. */
  function RunsOf(b: Board, p: Player, m: Pos, ds: seq<Dir>): (runs: seq<nat>)
    ensures |runs| == |ds|
    ensures forall i :: 0 <= i < |ds| ==> runs[i] == Run(b, p, m, ds[i])
  {
    if |ds| == 0 then [] else [Run(b, p, m, ds[0])] + RunsOf(b, p, m, ds[1..])
  }

  /** Cell x is captured by a move of p at m: it lies inside the opponent
      run of a sandwiched direction. This is the rule's own description,
      independent of the order in which the loops visit directions. */
  ghost predicate Captured(b: Board, p: Player, m: Pos, x: Pos) {
    exists d :: Sandwiched(b, p, m, d) && 1 <= RayIndex(m, d, x) <= Run(b, p, m, d)
  }

  /** The board after makeMove: the mover's disc is placed on the target,
      the capturing directions are computed on that board, and each of
      their runs is flipped. */
  function Play(b: Board, m: Pos, p: Player): (r: Board)
    requires InBounds(m) && IsValidMove(b, m, p)
    ensures At(r, m) == Disc(p) != At(b, m)
  {
    var b1 := Set(b, m, Disc(p));
    var ds := FlippableDirs(b1, p, m);
    var runs := RunsOf(b1, p, m, ds);
    FlippableRuns(b1, p, m);
    FlipAllEffect(b1, p, m, ds, runs);
    TargetOnNoRun(m, ds, runs);
    FlipAll(b1, p, m, ds, runs)
  }

  /** The target itself lies on none of the rays leaving it, so the flip
      loops never write it. */
  lemma {:induction false} TargetOnNoRun(m: Pos, ds: seq<Dir>, runs: seq<nat>)
    requires |runs| == |ds|
    ensures !OnSomeRun(m, ds, runs, m)
  {
    if |ds| > 0 {
      assert RayIndex(m, ds[0], m) < 1;
      TargetOnNoRun(m, ds[1..], runs[1..]);
    }
  }

  /** Each capturing direction is a sandwich of its measured length. */
  lemma FlippableRuns(b: Board, p: Player, m: Pos)
    ensures var ds := FlippableDirs(b, p, m);
            forall i :: 0 <= i < |ds| ==> SandwichOfLength(b, p, m, ds[i], RunsOf(b, p, m, ds)[i])
  {
    var ds := FlippableDirs(b, p, m);
    forall i | 0 <= i < |ds|
      ensures SandwichOfLength(b, p, m, ds[i], RunsOf(b, p, m, ds)[i])
    {
      assert ds[i] in ds;
      SandwichOfRun(b, p, m, ds[i]);
    }
  }

  /** A cell inside the i-th run is on some run. */
  lemma {:induction false} OnSomeRunAt(m: Pos, ds: seq<Dir>, runs: seq<nat>, x: Pos, i: nat)
    requires |runs| == |ds| && i < |ds| && 1 <= RayIndex(m, ds[i], x) <= runs[i]
    ensures OnSomeRun(m, ds, runs, x)
  {
    if i > 0 {
      OnSomeRunAt(m, ds[1..], runs[1..], x, i - 1);
    }
  }

  /** A cell on some run lies inside the i-th run for some i. */
  lemma {:induction false} OnSomeRunIndex(m: Pos, ds: seq<Dir>, runs: seq<nat>, x: Pos) returns (i: nat)
    requires |runs| == |ds| && OnSomeRun(m, ds, runs, x)
    ensures i < |ds| && 1 <= RayIndex(m, ds[i], x) <= runs[i]
  {
    if 1 <= RayIndex(m, ds[0], x) <= runs[0] {
      i := 0;
    } else {
      var j := OnSomeRunIndex(m, ds[1..], runs[1..], x);
      i := j + 1;
    }
  }

  /** Placing a disc at m changes no ray out of m. */
  lemma PlaceKeepsRays(b: Board, p: Player, m: Pos, v: Cell)
    requires InBounds(m)
    ensures forall d :: Run(Set(b, m, v), p, m, d) == Run(b, p, m, d)
    ensures forall d :: Sandwiched(Set(b, m, v), p, m, d) == Sandwiched(b, p, m, d)
  {
    forall d
      ensures Run(Set(b, m, v), p, m, d) == Run(b, p, m, d)
      ensures Sandwiched(Set(b, m, v), p, m, d) == Sandwiched(b, p, m, d)
    {
      SetOffRay(b, p, m, d, m, v);
    }
  }

  /** The flipped runs of Play are exactly the captured cells. */
  lemma PlayRunsAreCaptures(b: Board, m: Pos, p: Player, x: Pos)
    requires InBounds(m)
    ensures var b1 := Set(b, m, Disc(p));
            var ds := FlippableDirs(b1, p, m);
            OnSomeRun(m, ds, RunsOf(b1, p, m, ds), x) <==> Captured(b, p, m, x)
  {
    var b1 := Set(b, m, Disc(p));
    var ds := FlippableDirs(b1, p, m);
    var runs := RunsOf(b1, p, m, ds);
    if Captured(b, p, m, x) {
      var d :| Sandwiched(b, p, m, d) && 1 <= RayIndex(m, d, x) <= Run(b, p, m, d);
      CapturedIsFlipped(b, m, p, x, d);
    }
    if OnSomeRun(m, ds, runs, x) {
      FlippedIsCaptured(b, m, p, x);
    }
  }

  /** A captured cell lies on one of the runs Play flips. */
  lemma CapturedIsFlipped(b: Board, m: Pos, p: Player, x: Pos, d: Dir)
    requires InBounds(m)
    requires Sandwiched(b, p, m, d) && 1 <= RayIndex(m, d, x) <= Run(b, p, m, d)
    ensures var b1 := Set(b, m, Disc(p));
            var ds := FlippableDirs(b1, p, m);
            OnSomeRun(m, ds, RunsOf(b1, p, m, ds), x)
  {
    var b1 := Set(b, m, Disc(p));
    var ds := FlippableDirs(b1, p, m);
    var runs := RunsOf(b1, p, m, ds);
    SetOffRay(b, p, m, d, m, Disc(p));
    var i := FlippableIndex(b1, p, m, d);
    OnSomeRunAt(m, ds, runs, x, i);
  }

  /** Where a sandwiched direction sits in the list getFlippableDiscs
      returns. */
  lemma FlippableIndex(b: Board, p: Player, m: Pos, d: Dir) returns (i: nat)
    requires Sandwiched(b, p, m, d)
    ensures i < |FlippableDirs(b, p, m)| && FlippableDirs(b, p, m)[i] == d
  {
    var ds := FlippableDirs(b, p, m);
    assert d in ds;
    i :| 0 <= i < |ds| && ds[i] == d;
  }

  /** A cell on one of the runs Play flips is captured. */
  lemma FlippedIsCaptured(b: Board, m: Pos, p: Player, x: Pos)
    requires InBounds(m)
    requires var b1 := Set(b, m, Disc(p));
             var ds := FlippableDirs(b1, p, m);
             OnSomeRun(m, ds, RunsOf(b1, p, m, ds), x)
    ensures Captured(b, p, m, x)
  {
    var b1 := Set(b, m, Disc(p));
    var ds := FlippableDirs(b1, p, m);
    var runs := RunsOf(b1, p, m, ds);
    var i := OnSomeRunIndex(m, ds, runs, x);
    var d := ds[i];
    assert d in ds;
    SetOffRay(b, p, m, d, m, Disc(p));
    assert Sandwiched(b, p, m, d) && 1 <= RayIndex(m, d, x) <= Run(b, p, m, d);
  }

  /** What makeMove does to the board: the target holds the mover's disc,
      exactly the captured cells turn to the mover, each of them held an
      opponent disc before, and every other cell is unchanged. */
  lemma PlayEffect(b: Board, m: Pos, p: Player)
    requires InBounds(m) && IsValidMove(b, m, p)
    ensures At(Play(b, m, p), m) == Disc(p)
    ensures forall x :: InBounds(x) && x != m ==>
              At(Play(b, m, p), x) == if Captured(b, p, m, x) then Disc(p) else At(b, x)
    ensures forall x :: InBounds(x) && Captured(b, p, m, x) ==> At(b, x) == Disc(Opp(p))
  {
    var b1 := Set(b, m, Disc(p));
    var ds := FlippableDirs(b1, p, m);
    var runs := RunsOf(b1, p, m, ds);
    FlippableRuns(b1, p, m);
    FlipAllEffect(b1, p, m, ds, runs);
    PlayRunsAreCaptures(b, m, p, m);
    forall x | InBounds(x) && x != m
      ensures At(Play(b, m, p), x) == if Captured(b, p, m, x) then Disc(p) else At(b, x)
    {
      PlayRunsAreCaptures(b, m, p, x);
    }
    forall x | InBounds(x) && Captured(b, p, m, x)
      ensures At(b, x) == Disc(Opp(p))
    {
      var d :| Sandwiched(b, p, m, d) && 1 <= RayIndex(m, d, x) <= Run(b, p, m, d);
      RayIndexMove(m, d);
    }
  }

  /** Summing the runs of the capturing directions, as the flip loop does,
      gives the same number as countCapturesForMove. */
  lemma {:induction false} FlippedRunsSum(b: Board, p: Player, m: Pos, ds: seq<Dir>)
    ensures Sum(RunsOf(b, p, m, FlippableFrom(b, p, m, ds))) == CapturesFrom(b, p, m, ds)
  {
    if |ds| > 0 {
      FlippedRunsSum(b, p, m, ds[1..]);
      var rest := FlippableFrom(b, p, m, ds[1..]);
      if Sandwiched(b, p, m, ds[0]) {
        var fs := [ds[0]] + rest;
        assert fs[1..] == rest;
        assert RunsOf(b, p, m, fs)[1..] == RunsOf(b, p, m, rest);
      }
    }
  }

  /** Capture counts along rays out of m do not depend on the cell m. */
  lemma {:induction false} CapturesFromPlace(b: Board, p: Player, m: Pos, v: Cell, ds: seq<Dir>)
    requires InBounds(m)
    ensures CapturesFrom(Set(b, m, v), p, m, ds) == CapturesFrom(b, p, m, ds)
  {
    if |ds| > 0 {
      PlaceKeepsRays(b, p, m, v);
      CapturesFromPlace(b, p, m, v, ds[1..]);
    }
  }

  /** The disc arithmetic of makeMove: the mover gains the placed disc and
      every captured one, the opponent loses exactly countCapturesForMove
      discs, and the number of discs on the board rises by exactly one. */
  lemma PlayCounts(b: Board, m: Pos, p: Player)
    requires InBounds(m) && IsValidMove(b, m, p)
    ensures Captures(b, m, p) >= 1
    ensures Count(Play(b, m, p), Disc(p)) == Count(b, Disc(p)) + 1 + Captures(b, m, p)
    ensures Count(Play(b, m, p), Disc(Opp(p))) == Count(b, Disc(Opp(p))) - Captures(b, m, p)
    ensures Count(Play(b, m, p), Empty) == Count(b, Empty) - 1
    ensures Discs(Play(b, m, p)) == Discs(b) + 1
  {
    ValidMoveIff(b, m, p);
    var b1 := Set(b, m, Disc(p));
    DirectionsDistinct();
    var ds := FlippableDirs(b1, p, m);
    assert ds == FlippableFrom(b1, p, m, Directions);
    FlippedRunsSum(b1, p, m, Directions);
    CapturesFromPlace(b, p, m, Disc(p), Directions);
    PlaceOnEmpty(b, m, p);
    FlippableRuns(b1, p, m);
    FlipAllCounts(b1, p, m, ds, RunsOf(b1, p, m, ds));
    if p == Black {
      assert Discs(b) == Count(b, Disc(p)) + Count(b, Disc(Opp(p)));
    } else {
      assert Discs(b) == Count(b, Disc(Opp(p))) + Count(b, Disc(p));
    }
  }

  /** getValidMoves from row-major index i on: the legal cells for p, in
      the order of the nested row and column loops. */
  function ValidMovesFrom(b: Board, p: Player, i: nat): seq<Pos>
    requires i <= Cells
    decreases Cells - i
  {
    if i == Cells then []
    else if IsValidMove(b, PosOf(i), p) then [PosOf(i)] + ValidMovesFrom(b, p, i + 1)
    else ValidMovesFrom(b, p, i + 1)
  }

  /** Every cell collected from index i on is an on-board legal move at
      or after i. */
  lemma {:induction false} ValidMovesFromSound(b: Board, p: Player, i: nat)
    requires i <= Cells
    decreases Cells - i
    ensures forall q :: q in ValidMovesFrom(b, p, i) ==> InBounds(q) && i <= Idx(q) && IsValidMove(b, q, p)
  {
    if i < Cells {
      ValidMovesFromSound(b, p, i + 1);
    }
  }

  /** Every on-board legal move at or after index i is collected. */
  lemma {:induction false} ValidMovesFromComplete(b: Board, p: Player, i: nat)
    requires i <= Cells
    decreases Cells - i
    ensures forall q :: InBounds(q) && i <= Idx(q) && IsValidMove(b, q, p) ==> q in ValidMovesFrom(b, p, i)
  {
    if i < Cells {
      ValidMovesFromComplete(b, p, i + 1);
      forall x | InBounds(x) && i <= Idx(x) && x != PosOf(i)
        ensures i + 1 <= Idx(x)
      {
        IdxInjective(x, PosOf(i));
      }
    }
  }

  /** The cells collected from index i on come in strictly increasing
      row-major order. */
  lemma {:induction false} ValidMovesFromSorted(b: Board, p: Player, i: nat)
    requires i <= Cells
    decreases Cells - i
    ensures RowMajorSorted(ValidMovesFrom(b, p, i))
  {
    if i < Cells {
      var q := PosOf(i);
      var rest := ValidMovesFrom(b, p, i + 1);
      ValidMovesFromSorted(b, p, i + 1);
      if IsValidMove(b, q, p) {
        ValidMovesFromSound(b, p, i + 1);
        forall x | x in rest
          ensures RowMajorBefore(q, x)
        {
          RowMajorIsIndexOrder(q, x);
        }
        SortedCons(q, rest);
      }
    }
  }

  /** Strictly increasing row-major order, pair by pair. */
  predicate RowMajorSorted(r: seq<Pos>) {
    forall j, k :: 0 <= j < k < |r| ==> RowMajorBefore(r[j], r[k])
  }

  lemma SortedCons(q: Pos, rest: seq<Pos>)
    requires RowMajorSorted(rest)
    requires forall x :: x in rest ==> RowMajorBefore(q, x)
    ensures RowMajorSorted([q] + rest)
  {
    var r := [q] + rest;
    forall j, k | 0 <= j < k < |r|
      ensures RowMajorBefore(r[j], r[k])
    {
      assert r[k] == rest[k - 1];
      if j > 0 {
        assert r[j] == rest[j - 1];
      }
    }
  }

  /** getValidMoves: exactly the on-board cells where p may legally move,
      each once, in row-major order. */
  function ValidMoves(b: Board, p: Player): (r: seq<Pos>)
    ensures forall q :: q in r <==> InBounds(q) && IsValidMove(b, q, p)
    ensures forall j, k :: 0 <= j < k < |r| ==> RowMajorBefore(r[j], r[k])
    ensures forall j, k :: 0 <= j < k < |r| ==> r[j] != r[k]
  {
    ValidMovesFromSound(b, p, 0);
    ValidMovesFromComplete(b, p, 0);
    ValidMovesFromSorted(b, p, 0);
    ValidMovesFrom(b, p, 0)
  }
}
