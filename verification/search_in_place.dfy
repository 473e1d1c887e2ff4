/** The search as the game manager runs it: on one shared 3×3 array that
    every step writes a speculative mark into, recurses on, and then resets
    to available. */
module SearchInPlace {
  import opened Board
  import opened Search

  /** The array's contents as a row-major grid. */
  function Snapshot(a: array2<Cell>): (g: Grid)
    requires a.Length0 == 3 && a.Length1 == 3
    reads a
  {
    [a[0, 0], a[0, 1], a[0, 2], a[1, 0], a[1, 1], a[1, 2], a[2, 0], a[2, 1], a[2, 2]]
  }

  /** Cell [x, y] of the array is cell Index(x, y) of its snapshot. */
  lemma SnapshotAt(a: array2<Cell>, x: nat, y: nat)
    requires a.Length0 == 3 && a.Length1 == 3 && x < 3 && y < 3
    ensures Snapshot(a)[Index(x, y)] == a[x, y]
  {
  }

  /** One write into the array: the snapshot changes in that cell only. */
  method Put(a: array2<Cell>, x: nat, y: nat, c: Cell)
    requires a.Length0 == 3 && a.Length1 == 3 && x < 3 && y < 3
    modifies a
    ensures Snapshot(a) == old(Snapshot(a))[Index(x, y) := c]
  {
    a[x, y] := c;
  }

  /** Writing a mark into an available cell and then resetting it to
      available gives back the grid. */
  lemma Restore(g: Grid, i: nat, c: Cell)
    requires i < 9 && g[i] == Available
    ensures g[i := c][i := Available] == g
  {
  }

  /** One turn of the loop over children. */
  lemma MinChildrenStep(g: Grid, i: nat, best: int)
    requires i < 9
    ensures MinChildren(g, i, best)
         == if g[i] == Available then MinChildren(g, i + 1, Min(best, MiniMax(PlaceAI(g, i)))) else MinChildren(g, i + 1, best)
  {
  }

  /** The minimax search on the shared array. It leaves the array as it
      found it and returns the score of the functional search. */
  method MiniMaxInPlace(a: array2<Cell>, depth: int) returns (best: int)
    requires a.Length0 == 3 && a.Length1 == 3
    modifies a
    ensures Snapshot(a) == old(Snapshot(a))
    ensures best == MiniMax(old(Snapshot(a)))
    decreases AvailableCount(Snapshot(a)), 3
  {
    var score := Evaluate(Snapshot(a));
    best := 11;
    if score == 10 || score == -10 {
      return score;
    }
    if !AvailableTilesLeft(Snapshot(a)) {
      return 0;
    }
    best := MinChildrenInPlace(a, Snapshot(a), depth, best);
  }

  /** The nested loop of the minimax search: every available cell in
      row-major order gets a speculative AI mark, the search recurses with
      the depth one greater (a value it never reads), and the cell is reset
      to available. This is the outer loop, over rows. */
  method MinChildrenInPlace(a: array2<Cell>, ghost g: Grid, depth: int, best0: int) returns (best: int)
    requires a.Length0 == 3 && a.Length1 == 3
    requires Snapshot(a) == g
    modifies a
    ensures Snapshot(a) == g
    ensures best == MinChildren(g, 0, best0)
    decreases AvailableCount(g), 2
  {
    best := best0;
    for x := 0 to 3
      invariant Snapshot(a) == g
      invariant MinChildren(g, 3 * x, best) == MinChildren(g, 0, best0)
    {
      best := RowInPlace(a, g, x, depth, best);
    }
  }

  /** The inner loop, over the columns of row x. */
  method RowInPlace(a: array2<Cell>, ghost g: Grid, x: nat, depth: int, best0: int) returns (best: int)
    requires a.Length0 == 3 && a.Length1 == 3 && x < 3
    requires Snapshot(a) == g
    modifies a
    ensures Snapshot(a) == g
    ensures MinChildren(g, 3 * x, best0) == MinChildren(g, 3 * x + 3, best)
    decreases AvailableCount(g), 1
  {
    best := best0;
    for y := 0 to 3
      invariant Snapshot(a) == g
      invariant MinChildren(g, 3 * x, best0) == MinChildren(g, 3 * x + y, best)
    {
      best := ChildInPlace(a, g, x, y, depth, best);
    }
  }

  /** One turn of that loop: cell [x, y], if available, is scored with an
      AI mark in it and reset. */
  method ChildInPlace(a: array2<Cell>, ghost g: Grid, x: nat, y: nat, depth: int, best0: int) returns (best: int)
    requires a.Length0 == 3 && a.Length1 == 3 && x < 3 && y < 3
    requires Snapshot(a) == g
    modifies a
    ensures Snapshot(a) == g
    ensures MinChildren(g, Index(x, y), best0) == MinChildren(g, Index(x, y) + 1, best)
    decreases AvailableCount(g), 0
  {
    best := best0;
    SnapshotAt(a, x, y);
    MinChildrenStep(g, Index(x, y), best);
    if a[x, y] == Available {
      Put(a, x, y, AI);
      PlaceAIFillsOne(g, Index(x, y));
      var v := MiniMaxInPlace(a, depth + 1);
      best := Min(best, v);
      Put(a, x, y, Available);
      Restore(g, Index(x, y), AI);
    }
  }

  /** The best-move search on the shared array: each available cell gets a
      speculative player mark, is scored, and is reset. The array is left
      as it was found and the result is that of the functional search. */
  method FindBestMoveInPlace(a: array2<Cell>) returns (bestMove: Placement)
    requires a.Length0 == 3 && a.Length1 == 3
    modifies a
    ensures Snapshot(a) == old(Snapshot(a))
    ensures bestMove == FindBestMove(old(Snapshot(a)))
  {
    ghost var g := Snapshot(a);
    var bestValue := -1000;
    bestMove := Placement(0, 0);
    for x := 0 to 3
      invariant Snapshot(a) == g
      invariant 0 <= bestMove.row < 3 && 0 <= bestMove.column < 3
      invariant FindBestMoveFrom(g, 3 * x, bestValue, bestMove) == FindBestMove(g)
    {
      bestValue, bestMove := BestInRow(a, g, x, bestValue, bestMove);
    }
  }

  /** The inner loop of the best-move search, over the columns of row x. */
  method BestInRow(a: array2<Cell>, ghost g: Grid, x: nat, value0: int, move0: Placement) returns (bestValue: int, bestMove: Placement)
    requires a.Length0 == 3 && a.Length1 == 3 && x < 3
    requires Snapshot(a) == g
    requires 0 <= move0.row < 3 && 0 <= move0.column < 3
    modifies a
    ensures Snapshot(a) == g
    ensures 0 <= bestMove.row < 3 && 0 <= bestMove.column < 3
    ensures FindBestMoveFrom(g, 3 * x, value0, move0) == FindBestMoveFrom(g, 3 * x + 3, bestValue, bestMove)
  {
    bestValue, bestMove := value0, move0;
    for y := 0 to 3
      invariant Snapshot(a) == g
      invariant 0 <= bestMove.row < 3 && 0 <= bestMove.column < 3
      invariant FindBestMoveFrom(g, 3 * x, value0, move0) == FindBestMoveFrom(g, 3 * x + y, bestValue, bestMove)
    {
      bestValue, bestMove := BestAtCell(a, g, x, y, bestValue, bestMove);
    }
  }

  /** One turn of that loop: cell [x, y], if available, is scored with a
      player mark in it and reset, and replaces the candidate only when its
      score is strictly greater. */
  method BestAtCell(a: array2<Cell>, ghost g: Grid, x: nat, y: nat, value0: int, move0: Placement) returns (bestValue: int, bestMove: Placement)
    requires a.Length0 == 3 && a.Length1 == 3 && x < 3 && y < 3
    requires Snapshot(a) == g
    requires 0 <= move0.row < 3 && 0 <= move0.column < 3
    modifies a
    ensures Snapshot(a) == g
    ensures 0 <= bestMove.row < 3 && 0 <= bestMove.column < 3
    ensures FindBestMoveFrom(g, Index(x, y), value0, move0) == FindBestMoveFrom(g, Index(x, y) + 1, bestValue, bestMove)
  {
    bestValue, bestMove := value0, move0;
    SnapshotAt(a, x, y);
    IndexRowColumn(x, y);
    if a[x, y] == Available {
      Put(a, x, y, Player);
      var moveValue := MiniMaxInPlace(a, 0);
      Put(a, x, y, Available);
      Restore(g, Index(x, y), Player);
      if moveValue > bestValue {
        bestMove := Placement(x, y);
        bestValue := moveValue;
      }
    }
  }
}
