/** The search of the game manager: the narrow minimax that only ever places
    AI marks and combines children with a minimum, and the choice of the
    best cell from the player's point of view. */
module Search {
  import opened Board

  /** The number of available cells; every recursive step of the search
      fills one, so this is its termination measure. */
  function AvailableCount(g: seq<Cell>): nat
    decreases |g|
  {
    if g == [] then 0
    else (if g[0] == Available then 1 else 0) + AvailableCount(g[1..])
  }

  function Min(a: int, b: int): (m: int)
    ensures m <= a && m <= b && (m == a || m == b)
  {
    if a <= b then a else b
  }

  /** The grid with cell i filled by an AI mark. */
  function PlaceAI(g: Grid, i: nat): Grid
    requires i < 9
  {
    g[i := AI]
  }

  /** Each step of the search fills exactly one available cell. */
  lemma PlaceAIFillsOne(g: Grid, i: nat)
    requires i < 9 && g[i] == Available
    ensures AvailableCount(PlaceAI(g, i)) == AvailableCount(g) - 1
  {
    FillOne(g, i, AI);
  }

  /** Overwriting an available cell with a mark leaves one available cell
      fewer. */
  lemma {:induction false} FillOne(g: seq<Cell>, i: nat, c: Cell)
    requires i < |g| && g[i] == Available && c != Available
    ensures AvailableCount(g[i := c]) == AvailableCount(g) - 1
    decreases |g|
  {
    if i == 0 {
      assert g[i := c][1..] == g[1..];
    } else {
      assert g[i := c][1..] == g[1..][i - 1 := c];
      FillOne(g[1..], i - 1, c);
    }
  }

  /** The minimax score of a grid. A complete line scores at once; a full
      grid without one scores 0; otherwise the score is the least score over
      every way of putting one AI mark into an available cell. The search
      depth the source threads through is never read, so it is left out. */
  function MiniMax(g: Grid): (r: int)
    ensures r == 10 || r == 0 || r == -10
    decreases AvailableCount(g), 1
  {
    var score := Evaluate(g);
    if score == 10 || score == -10 then score
    else if !AvailableTilesLeft(g) then 0
    else MinChildren(g, 0, 11)
  }

  /** The row-major loop over the children of g from cell i on, folding
      their minimax scores into best with a minimum. */
  function MinChildren(g: Grid, i: nat, best: int): (r: int)
    requires i <= 9
    ensures r <= best
    ensures r == best || r == 10 || r == 0 || r == -10
    ensures AvailableFrom(g, i) ==> r <= 10
    decreases AvailableCount(g), 0, 9 - i
  {
    if i == 9 then best
    else if g[i] == Available then
      PlaceAIFillsOne(g, i);
      MinChildren(g, i + 1, Min(best, MiniMax(PlaceAI(g, i))))
    else MinChildren(g, i + 1, best)
  }

  /** The loop computes a minimum: it is no greater than any child it
      visits, and it is either the starting value or the score of one of
      them. */
  lemma {:induction false} MinChildrenIsMinimum(g: Grid, i: nat, best: int)
    requires i <= 9
    ensures forall j: nat :: i <= j < 9 && g[j] == Available ==> MinChildren(g, i, best) <= MiniMax(PlaceAI(g, j))
    ensures MinChildren(g, i, best) == best
         || exists j: nat :: i <= j < 9 && g[j] == Available && MinChildren(g, i, best) == MiniMax(PlaceAI(g, j))
    decreases 9 - i
  {
    if i < 9 {
      if g[i] == Available {
        MinChildrenIsMinimum(g, i + 1, Min(best, MiniMax(PlaceAI(g, i))));
      } else {
        MinChildrenIsMinimum(g, i + 1, best);
      }
    }
  }

  /** Line k holds no player mark, so AI marks alone could still complete it. */
  predicate PlayerFree(g: Grid, k: nat)
    requires k < 8
  {
    var (a, b, d) := Line(k);
    g[a] != Player && g[b] != Player && g[d] != Player
  }

  /** Some line is still open to the AI. */
  predicate OpenToAI(g: Grid) {
    exists k: nat :: k < 8 && PlayerFree(g, k)
  }

  /** Placing an AI mark into an available cell changes no cell's being a
      player mark, so it neither completes a player line nor closes a line
      to the AI. */
  lemma PlaceAIKeepsPlayerMarks(g: Grid, i: nat)
    requires i < 9 && g[i] == Available
    ensures forall k: nat :: k < 8 ==> (Owns(PlaceAI(g, i), k, Player) <==> Owns(g, k, Player))
    ensures forall k: nat :: k < 8 ==> (PlayerFree(PlaceAI(g, i), k) <==> PlayerFree(g, k))
    ensures HasLine(PlaceAI(g, i), Player) <==> HasLine(g, Player)
    ensures OpenToAI(PlaceAI(g, i)) <==> OpenToAI(g)
  {
    var c := PlaceAI(g, i);
    assert forall x: nat :: x < 9 ==> (c[x] == Player <==> g[x] == Player);
  }

  /** Since the search only ever adds AI marks, its score has a closed form:
      the static score when some line is complete, otherwise -10 when the
      AI could still complete some line and 0 when every line holds a
      player mark. */
  lemma {:induction false} MiniMaxClosedForm(g: Grid)
    ensures MiniMax(g) == if Evaluate(g) != 0 then Evaluate(g) else if OpenToAI(g) then -10 else 0
    decreases AvailableCount(g)
  {
    EvaluateLines(g);
    if Evaluate(g) == 0 {
      if !AvailableTilesLeft(g) {
        if OpenToAI(g) {
          assert false;
        }
      } else {
        var v := if OpenToAI(g) then -10 else 0;
        forall j: nat | j < 9 && g[j] == Available
          ensures MiniMax(PlaceAI(g, j)) == v
        {
          var c := PlaceAI(g, j);
          PlaceAIKeepsPlayerMarks(g, j);
          PlaceAIFillsOne(g, j);
          EvaluateLines(c);
          MiniMaxClosedForm(c);
          if Evaluate(c) == -10 {
            var k: nat :| k < 8 && Owns(c, k, AI);
            assert PlayerFree(c, k);
          }
        }
        MinChildrenIsMinimum(g, 0, 11);
        var j: nat :| j < 9 && g[j] == Available;
        assert MinChildren(g, 0, 11) <= MiniMax(PlaceAI(g, j)) == v;
      }
    }
  }

  /** The search reports a player win exactly when the grid already holds
      one: no AI move can ever create a player line. */
  lemma MiniMaxPlayerWinIffLine(g: Grid)
    ensures MiniMax(g) == 10 <==> Evaluate(g) == 10
    ensures MiniMax(g) == -10 <==> Evaluate(g) == -10 || (Evaluate(g) == 0 && OpenToAI(g))
  {
    MiniMaxClosedForm(g);
  }

  /** The location the search reports, as the source's Placement class. */
  datatype Placement = Placement(row: int, column: int)

  /** The score of putting a player mark into cell i. */
  function MoveValue(g: Grid, i: nat): int
    requires i < 9
  {
    MiniMax(g[i := Player])
  }

  /** Cell i is available and is the first cell in row-major order whose
      move value is the greatest among the available cells. */
  predicate IsFirstBest(g: Grid, i: nat)
    requires i < 9
  {
    && g[i] == Available
    && (forall j: nat :: j < 9 && g[j] == Available ==> MoveValue(g, j) <= MoveValue(g, i))
    && (forall j: nat :: j < i && g[j] == Available ==> MoveValue(g, j) < MoveValue(g, i))
  }

  /** The row-major loop of the best-move search from cell i on, keeping a
      candidate only when its value is strictly greater. */
  function FindBestMoveFrom(g: Grid, i: nat, bestValue: int, bestMove: Placement): (m: Placement)
    requires i <= 9
    requires 0 <= bestMove.row < 3 && 0 <= bestMove.column < 3
    ensures 0 <= m.row < 3 && 0 <= m.column < 3
    decreases 9 - i
  {
    if i == 9 then bestMove
    else if g[i] == Available && MoveValue(g, i) > bestValue then
      FindBestMoveFrom(g, i + 1, MoveValue(g, i), Placement(i / 3, i % 3))
    else FindBestMoveFrom(g, i + 1, bestValue, bestMove)
  }

  /** The cell the player would do best to take, by the search's score. */
  function FindBestMove(g: Grid): (m: Placement)
    ensures 0 <= m.row < 3 && 0 <= m.column < 3
  {
    FindBestMoveFrom(g, 0, -1000, Placement(0, 0))
  }

  /** The state of the best-move loop after the cells before i: if one of
      them was available, the candidate is the first of them with the
      greatest value and bestValue is that value; otherwise the initial
      candidate and value are untouched. */
  predicate Scanned(g: Grid, i: nat, bestValue: int, bestMove: Placement)
    requires i <= 9
    requires 0 <= bestMove.row < 3 && 0 <= bestMove.column < 3
  {
    if exists j: nat :: j < i && g[j] == Available then
      Leads(g, i, bestValue, Index(bestMove.row, bestMove.column))
    else bestValue == -1000 && bestMove == Placement(0, 0)
  }

  /** Among the cells before i, k is the first available one with the
      greatest value, and that value is bestValue. */
  predicate Leads(g: Grid, i: nat, bestValue: int, k: nat)
    requires i <= 9 && k < 9
  {
    && k < i && g[k] == Available && bestValue == MoveValue(g, k)
    && (forall j: nat :: j < i && g[j] == Available ==> MoveValue(g, j) <= bestValue)
    && (forall j: nat :: j < k && g[j] == Available ==> MoveValue(g, j) < bestValue)
  }

  /** Taking cell i as the new candidate keeps the loop state. */
  lemma ScannedTake(g: Grid, i: nat, bestValue: int, bestMove: Placement)
    requires i < 9 && 0 <= bestMove.row < 3 && 0 <= bestMove.column < 3
    requires Scanned(g, i, bestValue, bestMove)
    requires g[i] == Available && MoveValue(g, i) > bestValue
    ensures Scanned(g, i + 1, MoveValue(g, i), Placement(i / 3, i % 3))
  {
    var v := MoveValue(g, i);
    forall j: nat | j < i && g[j] == Available
      ensures MoveValue(g, j) < v
    {
      assert exists j': nat :: j' < i && g[j'] == Available;
      assert Leads(g, i, bestValue, Index(bestMove.row, bestMove.column));
    }
    assert Leads(g, i + 1, v, i);
    assert Index(i / 3, i % 3) == i;
  }

  /** Passing over cell i keeps the loop state: either it is not available,
      or its value does not beat a candidate already found (every value
      exceeds the initial -1000, so some candidate was found). */
  lemma ScannedKeep(g: Grid, i: nat, bestValue: int, bestMove: Placement)
    requires i < 9 && 0 <= bestMove.row < 3 && 0 <= bestMove.column < 3
    requires Scanned(g, i, bestValue, bestMove)
    requires !(g[i] == Available && MoveValue(g, i) > bestValue)
    ensures Scanned(g, i + 1, bestValue, bestMove)
  {
    if g[i] == Available {
      assert exists j: nat :: j < i && g[j] == Available;
      assert Leads(g, i, bestValue, Index(bestMove.row, bestMove.column));
      assert Leads(g, i + 1, bestValue, Index(bestMove.row, bestMove.column));
    } else if exists j: nat :: j < i && g[j] == Available {
      assert Leads(g, i + 1, bestValue, Index(bestMove.row, bestMove.column));
    }
  }

  lemma {:induction false} FindBestMoveFromScanned(g: Grid, i: nat, bestValue: int, bestMove: Placement)
    requires i <= 9 && 0 <= bestMove.row < 3 && 0 <= bestMove.column < 3
    requires Scanned(g, i, bestValue, bestMove)
    ensures var m := FindBestMoveFrom(g, i, bestValue, bestMove);
      if AvailableTilesLeft(g) then IsFirstBest(g, Index(m.row, m.column)) else m == Placement(0, 0)
    decreases 9 - i
  {
    if i == 9 {
      if AvailableTilesLeft(g) {
        var j: nat :| j < 9 && g[j] == Available;
        assert Leads(g, 9, bestValue, Index(bestMove.row, bestMove.column));
      }
    } else if g[i] == Available && MoveValue(g, i) > bestValue {
      ScannedTake(g, i, bestValue, bestMove);
      FindBestMoveFromScanned(g, i + 1, MoveValue(g, i), Placement(i / 3, i % 3));
    } else {
      ScannedKeep(g, i, bestValue, bestMove);
      FindBestMoveFromScanned(g, i + 1, bestValue, bestMove);
    }
  }

  /** The best-move search returns the first available cell, in row-major
      order, whose value is the greatest; on a grid with no available cell
      it returns the initial (0, 0). */
  lemma FindBestMoveFirstMaximal(g: Grid)
    ensures var m := FindBestMove(g);
      if AvailableTilesLeft(g) then IsFirstBest(g, Index(m.row, m.column)) else m == Placement(0, 0)
  {
    FindBestMoveFromScanned(g, 0, -1000, Placement(0, 0));
  }

  /** With player marks at [0,0] and [0,1] and an AI mark at [1,0], the
      search picks [0,2], which completes the player's row. */
  lemma FindBestMoveCompletesRow()
    ensures FindBestMove([Player, Player, Available, AI, Available, Available, Available, Available, Available]) == Placement(0, 2)
  {
    var g: Grid := [Player, Player, Available, AI, Available, Available, Available, Available, Available];
    var w := g[2 := Player];
    assert Owns(w, 0, Player) && UndecidedBetween(w, 0, 0);
    assert MoveValue(g, 2) == 10;
    FindBestMoveFirstMaximal(g);
    var m := FindBestMove(g);
    assert g[2] == Available;
    var i := Index(m.row, m.column);
    assert i == 2;
  }

  /** The search weighs only player placements, so it can pass over a cell
      that would complete an AI line: here [1,0] wins for the AI, yet every
      available cell scores -10 and the first of them, [0,1], is chosen. */
  lemma FindBestMoveIgnoresAIWin()
    ensures FindBestMove([AI, Available, Available, Available, Player, Available, AI, Available, Player]) == Placement(0, 1)
  {
    var g: Grid := [AI, Available, Available, Available, Player, Available, AI, Available, Player];
    OpenMoveValue(g, 1, 3);
    OpenMoveValue(g, 2, 3);
    OpenMoveValue(g, 3, 0);
    OpenMoveValue(g, 5, 0);
    OpenMoveValue(g, 7, 0);
    FindBestMoveFirstMaximal(g);
    var m := FindBestMove(g);
    assert g[1] == Available;
    assert Index(m.row, m.column) == 1;
  }

  /** A player placement that completes no line but leaves line k free of
      player marks is worth -10. */
  lemma OpenMoveValue(g: Grid, i: nat, k: nat)
    requires i < 9 && k < 8
    requires Evaluate(g[i := Player]) == 0 && PlayerFree(g[i := Player], k)
    ensures MoveValue(g, i) == -10
  {
    MiniMaxClosedForm(g[i := Player]);
  }
}
