/** The evaluation grid of the tic-tac-toe game manager: the cell values,
    the scan of the eight lines that scores a grid, and the scan for a cell
    that is still available. */
module Board {

  /** The value of one grid cell. The game manager stores these as the
      integer constants 3 (available), 1 (player) and 2 (AI) and only ever
      compares them for equality, so an enumeration loses nothing. */
  datatype Cell = Available | Player | AI

  /** The 3×3 grid in row-major order: grid cell [row, column] is at index
      3 * row + column. */
  type Grid = g: seq<Cell> | |g| == 9
    witness [Available, Available, Available, Available, Available, Available, Available, Available, Available]

  /** The grid a new game starts from: every cell available. */
  const EmptyGrid: Grid := [Available, Available, Available, Available, Available, Available, Available, Available, Available]

  /** Index of grid cell [row, column]. */
  function Index(row: int, column: int): (i: nat)
    requires 0 <= row < 3 && 0 <= column < 3
    ensures i < 9
  {
    3 * row + column
  }

  /** Division by three recovers the row and column from an index. */
  lemma IndexRowColumn(row: int, column: int)
    requires 0 <= row < 3 && 0 <= column < 3
    ensures Index(row, column) / 3 == row && Index(row, column) % 3 == column
  {
  }

  /** The eight lines, in the order the scan visits them: rows 0..2, columns
      0..2, the main diagonal, the anti-diagonal. The first index of each
      triple is the cell whose value the scan inspects once all three are
      equal. */
  function Line(k: nat): (l: (nat, nat, nat))
    requires k < 8
    ensures l.0 < 9 && l.1 < 9 && l.2 < 9
  {
    match k
    case 0 => (0, 1, 2)
    case 1 => (3, 4, 5)
    case 2 => (6, 7, 8)
    case 3 => (0, 3, 6)
    case 4 => (1, 4, 7)
    case 5 => (2, 5, 8)
    case 6 => (0, 4, 8)
    case _ => (2, 4, 6)
  }

  /** Line k holds three cells of value c. */
  predicate Owns(g: Grid, k: nat, c: Cell)
    requires k < 8
  {
    var (a, b, d) := Line(k);
    g[a] == c && g[b] == c && g[d] == c
  }

  /** Line k is complete: three player marks or three AI marks. */
  predicate Decided(g: Grid, k: nat)
    requires k < 8
  {
    Owns(g, k, Player) || Owns(g, k, AI)
  }

  /** Some line holds three cells of value c. */
  predicate HasLine(g: Grid, c: Cell) {
    exists k: nat :: k < 8 && Owns(g, k, c)
  }

  /** No line with index in [lo, hi) is complete. */
  predicate UndecidedBetween(g: Grid, lo: nat, hi: nat)
    requires hi <= 8
  {
    forall i: nat :: lo <= i < hi ==> !Decided(g, i)
  }

  /** The first complete line in scan order holds three cells of value c. */
  predicate FirstLineOwnedBy(g: Grid, c: Cell) {
    exists j: nat :: j < 8 && Owns(g, j, c) && UndecidedBetween(g, 0, j)
  }

  /** The score one step of the scan gives line k: +10 for three player
      marks, -10 for three AI marks, and 0 when the three differ or are all
      available (such a line passes the equality test and is skipped). */
  function LineScore(g: Grid, k: nat): int
    requires k < 8
  {
    var (a, b, d) := Line(k);
    if g[a] == g[b] && g[b] == g[d] then
      if g[a] == Player then 10
      else if g[a] == AI then -10
      else 0
    else 0
  }

  /** The scan from line k on: the score of the first complete line, or 0. */
  function EvaluateFrom(g: Grid, k: nat): (r: int)
    requires k <= 8
    ensures r == 10 || r == 0 || r == -10
    decreases 8 - k
  {
    if k == 8 then 0
    else if LineScore(g, k) != 0 then LineScore(g, k)
    else EvaluateFrom(g, k + 1)
  }

  /** The scan from line k on returns +10 or -10 exactly when its first
      complete line holds player or AI marks, and 0 exactly when none of
      its lines is complete. */
  lemma {:induction false} EvaluateFromFirstLine(g: Grid, k: nat)
    requires k <= 8
    ensures EvaluateFrom(g, k) == 10 <==> exists j: nat :: k <= j < 8 && Owns(g, j, Player) && UndecidedBetween(g, k, j)
    ensures EvaluateFrom(g, k) == -10 <==> exists j: nat :: k <= j < 8 && Owns(g, j, AI) && UndecidedBetween(g, k, j)
    ensures EvaluateFrom(g, k) == 0 <==> forall j: nat :: k <= j < 8 ==> !Decided(g, j)
    decreases 8 - k
  {
    if k < 8 {
      if LineScore(g, k) != 0 {
        assert Decided(g, k) && UndecidedBetween(g, k, k);
        assert forall j: nat :: k < j <= 8 ==> !UndecidedBetween(g, k, j);
      } else {
        assert !Decided(g, k);
        EvaluateFromFirstLine(g, k + 1);
        assert forall j: nat :: k < j <= 8 ==> (UndecidedBetween(g, k, j) <==> UndecidedBetween(g, k + 1, j));
      }
    }
  }

  /** The static score of a grid, by the scan over all eight lines. */
  function Evaluate(g: Grid): (r: int)
    ensures r == 10 || r == 0 || r == -10
  {
    EvaluateFrom(g, 0)
  }

  /** The score is +10 when the first complete line holds player marks,
      -10 when it holds AI marks, and 0 when no line is complete; so +10
      needs a player line, -10 needs an AI line, and a grid with lines of
      one kind only scores for that kind. */
  lemma EvaluateLines(g: Grid)
    ensures Evaluate(g) == 10 <==> FirstLineOwnedBy(g, Player)
    ensures Evaluate(g) == -10 <==> FirstLineOwnedBy(g, AI)
    ensures Evaluate(g) == 0 <==> !HasLine(g, Player) && !HasLine(g, AI)
    ensures Evaluate(g) == 10 ==> HasLine(g, Player)
    ensures Evaluate(g) == -10 ==> HasLine(g, AI)
    ensures HasLine(g, Player) && !HasLine(g, AI) ==> Evaluate(g) == 10
    ensures HasLine(g, AI) && !HasLine(g, Player) ==> Evaluate(g) == -10
  {
    EvaluateFromFirstLine(g, 0);
  }

  /** The row-major scan for an available cell from index i on. */
  function AvailableFrom(g: Grid, i: nat): bool
    requires i <= 9
    decreases 9 - i
  {
    if i == 9 then false
    else g[i] == Available || AvailableFrom(g, i + 1)
  }

  /** The scan from i on finds an available cell exactly when there is one
      at i or later. */
  lemma {:induction false} AvailableFromFinds(g: Grid, i: nat)
    requires i <= 9
    ensures AvailableFrom(g, i) <==> exists j: nat :: i <= j < 9 && g[j] == Available
    decreases 9 - i
  {
    if i < 9 {
      AvailableFromFinds(g, i + 1);
    }
  }

  /** Whether any grid cell is still available. */
  function AvailableTilesLeft(g: Grid): (r: bool)
    ensures r <==> Available in g
  {
    AvailableFromFinds(g, 0);
    AvailableFrom(g, 0)
  }

  /** The grid with a player row 0 and an AI row 1 scores +10, and the one
      with the rows swapped scores -10: on these two grids the scan order,
      not the mix of lines, decides (the rule for every grid is
      EvaluateLines). */
  lemma EvaluateEarlierLineDecides()
    ensures Evaluate([Player, Player, Player, AI, AI, AI, Available, Available, Available]) == 10
    ensures Evaluate([AI, AI, AI, Player, Player, Player, Available, Available, Available]) == -10
  {
    var g1: Grid := [Player, Player, Player, AI, AI, AI, Available, Available, Available];
    EvaluateLines(g1);
    assert Owns(g1, 0, Player) && UndecidedBetween(g1, 0, 0);
    var g2: Grid := [AI, AI, AI, Player, Player, Player, Available, Available, Available];
    EvaluateLines(g2);
    assert Owns(g2, 0, AI) && UndecidedBetween(g2, 0, 0);
  }

  /** The empty grid scores 0: its lines all pass the equality test but
      hold available cells. */
  lemma EvaluateEmptyGrid()
    ensures Evaluate(EmptyGrid) == 0
  {
    EvaluateLines(EmptyGrid);
    forall k: nat | k < 8 ensures !Decided(EmptyGrid, k) {
    }
  }
}
