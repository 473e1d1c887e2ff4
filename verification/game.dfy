/** The turn logic of the game manager: the available tiles, whose turn it
    is, applying a move to the evaluation grid, the AI's choice of tile and
    the end-of-game test. Tile painting, logging and the reading of the
    mouse are left to the caller. */
module Game {
  import opened Board
  import opened Search

  datatype Option<T> = None | Some(value: T)

  /** A tilemap position. Its z coordinate is always 0 and is left out. */
  datatype Tile = Tile(x: int, y: int)

  /** The nine tiles of the board: x and y each range over 0, -1 and -2. */
  const BoardTiles: set<Tile> := {
    Tile(0, 0), Tile(0, -1), Tile(0, -2),
    Tile(-1, 0), Tile(-1, -1), Tile(-1, -2),
    Tile(-2, 0), Tile(-2, -1), Tile(-2, -2)
  }

  /** The centre tile, which the AI takes whenever it can. */
  const MiddleTile: Tile := Tile(-1, -1)

  predicate OnBoard(t: Tile) {
    -2 <= t.x <= 0 && -2 <= t.y <= 0
  }

  /** The grid cell of a tile: tile (x, y) is grid cell [-x, -y]. */
  function CellOf(t: Tile): (i: nat)
    requires OnBoard(t)
    ensures i < 9
  {
    Index(-t.x, -t.y)
  }

  /** The tile of grid cell i: its row and column, negated. */
  function TileOf(i: nat): (t: Tile)
    requires i < 9
    ensures OnBoard(t)
  {
    Tile(-(i / 3), -(i % 3))
  }

  /** Negating a tile into a cell and back gives the tile again. */
  lemma TileCellRoundTrip(t: Tile)
    requires OnBoard(t)
    ensures TileOf(CellOf(t)) == t
  {
    IndexRowColumn(-t.x, -t.y);
  }

  /** Negating a cell into a tile and back gives the cell again. */
  lemma CellTileRoundTrip(i: nat)
    requires i < 9
    ensures CellOf(TileOf(i)) == i
  {
  }

  /** The board tiles are exactly the tiles of the nine cells, and exactly
      the tiles on the board. */
  lemma BoardTilesAreCells()
    ensures forall t :: t in BoardTiles ==> OnBoard(t)
    ensures forall i: nat :: i < 9 ==> TileOf(i) in BoardTiles
    ensures forall t :: OnBoard(t) ==> t in BoardTiles
  {
    forall i: nat | i < 9 ensures TileOf(i) in BoardTiles {
      assert i == 0 || i == 1 || i == 2 || i == 3 || i == 4 || i == 5 || i == 6 || i == 7 || i == 8;
    }
    forall t | OnBoard(t) ensures t in BoardTiles {
      TileCellRoundTrip(t);
    }
  }

  /** The state the game manager keeps between frames. */
  datatype Game = Game(grid: Grid, tiles: set<Tile>, playerTurn: bool)

  predicate TilesOnBoard(s: Game) {
    forall t :: t in s.tiles ==> OnBoard(t)
  }

  /** A tile is still in the available set exactly when its grid cell is
      available. */
  predicate Consistent(s: Game) {
    && TilesOnBoard(s)
    && forall i: nat :: i < 9 ==> (s.grid[i] == Available <==> TileOf(i) in s.tiles)
  }

  /** The mark of the side to move: the player's when it is the player's
      turn, the AI's otherwise. */
  function Mark(playerTurn: bool): (c: Cell)
    ensures c != Available
    ensures c == Player <==> playerTurn
  {
    if playerTurn then Player else AI
  }

  /** A new game: every cell available, exactly the nine board tiles in
      the set, and the player to move first when the player starts. */
  function ResetGame(playerStarts: bool): (s: Game)
    ensures Consistent(s)
    ensures s.playerTurn == playerStarts
    ensures forall i: nat :: i < 9 ==> s.grid[i] == Available
    ensures forall t :: t in s.tiles <==> OnBoard(t)
    ensures AvailableTilesLeft(s.grid) && Evaluate(s.grid) == 0
  {
    EvaluateEmptyGrid();
    BoardTilesAreCells();
    assert EmptyGrid[0] == Available;
    Game(EmptyGrid, BoardTiles, playerStarts)
  }

  /** Apply a move at tile pos. A tile still in the available set gets the
      mark of the side to move in its grid cell, leaves the set, and hands
      the turn over; any other tile changes nothing. */
  function MakeMove(s: Game, pos: Tile): (r: Game)
    requires TilesOnBoard(s)
    ensures TilesOnBoard(r)
    ensures pos in s.tiles ==>
      && r.grid[CellOf(pos)] == Mark(s.playerTurn)
      && r.tiles == s.tiles - {pos}
      && |r.tiles| == |s.tiles| - 1
      && r.playerTurn == !s.playerTurn
    ensures forall i: nat :: i < 9 && (pos !in s.tiles || i != CellOf(pos)) ==> r.grid[i] == s.grid[i]
    ensures pos !in s.tiles ==> r == s
  {
    if pos in s.tiles then
      Game(s.grid[CellOf(pos) := Mark(s.playerTurn)], s.tiles - {pos}, !s.playerTurn)
    else s
  }

  /** A move keeps the set of available tiles in step with the grid, and an
      accepted move writes into a cell that was available. */
  lemma MakeMoveKeepsConsistent(s: Game, pos: Tile)
    requires Consistent(s)
    ensures Consistent(MakeMove(s, pos))
    ensures pos in s.tiles ==> s.grid[CellOf(pos)] == Available
  {
    if pos in s.tiles {
      var r := MakeMove(s, pos);
      var c := CellOf(pos);
      TileCellRoundTrip(pos);
      forall i: nat | i < 9 ensures r.grid[i] == Available <==> TileOf(i) in r.tiles {
        if i != c {
          CellTileRoundTrip(i);
          assert TileOf(i) != pos;
        }
      }
    }
  }

  /** An accepted move leaves one available cell fewer. */
  lemma MakeMoveFillsOne(s: Game, pos: Tile)
    requires Consistent(s) && pos in s.tiles
    ensures AvailableCount(MakeMove(s, pos).grid) == AvailableCount(s.grid) - 1
  {
    TileCellRoundTrip(pos);
    FillOne(s.grid, CellOf(pos), Mark(s.playerTurn));
  }

  /** The tile the AI plays: the centre while it is available, otherwise
      the best-move cell with its row and column negated back into tile
      coordinates. */
  function AIChoice(s: Game): Tile {
    var bestMove := FindBestMove(s.grid);
    if MiddleTile in s.tiles then MiddleTile else Tile(-bestMove.row, -bestMove.column)
  }

  /** The grid cell the AI's tile maps to: [1, 1] while it is available,
      otherwise the best-move cell. It tests the grid where AIChoice tests
      the tile set; the two agree only while the set is in step with the
      grid (Consistent), as AIChoiceIsAvailable proves. */
  function AICell(g: Grid): (k: nat)
    ensures k < 9
  {
    if g[4] == Available then 4 else Index(FindBestMove(g).row, FindBestMove(g).column)
  }

  /** While any tile is available, the best-move cell is available, and
      so is its tile. */
  lemma BestMoveTileAvailable(s: Game)
    requires Consistent(s) && s.tiles != {}
    ensures var k := Index(FindBestMove(s.grid).row, FindBestMove(s.grid).column);
      IsFirstBest(s.grid, k) && TileOf(k) in s.tiles
  {
    var t :| t in s.tiles;
    TileCellRoundTrip(t);
    assert s.grid[CellOf(t)] == Available;
    FindBestMoveFirstMaximal(s.grid);
  }

  /** While any tile is available, the AI's tile is one of them: the centre
      when its cell is available, otherwise the tile of the first available
      cell of greatest move value. */
  lemma AIChoiceIsAvailable(s: Game)
    ensures Consistent(s) && s.tiles != {} ==>
      && AIChoice(s) == TileOf(AICell(s.grid))
      && AIChoice(s) in s.tiles
      && s.grid[AICell(s.grid)] == Available
      && (s.grid[4] != Available ==> IsFirstBest(s.grid, AICell(s.grid)))
  {
    if Consistent(s) && s.tiles != {} {
      assert TileOf(4) == MiddleTile;
      if s.grid[4] != Available {
        BestMoveTileAvailable(s);
        var m := FindBestMove(s.grid);
        assert TileOf(Index(m.row, m.column)) == Tile(-m.row, -m.column);
      }
      CellTileRoundTrip(AICell(s.grid));
    }
  }

  /** The AI's move: a move at the AI's tile. While any tile is available
      it is always accepted: the mark of the side to move goes into the
      chosen cell and nowhere else, that cell's tile leaves the set and the
      turn is handed over. */
  function AIMove(s: Game): (r: Game)
    requires TilesOnBoard(s)
    ensures TilesOnBoard(r)
    ensures Consistent(s) && s.tiles != {} ==>
      && s.grid[AICell(s.grid)] == Available
      && r == Game(s.grid[AICell(s.grid) := Mark(s.playerTurn)], s.tiles - {TileOf(AICell(s.grid))}, !s.playerTurn)
  {
    AIChoiceIsAvailable(s);
    MakeMove(s, AIChoice(s))
  }

  /** The player's move: on the player's turn, a click on a tile still in
      the set puts a player mark into that tile's cell, takes the tile out
      of the set and hands the turn to the AI; anything else (no click, a
      click elsewhere, the AI's turn) changes nothing. */
  function PlayerMove(s: Game, click: Option<Tile>): (r: Game)
    requires TilesOnBoard(s)
    ensures s.playerTurn && click.Some? && click.value in s.tiles ==>
      r == Game(s.grid[CellOf(click.value) := Player], s.tiles - {click.value}, false)
    ensures !(s.playerTurn && click.Some? && click.value in s.tiles) ==> r == s
  {
    if s.playerTurn && click.Some? then MakeMove(s, click.value) else s
  }

  /** The game ends when some line is complete or no tile is left. */
  predicate GameOver(s: Game) {
    Evaluate(s.grid) != 0 || |s.tiles| == 0
  }

  /** With the tile set in step with the grid, the end test is the same as
      asking whether some line is complete or the grid is full. */
  lemma GameOverMeansDecidedOrFull(s: Game)
    requires Consistent(s)
    ensures GameOver(s) <==> HasLine(s.grid, Player) || HasLine(s.grid, AI) || !AvailableTilesLeft(s.grid)
  {
    EvaluateLines(s.grid);
    if |s.tiles| == 0 {
      assert s.tiles == {};
    } else {
      var t :| t in s.tiles;
      TileCellRoundTrip(t);
      assert s.grid[CellOf(t)] == Available;
    }
  }

  /** One frame of play: the side to move moves (the player only if a tile
      was clicked), then the end test runs on the new state. */
  function GameOn(s: Game, click: Option<Tile>): (r: (Game, bool))
    requires TilesOnBoard(s)
    ensures TilesOnBoard(r.0)
    ensures r.1 <==> GameOver(r.0)
  {
    var next := if s.playerTurn then PlayerMove(s, click) else AIMove(s);
    (next, GameOver(next))
  }

  /** A frame played while some tile is left (as in every unfinished game)
      keeps the state consistent and either leaves it unchanged (the player
      did not click an available tile) or fills one available cell with the
      mover's mark and hands the turn over; on the AI's turn it always does
      the latter. */
  lemma GameOnStep(s: Game, click: Option<Tile>)
    requires Consistent(s) && s.tiles != {}
    ensures var r := GameOn(s, click).0;
      && Consistent(r)
      && ((s.playerTurn && r == s) || FillsOneCell(s, r))
      && (!s.playerTurn ==> r != s)
  {
    if s.playerTurn {
      PlayerMoveStep(s, click);
    } else {
      AIMoveStep(s);
    }
  }

  /** r is s with the available cell i given the mark of the side to move,
      its tile taken out of the set and the turn handed over. */
  predicate FillsCell(s: Game, r: Game, i: nat) {
    && i < 9
    && s.grid[i] == Available
    && r == Game(s.grid[i := Mark(s.playerTurn)], s.tiles - {TileOf(i)}, !s.playerTurn)
  }

  /** r is s with some available cell filled, as FillsCell says. */
  predicate FillsOneCell(s: Game, r: Game) {
    exists i: nat :: i < 9 && FillsCell(s, r, i)
  }

  /** The player's move keeps the state consistent; a click on the
      player's turn on a tile still in the set fills exactly the clicked
      tile's cell, which was available, and anything else changes
      nothing. */
  lemma PlayerMoveStep(s: Game, click: Option<Tile>)
    requires Consistent(s)
    ensures var r := PlayerMove(s, click);
      && Consistent(r)
      && (s.playerTurn && click.Some? && click.value in s.tiles ==> FillsCell(s, r, CellOf(click.value)))
      && (!(s.playerTurn && click.Some? && click.value in s.tiles) ==> r == s)
  {
    if s.playerTurn && click.Some? {
      MakeMoveKeepsConsistent(s, click.value);
      if click.value in s.tiles {
        var i := CellOf(click.value);
        TileCellRoundTrip(click.value);
        assert MakeMove(s, click.value) == Game(s.grid[i := Mark(s.playerTurn)], s.tiles - {TileOf(i)}, !s.playerTurn);
        assert FillsCell(s, PlayerMove(s, click), i);
      }
    }
  }

  /** While any tile is available, the AI's move keeps the state
      consistent and always fills the AI's cell, which was available. */
  lemma AIMoveStep(s: Game)
    requires Consistent(s) && s.tiles != {}
    ensures var r := AIMove(s);
      Consistent(r) && FillsCell(s, r, AICell(s.grid)) && r != s
  {
    MakeMoveKeepsConsistent(s, AIChoice(s));
    var r := AIMove(s);
    var k := AICell(s.grid);
    assert r.playerTurn != s.playerTurn;
    assert r == Game(s.grid[k := Mark(s.playerTurn)], s.tiles - {TileOf(k)}, !s.playerTurn);
  }

  /** The end flag of a frame, in the model's terms: for every state whose
      tile set is in step with the grid, the frame keeps it so, and the
      game is flagged as over exactly when the new grid holds a complete
      line or no available cell. */
  lemma GameOnEndFlag(s: Game, click: Option<Tile>)
    requires Consistent(s)
    ensures var r := GameOn(s, click);
      && Consistent(r.0)
      && (r.1 <==> HasLine(r.0.grid, Player) || HasLine(r.0.grid, AI) || !AvailableTilesLeft(r.0.grid))
  {
    if s.playerTurn {
      PlayerMoveStep(s, click);
    } else {
      MakeMoveKeepsConsistent(s, AIChoice(s));
    }
    GameOverMeansDecidedOrFull(GameOn(s, click).0);
  }
}
