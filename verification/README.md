# Tic-tac-toe game manager, modelled in Dafny

This project models the game logic of `GameMgr`, a Unity component for 3×3
tic-tac-toe between a human player and a computer opponent. The Unity parts
are stripped away: tile painting, mouse and camera input, and logging.

- **Board** (`board.dfy`) holds the evaluation grid. Each cell is `Available`,
  `Player` or `AI`, standing for the source's integer constants 3, 1 and 2.
  `Evaluate` scans the eight lines in the source's order: rows 0..2, then
  columns 0..2, then the main diagonal, then the anti-diagonal. The first
  line with three player marks scores +10 and the first with three AI marks
  scores −10. A line of three available cells passes the equality test but
  is skipped. `AvailableTilesLeft` scans the grid for an available cell.
- **Search** (`search.dfy`) holds `MiniMax` and `FindBestMove`, both written
  as pure functions.
  - `MiniMax` is the source's narrow variant of minimax. It only ever places
    AI marks and always combines children with a minimum.
  - `FindBestMove` tries a player mark in each available cell, in row-major
    order, and keeps a cell only when its score is strictly greater.
  - Because only AI marks are ever added, `MiniMax` has a closed form,
    proved in `MiniMaxClosedForm`. If a line is complete, the score is the
    static score. Otherwise it is −10 when some line holds no player mark,
    and 0 when every line does.
- **SearchInPlace** (`search_in_place.dfy`) runs the same two searches the
  way the source does: on one shared `array2`, writing a speculative mark,
  recursing, and resetting the cell to available. Its methods prove two
  things: the array is left exactly as it was found, and the result equals
  the pure function's.
- **Game** (`game.dfy`) holds the turn logic: the set of available tiles,
  whose turn it is, `MakeMove`, the AI's choice of tile, and the end-of-game
  test.
  - A tile `(x, y)` maps to grid cell `[-x, -y]`.
  - An accepted move keeps the invariant "a tile is in the set exactly when
    its cell is available".
  - While any tile is left, the AI's move is always accepted.

Cell `[row, column]` of the grid is index `3 * row + column` of a
nine-element sequence, so the source's `x`-outer, `y`-inner loops visit
indices 0..8 in order.

The model follows the code in three places where a description of the game
might promise otherwise:

- An unknown tile or an occupied cell is not an error. `MakeMove` leaves the
  grid, the tile set and the turn unchanged.
- `FindBestMove` on a full grid returns the initial `(0, 0)`. It does not
  fail.
- Grid indexing negates the tile coordinates. It is not plain
  `(row, column)`.

## Model

| member | source | states |
|---|---|---|
| Board.EvaluateFrom | Assets/Scripts/GameMgr.cs:252-307 | the scan from any line on returns only +10, 0 or −10 |
| Board.EvaluateFromFirstLine | Assets/Scripts/GameMgr.cs:252-307 | the scan from line k returns +10 (−10) exactly when some later line holds three player (AI) marks and no line between k and it is complete; it returns 0 exactly when no line from k on is complete |
| Board.Evaluate | Assets/Scripts/GameMgr.cs:250-308 | the score is always one of +10, 0, −10 |
| Board.EvaluateLines | Assets/Scripts/GameMgr.cs:250-308 | +10 iff the first complete line in scan order holds player marks; −10 iff it holds AI marks; 0 iff no row, column or diagonal holds three equal marks; so +10 needs a player line and −10 an AI line, and lines of only one kind score for that kind |
| Board.EvaluateEarlierLineDecides | Assets/Scripts/GameMgr.cs:252-266 | on the grid with player row 0 and AI row 1 the score is +10, and with the rows swapped it is −10 |
| Board.EvaluateEmptyGrid | Assets/Scripts/GameMgr.cs:254-264 | the all-available grid (lines 58-63) scores 0: lines of three available cells are skipped |
| Board.AvailableFromFinds | Assets/Scripts/GameMgr.cs:179-189 | the row-major scan from cell i finds an available cell exactly when one exists at i or later |
| Board.AvailableTilesLeft | Assets/Scripts/GameMgr.cs:177-190 | true exactly when some cell of the grid is available |
| Search.FillOne | Assets/Scripts/GameMgr.cs:213 | overwriting an available cell with a mark leaves exactly one available cell fewer |
| Search.PlaceAIFillsOne | Assets/Scripts/GameMgr.cs:211-214 | each recursive step has exactly one fewer available cell (the termination measure of the search) |
| Search.MiniMax | Assets/Scripts/GameMgr.cs:192-220 | the search score is always one of +10, 0, −10 (the initial 11 never escapes, since a grid that reaches the loop has a child) |
| Search.MinChildren | Assets/Scripts/GameMgr.cs:207-219 | the loop over children never raises the running best; its result is the starting value or a score in {+10, 0, −10}; and if any available cell remains to be visited, the result is at most 10 |
| Search.MinChildrenIsMinimum | Assets/Scripts/GameMgr.cs:207-219 | the loop's result is at most the score of every AI child from cell i on, and is either the starting value or the score of one of those children (a minimum, as `Math.Min` folds it) |
| Search.PlaceAIKeepsPlayerMarks | Assets/Scripts/GameMgr.cs:211-215 | writing an AI mark into an available cell neither creates nor removes a player line, and leaves every line's freedom from player marks unchanged |
| Search.MiniMaxClosedForm | Assets/Scripts/GameMgr.cs:192-220 | the search score equals the static score when it is nonzero; otherwise −10 when some line holds no player mark, else 0 (which covers the full-grid base case at 202-205) |
| Search.MiniMaxPlayerWinIffLine | Assets/Scripts/GameMgr.cs:194-215 | the search scores +10 exactly when the grid already holds a player line, and −10 exactly when it scores −10 statically or some line is still open to the AI |
| Search.FindBestMoveFrom | Assets/Scripts/GameMgr.cs:229-247 | the loop always reports a cell inside the 3×3 grid |
| Search.FindBestMove | Assets/Scripts/GameMgr.cs:222-249 | the reported row and column lie in 0..2 |
| Search.ScannedTake | Assets/Scripts/GameMgr.cs:239-244 | replacing the candidate on a strictly greater score keeps "the candidate is the first best cell seen so far" |
| Search.ScannedKeep | Assets/Scripts/GameMgr.cs:233-245 | skipping an occupied cell, or one whose score is not strictly greater, keeps the same loop state (the proof uses that every score exceeds −1000) |
| Search.FindBestMoveFromScanned | Assets/Scripts/GameMgr.cs:229-248 | from any consistent loop state, the loop ends on the first best available cell, or on (0, 0) when no cell is available |
| Search.FindBestMoveFirstMaximal | Assets/Scripts/GameMgr.cs:222-249 | the result is the first available cell in row-major order whose score, after a player mark is placed there, is maximal; with no available cell it is (0, 0) |
| Search.FindBestMoveCompletesRow | Assets/Scripts/GameMgr.cs:222-249 | with player marks at [0,0] and [0,1] and an AI mark at [1,0], the result is [0,2] |
| Search.FindBestMoveIgnoresAIWin | Assets/Scripts/GameMgr.cs:222-249 | the search weighs only player placements: on the grid shown, cell [1,0] would complete an AI column, yet [0,1] is returned |
| SearchInPlace.Restore | Assets/Scripts/GameMgr.cs:213-215 | writing a mark into an available cell and then resetting it gives back the same grid |
| SearchInPlace.MiniMaxInPlace | Assets/Scripts/GameMgr.cs:192-220 | on the shared array: the array is left as it was found, and the result equals `MiniMax` of its contents |
| SearchInPlace.MinChildrenInPlace | Assets/Scripts/GameMgr.cs:207-218 | the nested loop leaves the array unchanged and folds every child's score with a minimum, as `MinChildren` does |
| SearchInPlace.RowInPlace | Assets/Scripts/GameMgr.cs:209-217 | the inner loop over one row leaves the array unchanged and advances the fold by that row's three cells |
| SearchInPlace.ChildInPlace | Assets/Scripts/GameMgr.cs:211-216 | an available cell gets an AI mark, is scored with the depth one greater, and is reset to available; the array ends unchanged |
| SearchInPlace.FindBestMoveInPlace | Assets/Scripts/GameMgr.cs:222-249 | on the shared array: the array is left as it was found, and the result equals `FindBestMove` of its contents |
| SearchInPlace.BestInRow | Assets/Scripts/GameMgr.cs:231-246 | the inner loop over one row leaves the array unchanged and advances the best-move loop by that row |
| SearchInPlace.BestAtCell | Assets/Scripts/GameMgr.cs:233-245 | an available cell gets a player mark, is scored with depth 0, and is reset; it replaces the candidate only on a strictly greater score |
| Game.TileCellRoundTrip | Assets/Scripts/GameMgr.cs:145 | negating a board tile into a grid cell and back gives the tile again |
| Game.CellTileRoundTrip | Assets/Scripts/GameMgr.cs:172 | negating a cell's row and column into a tile, as the AI does, and back, as the move does, gives the same cell |
| Game.BoardTilesAreCells | Assets/Scripts/GameMgr.cs:89-104 | the assumed tile set, with x and y in {0, −1, −2}, is exactly the tiles of the nine grid cells and exactly the tiles on the board |
| Game.Mark | Assets/Scripts/GameMgr.cs:130-141 | the mark written is the player's exactly on the player's turn, and never "available" |
| Game.ResetGame | Assets/Scripts/GameMgr.cs:51-64 | a new game has every cell available and exactly the nine board tiles in the set, is consistent, has no complete line, and starts with the configured side to move |
| Game.MakeMove | Assets/Scripts/GameMgr.cs:124-152 | a tile in the set gets the mover's mark in cell [-x, -y], leaves the set (one tile fewer), and flips the turn; no other cell changes; a tile not in the set changes nothing |
| Game.MakeMoveKeepsConsistent | Assets/Scripts/GameMgr.cs:143-151 | a move keeps "tile in set iff its cell is available", and an accepted move writes into a cell that was available |
| Game.MakeMoveFillsOne | Assets/Scripts/GameMgr.cs:143-147 | an accepted move leaves exactly one available cell fewer |
| Game.BestMoveTileAvailable | Assets/Scripts/GameMgr.cs:170-172 | while any tile is left, the best-move cell is the first best available cell, and its negated tile is in the set |
| Game.AIChoiceIsAvailable | Assets/Scripts/GameMgr.cs:168-175 | while any tile is left, the AI's tile is in the set: it is the centre (-1,-1) when grid cell [1,1] is available, otherwise the negated best-move cell |
| Game.AIMove | Assets/Scripts/GameMgr.cs:168-175 | while any tile is left, the AI's move is accepted: the chosen available cell gets the mover's mark, its tile leaves the set, and the turn flips |
| Game.PlayerMove | Assets/Scripts/GameMgr.cs:154-166 | on the player's turn, a click on a tile still in the set puts a player mark into cell [-x, -y], removes the tile and gives the turn to the AI; no click, a click on any other tile, or the AI's turn changes nothing |
| Game.GameOverMeansDecidedOrFull | Assets/Scripts/GameMgr.cs:117 | in a consistent state the end test holds exactly when some line is complete or the grid is full |
| Game.GameOnEndFlag | Assets/Scripts/GameMgr.cs:106-122 | from any state whose tile set is in step with the grid, a frame keeps it so, and the end flag is set exactly when the new grid holds a complete line or has no available cell |
| Game.GameOnStep | Assets/Scripts/GameMgr.cs:106-122 | a frame played while a tile is left (so in every unfinished game) keeps the state consistent; it either changes nothing (player turn, no accepted click) or fills one available cell with the mover's mark and flips the turn; on the AI's turn it always moves |
| Game.PlayerMoveStep | Assets/Scripts/GameMgr.cs:154-166 | the player's move keeps the state consistent; an accepted click fills exactly the clicked tile's cell, which was available, and anything else changes nothing |
| Game.AIMoveStep | Assets/Scripts/GameMgr.cs:168-175 | while any tile is left, the AI's move keeps the state consistent and fills exactly the AI's cell, which was available |

## Left out

- Unity lifecycle (`Start`, `Update`) and the restart-on-click and
  print-on-space handling in `Update`: engine callbacks and device input.
- `PlayerMove`'s mouse handling: the click is a parameter
  (`Option<Tile>`). `Camera.main.ScreenToWorldPoint` and `WorldToCell`
  cannot be seen from the model.
- `GetCells`: the tilemap's bounds are not visible. The available set starts
  as the nine tiles with x and y in {0, −1, −2} (`BoardTiles`).
- Tile painting (`SetTile`), `PrintEvaluationGridStatus` and every
  `Debug.Log` call: output only.
- `List<Vector3Int>` is modelled as a set of (x, y) pairs. The z
  coordinate is always 0. The list never holds duplicates, since tile
  positions within the bounds are distinct.
- `MakeMove` requires every tile in the set to lie on the board. The source
  would throw an index exception otherwise, and `GetCells` never creates
  such a tile.
- `Search.MiniMax` has no depth parameter. The source threads `depth`
  through but never reads it. `SearchInPlace` keeps it as an unread
  parameter.
- `Game.AIMove` is modelled with the pure `FindBestMove`. That is sound
  because `SearchInPlace.FindBestMoveInPlace` proves that the in-place
  search leaves the grid as it was and returns the same cell.
- The source's `Placement` is a mutable class. Here it is an immutable
  datatype.
