# Minesweeper room engines

A Dafny model of the two multiplayer minesweeper servers in the
SignalR sample repository, with proofs about the model. Both servers keep a
registry of rooms. Each room holds a roster of players and a board of cells.
They differ in their rules:

- **The start-gated engine** (`MinesweeperGame`) keeps rooms in a
  dictionary. A room waits until `StartGame`, which builds a `Rows x Cols`
  board. Mines are placed by rejection sampling, and every safe cell is
  given the number of mines among its neighbours. A mine costs only the
  player who hits it. The room finishes when every player is dead, and then
  all mines are shown. It also finishes when every safe cell is uncovered,
  which is the win. Rooms also keep a chat log capped at 100 lines.
- **The auto-start engine** (`Minesweeper.API`) generates a square
  `BoardSize x BoardSize` board when the room is created. The first player
  to join starts the game, and players get colours from a palette of seven.
  One mine loses the game for the whole room. Clearing the board wins it,
  and the winner is the highest scorer. `ResetRoom` deals a new board and
  sets every score back to 0.

Modules:

| file | module | contents |
|---|---|---|
| `optional.dfy` | `Optional` | `Option` |
| `grid.dfy` | `Grid` | shared by both engines: coordinates, boolean layouts and their counts, the 3x3 neighbour window, the source of random draws |
| `game_model.dfy` | `GameModel` | the start-gated engine's records and its `GameRoom` class |
| `game_board.dfy` | `GameBoard` | that engine's board as a value: the flood fill, showing the mines, flags |
| `game_rules.dfy` | `GameRules` | roster, chat log, mine placement, adjacency counts, the win test |
| `game_service.dfy` | `GameService` | the `GameService` class with its `rooms` map and methods that update rooms in place |
| `api_model.dfy` | `ApiModel` | the auto-start engine's records and its `GameRoom` class |
| `api_board.dfy` | `ApiBoard` | that engine's position-less board, related to the other engine's board |
| `api_roster.dfy` | `ApiRoster` | colours, removal and crediting by id, clearing scores, the winner |
| `api_service.dfy` | `ApiService` | the auto-start `GameService` class |

Modelling choices:

- Rooms are classes whose fields the operations update. The registry is a
  `map<string, GameRoom>` field of the service.
- Boards are `seq<seq<Cell>>` fields. Cells and players are datatype
  values, and an update writes a new value into the sequence.
- Every loop of the source is a `while` or `for` loop with invariants,
  proved against a function on the board. Examples: `Counted`,
  `ExposeMines`, `Count(RevealedSafe(..))`, the window scan `Scanned`.
- Each recursive flood fill is a recursive method. It is proved equal to
  the function `Fill`, and the lemma `FillSpec` states what `Fill` does.
- Random numbers are a parameter `draws: seq<Coord>`. These are the
  coordinates the placement loop would draw, in order. The predicate
  `DrawsSuffice` asks that they lie on the board and hold enough distinct
  cells for the loop to stop.

## Model

Source paths are relative to the repository root.

| member | source | states |
|---|---|---|
| Grid.AdjacentCountIsNeighbourMines | SignalRIleRealtimeUygulamaGelistirme/MinesweeperGame/Minesweeper/Services/GameService.cs:125-140 | the count the nested offset loops compute, with the centre skipped and off-board cells ignored, is exactly the number of in-bounds neighbouring cells that hold a mine |
| Grid.AdjacentAtMostEight | SignalRIleRealtimeUygulamaGelistirme/MinesweeperGame/Minesweeper/Services/GameService.cs:125-140 | an adjacency count never exceeds 8 |
| Grid.CentreNeverCounts | SignalRIleRealtimeUygulamaGelistirme/Minesweeper/Minesweeper.API/Services/GameService.cs:234-251 | the auto-start loop also visits offset (0, 0); on a cell that is not a mine it still yields the neighbour count |
| Grid.ScannedZero | SignalRIleRealtimeUygulamaGelistirme/MinesweeperGame/Minesweeper/Services/GameService.cs:213-222 | a count is 0 exactly when no scanned window cell holds a mine; this is the fill's reason to spread |
| Grid.CountSet | SignalRIleRealtimeUygulamaGelistirme/MinesweeperGame/Minesweeper/Services/GameService.cs:109-113 | making a clear cell a mine raises the mine count by exactly one |
| Grid.CountZero | SignalRIleRealtimeUygulamaGelistirme/Minesweeper/Minesweeper.API/Services/GameService.cs:119-123 | a layout counts 0 exactly when no entry is set |
| Grid.CountPartition | SignalRIleRealtimeUygulamaGelistirme/MinesweeperGame/Minesweeper/Services/GameService.cs:179-190 | mines, uncovered safe cells and covered safe cells together number `Rows * Cols` |
| Grid.DrawSetStep | SignalRIleRealtimeUygulamaGelistirme/MinesweeperGame/Minesweeper/Services/GameService.cs:104-114 | one more draw adds exactly that coordinate to the set of distinct cells drawn |
| GameModel.NewPlayer | SignalRIleRealtimeUygulamaGelistirme/MinesweeperGame/Minesweeper/Services/GameService.cs:44-50 | a new player has the given connection and name, score 0 and is alive |
| GameModel.NewCell | SignalRIleRealtimeUygulamaGelistirme/MinesweeperGame/Minesweeper/Models/GameModel.cs:12-21 | a new cell records its position and is no mine, covered, unflagged, counts 0 and belongs to nobody |
| GameModel.GameRoom.constructor | SignalRIleRealtimeUygulamaGelistirme/MinesweeperGame/Minesweeper/Models/GameModel.cs:23-34 | a new room is Waiting, 10 x 10 with 15 mines, with an empty board, no players and no messages |
| GameRules.FindPlayer | SignalRIleRealtimeUygulamaGelistirme/MinesweeperGame/Minesweeper/Services/GameService.cs:154 | the index of the first player with the connection id, with no earlier match; none exactly when no player has that id |
| GameRules.Without | SignalRIleRealtimeUygulamaGelistirme/MinesweeperGame/Minesweeper/Services/GameService.cs:64 | the roster keeps exactly the players of other connections; none of that connection is left; a roster without it is unchanged. Order and repetitions are given by `WithoutAppend` and `WithoutSingle` |
| GameRules.WithoutAppend | SignalRIleRealtimeUygulamaGelistirme/MinesweeperGame/Minesweeper/Services/GameService.cs:64 | removal works player by player: removing from a joined roster joins the two removals, so the players who stay keep their relative order and their number |
| GameRules.WithoutSingle | SignalRIleRealtimeUygulamaGelistirme/MinesweeperGame/Minesweeper/Services/GameService.cs:64 | a single player stays exactly when it belongs to another connection |
| GameRules.WithoutIdempotent | SignalRIleRealtimeUygulamaGelistirme/MinesweeperGame/Minesweeper/Services/GameService.cs:64 | removing a connection twice is the same as removing it once |
| GameRules.Last | SignalRIleRealtimeUygulamaGelistirme/MinesweeperGame/Minesweeper/Services/GameService.cs:275-278 | the last n entries of a log, or all of them when there are fewer |
| GameRules.Appended | SignalRIleRealtimeUygulamaGelistirme/MinesweeperGame/Minesweeper/Services/GameService.cs:268-278 | after one message a log within the cap stays within 100 lines; it grows by one until full; the new message is last; the log is a suffix of the old log followed by the message |
| GameRules.AppendedAllKeepsNewest | SignalRIleRealtimeUygulamaGelistirme/MinesweeperGame/Minesweeper/Services/GameService.cs:261-280 | after any number of messages a log that started within the cap holds exactly the newest 100 lines of everything posted, in order |
| GameRules.AppendedIsLast | SignalRIleRealtimeUygulamaGelistirme/MinesweeperGame/Minesweeper/Services/GameService.cs:268-278 | one append is the newest 100 lines of the old log followed by the message |
| GameRules.FreshBoard | SignalRIleRealtimeUygulamaGelistirme/MinesweeperGame/Minesweeper/Services/GameService.cs:87-95 | the allocated board is `Rows x Cols` |
| GameRules.FreshMined | SignalRIleRealtimeUygulamaGelistirme/MinesweeperGame/Minesweeper/Services/GameService.cs:87-113 | fresh cells mined at a set of cells: shaped, in position, mines exactly at that set, nothing uncovered |
| GameRules.PlacingStep | SignalRIleRealtimeUygulamaGelistirme/MinesweeperGame/Minesweeper/Services/GameService.cs:104-114 | while fewer than `MineCount` mines are placed there is a next draw on the board, and placing it keeps the mines equal to the distinct draws so far |
| GameRules.Counted | SignalRIleRealtimeUygulamaGelistirme/MinesweeperGame/Minesweeper/Services/GameService.cs:117-143 | the counted board keeps the board's shape |
| GameRules.CountingStep | SignalRIleRealtimeUygulamaGelistirme/MinesweeperGame/Minesweeper/Services/GameService.cs:126-139 | one pass of the inner loop body adds the mine at offset (di, dj) exactly when it is not the centre and lies on the board |
| GameRules.CountedUpToStep | SignalRIleRealtimeUygulamaGelistirme/MinesweeperGame/Minesweeper/Services/GameService.cs:119-142 | one cell of the row-major scan: mines unchanged, the board counted one cell further |
| GameRules.CountedUpToEnds | SignalRIleRealtimeUygulamaGelistirme/MinesweeperGame/Minesweeper/Services/GameService.cs:119-142 | the scan starts from the board and ends at the counted board |
| GameRules.CountedConsistent | SignalRIleRealtimeUygulamaGelistirme/MinesweeperGame/Minesweeper/Services/GameService.cs:117-143 | counting a positioned board with `MineCount` mines makes every safe cell's count its number of neighbouring mines |
| GameRules.MinedAndCounted | SignalRIleRealtimeUygulamaGelistirme/MinesweeperGame/Minesweeper/Services/GameService.cs:85-99 | fresh cells, mined and counted, form a consistent board that is untouched, with mines exactly at the mined set |
| GameRules.StartedBoard | SignalRIleRealtimeUygulamaGelistirme/MinesweeperGame/Minesweeper/Services/GameService.cs:85-99 | the board built from the draws consumed by placement is consistent, untouched and mined by those draws |
| GameRules.WinCondition | SignalRIleRealtimeUygulamaGelistirme/MinesweeperGame/Minesweeper/Services/GameService.cs:179-194 | on a consistent board, "uncovered safe cells == Rows * Cols - MineCount" holds exactly when every safe cell is uncovered |
| GameBoard.Fill | SignalRIleRealtimeUygulamaGelistirme/MinesweeperGame/Minesweeper/Services/GameService.cs:200-224 | the recursive fill as a value; it terminates because every step uncovers a covered cell, and it keeps the board's shape |
| GameBoard.FillSpec | SignalRIleRealtimeUygulamaGelistirme/MinesweeperGame/Minesweeper/Services/GameService.cs:200-224 | the fill uncovers, in the player's name, exactly the cells it lists. Each listed cell is distinct and was covered, safe and unflagged. It leaves every other cell alone and spreads only from cells with no mine around them. No coverable neighbour of an uncovered zero cell is left covered. The first cell is the start, and a cell it may not uncover gives nothing |
| GameBoard.FillKeeps | SignalRIleRealtimeUygulamaGelistirme/MinesweeperGame/Minesweeper/Services/GameService.cs:200-224 | the fill changes no mine, count or position, and every cell it lists is on the board |
| GameBoard.FillNoGrow | SignalRIleRealtimeUygulamaGelistirme/MinesweeperGame/Minesweeper/Services/GameService.cs:200-224 | the fill never covers a cell |
| GameBoard.SameLayoutConsistent | SignalRIleRealtimeUygulamaGelistirme/MinesweeperGame/Minesweeper/Services/GameService.cs:160-177 | uncovering and flagging keep a consistent board consistent |
| GameBoard.ExposeMines | SignalRIleRealtimeUygulamaGelistirme/MinesweeperGame/Minesweeper/Services/GameService.cs:226-239 | showing the mines keeps the board's shape |
| GameBoard.ExposeMinesEffect | SignalRIleRealtimeUygulamaGelistirme/MinesweeperGame/Minesweeper/Services/GameService.cs:226-239 | afterwards no mine is covered, no mine, count or position changed, and every safe cell is as it was |
| GameBoard.HiddenMinesOnBoard | SignalRIleRealtimeUygulamaGelistirme/MinesweeperGame/Minesweeper/Services/GameService.cs:232-235 | every cell the mine loop reports lies on the board |
| GameBoard.FlagToggled | SignalRIleRealtimeUygulamaGelistirme/MinesweeperGame/Minesweeper/Services/GameService.cs:253-257 | the flag of the cell is flipped |
| GameBoard.FlagToggledTwice | SignalRIleRealtimeUygulamaGelistirme/MinesweeperGame/Minesweeper/Services/GameService.cs:253-257 | flipping the same flag twice restores the board |
| GameBoard.FlagToggledKeeps | SignalRIleRealtimeUygulamaGelistirme/MinesweeperGame/Minesweeper/Services/GameService.cs:253-257 | a flag changes no mine or count and no other cell |
| GameBoard.CellsAt | SignalRIleRealtimeUygulamaGelistirme/MinesweeperGame/Minesweeper/Models/GameModel.cs:50-55 | the result's cell list: the cells at the reported positions, one for one |
| GameBoard.PositionsOfCellsAt | SignalRIleRealtimeUygulamaGelistirme/MinesweeperGame/Minesweeper/Models/GameModel.cs:12-21 | on a board whose cells record their positions, the reported cells give back exactly the reported positions |
| GameService.MineHitOnBoard | SignalRIleRealtimeUygulamaGelistirme/MinesweeperGame/Minesweeper/Services/GameService.cs:160-174 | the mine cell and every other covered mine that may be shown lie on the board |
| GameService.MineHitConsistent | SignalRIleRealtimeUygulamaGelistirme/MinesweeperGame/Minesweeper/Services/GameService.cs:160-174 | a mine hit, with or without showing all mines, keeps the board consistent |
| GameService.SafeRevealConsistent | SignalRIleRealtimeUygulamaGelistirme/MinesweeperGame/Minesweeper/Services/GameService.cs:176-194 | a safe reveal keeps the board consistent |
| GameService.FillThenWin | SignalRIleRealtimeUygulamaGelistirme/MinesweeperGame/Minesweeper/Services/GameService.cs:176-194 | after a fill on a consistent board the source's win count is equivalent to every safe cell being uncovered |
| GameService.FlagKeepsConsistent | SignalRIleRealtimeUygulamaGelistirme/MinesweeperGame/Minesweeper/Services/GameService.cs:253-257 | flipping a flag keeps the board consistent |
| GameService.GameService.constructor | SignalRIleRealtimeUygulamaGelistirme/MinesweeperGame/Minesweeper/Services/GameService.cs:7 | the registry starts empty |
| GameService.GameService.CreateRoom | SignalRIleRealtimeUygulamaGelistirme/MinesweeperGame/Minesweeper/Services/GameService.cs:11-19 | a new default room is registered under the id and replaces any room already there |
| GameService.GameService.GetRoom | SignalRIleRealtimeUygulamaGelistirme/MinesweeperGame/Minesweeper/Services/GameService.cs:21-27 | the room under the id, or null exactly when there is none |
| GameService.GameService.AddPlayer | SignalRIleRealtimeUygulamaGelistirme/MinesweeperGame/Minesweeper/Services/GameService.cs:37-55 | no room gives no player; otherwise a new living player with score 0 is appended and returned, in any room state |
| GameService.GameService.RemovePlayer | SignalRIleRealtimeUygulamaGelistirme/MinesweeperGame/Minesweeper/Services/GameService.cs:57-71 | every player of the connection leaves; the room is unregistered exactly when its roster becomes empty; a missing room changes nothing |
| GameService.GameService.StartGame | SignalRIleRealtimeUygulamaGelistirme/MinesweeperGame/Minesweeper/Services/GameService.cs:73-83 | a Waiting room becomes Playing with a consistent, untouched board mined by the draws; any other room, or none, is left unchanged |
| GameService.GameService.InitializeBoard | SignalRIleRealtimeUygulamaGelistirme/MinesweeperGame/Minesweeper/Services/GameService.cs:85-99 | the room gets a `Rows x Cols` board with exactly `MineCount` mines, correct counts, nothing uncovered, mined by the draws |
| GameService.GameService.PlaceMines | SignalRIleRealtimeUygulamaGelistirme/MinesweeperGame/Minesweeper/Services/GameService.cs:101-115 | exactly `MineCount` cells are mines: the distinct cells among the draws, up to the first draw at which there are enough |
| GameService.GameService.CalculateAdjacentMines | SignalRIleRealtimeUygulamaGelistirme/MinesweeperGame/Minesweeper/Services/GameService.cs:117-143 | the board becomes `Counted` of the old board |
| GameService.GameService.CountAdjacentMines | SignalRIleRealtimeUygulamaGelistirme/MinesweeperGame/Minesweeper/Services/GameService.cs:125-139 | the result of the two offset loops is the number of in-bounds neighbouring mines |
| GameService.GameService.CountRevealedSafe | SignalRIleRealtimeUygulamaGelistirme/MinesweeperGame/Minesweeper/Services/GameService.cs:180-188 | the win loop's result is the number of uncovered safe cells |
| GameService.GameService.RevealCell | SignalRIleRealtimeUygulamaGelistirme/MinesweeperGame/Minesweeper/Services/GameService.cs:145-198 | for a missing or unstarted room, or a missing or dead player, the result is empty and nothing changes. An uncovered or flagged cell also gives an empty result and changes nothing. Otherwise the outcome is the mine hit or the safe reveal below |
| GameService.GameService.Move | SignalRIleRealtimeUygulamaGelistirme/MinesweeperGame/Minesweeper/Services/GameService.cs:157-194 | past the room and player guards: nothing for an uncovered or flagged cell, otherwise the mine hit or the safe reveal; the room invariant is kept |
| GameService.GameService.HitMine | SignalRIleRealtimeUygulamaGelistirme/MinesweeperGame/Minesweeper/Services/GameService.cs:160-174 | the cell is uncovered in the player's name. The player dies and keeps the score, and the result has `HitMine` set. Only when nobody is left alive does the room finish, with every other covered mine shown and reported after the cell |
| GameService.GameService.RevealSafe | SignalRIleRealtimeUygulamaGelistirme/MinesweeperGame/Minesweeper/Services/GameService.cs:176-194 | the fill runs in the player's name, and the player's score rises by exactly the number of cells it uncovered. The result lists those cells in fill order. `GameWon` is set and the room finishes exactly when every safe cell is uncovered |
| GameService.GameService.FinishIfWon | SignalRIleRealtimeUygulamaGelistirme/MinesweeperGame/Minesweeper/Services/GameService.cs:179-194 | the room finishes and the move counts as won exactly when every safe cell is uncovered |
| GameService.GameService.FloodFill | SignalRIleRealtimeUygulamaGelistirme/MinesweeperGame/Minesweeper/Services/GameService.cs:200-224 | the board and the list of uncovered cells are those of `Fill` |
| GameService.GameService.FillAround | SignalRIleRealtimeUygulamaGelistirme/MinesweeperGame/Minesweeper/Services/GameService.cs:215-222 | the two offset loops recurse into all eight neighbours in the source's order, as `FillWindow` does |
| GameService.GameService.FillNeighbour | SignalRIleRealtimeUygulamaGelistirme/MinesweeperGame/Minesweeper/Services/GameService.cs:219-220 | one recursive call advances the window scan by one neighbour |
| GameService.GameService.RevealAllMines | SignalRIleRealtimeUygulamaGelistirme/MinesweeperGame/Minesweeper/Services/GameService.cs:226-239 | every covered mine is uncovered and reported in row-major order; nothing else changes |
| GameService.GameService.ToggleFlag | SignalRIleRealtimeUygulamaGelistirme/MinesweeperGame/Minesweeper/Services/GameService.cs:241-259 | the flag flips exactly when the room is Playing, the player exists and is alive, the cell is on the board and it is covered; every other call changes nothing |
| GameService.GameService.AddMessage | SignalRIleRealtimeUygulamaGelistirme/MinesweeperGame/Minesweeper/Services/GameService.cs:261-280 | an existing room's log becomes `Appended` of the old log; a missing room changes nothing |
| GameService.GameService.GetRoomByConnectionId | SignalRIleRealtimeUygulamaGelistirme/MinesweeperGame/Minesweeper/Services/GameService.cs:298-311 | a registered room whose roster has the connection, or null exactly when no room has it |
| ApiModel.NewCell | SignalRIleRealtimeUygulamaGelistirme/Minesweeper/Minesweeper.API/Models/Cell.cs:3-10 | a new cell is no mine, covered, unflagged, counts 0 and belongs to nobody |
| ApiModel.NewPlayer | SignalRIleRealtimeUygulamaGelistirme/Minesweeper/Minesweeper.API/Models/Player.cs:3-10 | a new player has the required id, name and colour, and score 0 |
| ApiModel.GameRoom.constructor | SignalRIleRealtimeUygulamaGelistirme/Minesweeper/Minesweeper.API/Models/GameRoom.cs:3-13 | a new room has the given id, dimensions and board, no players, status Waiting and no winner |
| ApiBoard.ErasePlace | SignalRIleRealtimeUygulamaGelistirme/Minesweeper/Minesweeper.API/Models/Cell.cs:3-10 | giving the position-less cells their positions and dropping them again is the identity |
| ApiBoard.PlaceErase | SignalRIleRealtimeUygulamaGelistirme/Minesweeper/Minesweeper.API/Models/Cell.cs:3-10 | on a board whose cells sit at their recorded positions, dropping and restoring positions is the identity |
| ApiBoard.GeneratedPlace | SignalRIleRealtimeUygulamaGelistirme/Minesweeper/Minesweeper.API/Services/GameService.cs:198-257 | a board built as the other engine builds one, read without positions, is consistent, untouched and mined by the draws |
| ApiBoard.CountingStep | SignalRIleRealtimeUygulamaGelistirme/Minesweeper/Minesweeper.API/Services/GameService.cs:239-248 | one pass of the inner loop body adds the mine at (row + dr, col + dc) exactly when it lies inside `size` |
| ApiBoard.CreatedBoard | SignalRIleRealtimeUygulamaGelistirme/Minesweeper/Minesweeper.API/Services/GameService.cs:198-257 | the board made of fresh cells, mined by the consumed draws and counted, is consistent, untouched and mined by those draws |
| ApiBoard.Fill | SignalRIleRealtimeUygulamaGelistirme/Minesweeper/Minesweeper.API/Services/GameService.cs:138-164 | the recursive fill as a value; it keeps the board's shape |
| ApiBoard.FillUnfold | SignalRIleRealtimeUygulamaGelistirme/Minesweeper/Minesweeper.API/Services/GameService.cs:138-164 | the fill stops at a cell off the board, uncovered, a mine or flagged; otherwise it uncovers the cell and, exactly when the cell has no mine around it, scans the window |
| ApiBoard.FillSpec | SignalRIleRealtimeUygulamaGelistirme/Minesweeper/Minesweeper.API/Services/GameService.cs:138-164 | the fill uncovers, in the player's name, exactly the listed cells, each distinct and previously covered, safe and unflagged, and nothing else. It spreads only from zero cells and leaves no coverable cell next to an uncovered zero cell. The first cell is the start |
| ApiBoard.RevealedAsKeeps | SignalRIleRealtimeUygulamaGelistirme/Minesweeper/Minesweeper.API/Services/GameService.cs:138-164 | the fill changes no mine or count, and every listed position is on the board |
| ApiBoard.MineShown | SignalRIleRealtimeUygulamaGelistirme/Minesweeper/Minesweeper.API/Services/GameService.cs:96-99 | the mine cell is uncovered while its flag and its `RevealedBy` stay as they were, so no name is recorded; mines and counts are kept and every other cell is unchanged |
| ApiBoard.FlagToggled | SignalRIleRealtimeUygulamaGelistirme/Minesweeper/Minesweeper.API/Services/GameService.cs:179 | the flag of the cell is flipped |
| ApiBoard.FlagToggledTwice | SignalRIleRealtimeUygulamaGelistirme/Minesweeper/Minesweeper.API/Services/GameService.cs:166-181 | flipping the same flag twice restores the board, carried over from the start-gated board through `FlagToggledPlace` |
| ApiBoard.FlagToggledPlace | SignalRIleRealtimeUygulamaGelistirme/Minesweeper/Minesweeper.API/Services/GameService.cs:166-181 | flipping a flag and then reading the board with its positions equals flipping the same flag on the positioned board |
| ApiBoard.WinCondition | SignalRIleRealtimeUygulamaGelistirme/Minesweeper/Minesweeper.API/Services/GameService.cs:119-123 | the number of covered safe cells is 0 exactly when every safe cell is uncovered |
| ApiRoster.ColorFor | SignalRIleRealtimeUygulamaGelistirme/Minesweeper/Minesweeper.API/Services/GameService.cs:10-11 | a joining player's colour is one of the seven palette colours |
| ApiRoster.ColorsCycle | SignalRIleRealtimeUygulamaGelistirme/Minesweeper/Minesweeper.API/Services/GameService.cs:54 | two players get the same colour exactly when the roster sizes they joined at agree modulo 7 |
| ApiRoster.FirstById | SignalRIleRealtimeUygulamaGelistirme/Minesweeper/Minesweeper.API/Services/GameService.cs:112 | the index of the first player with the id, with no earlier match; none exactly when no player has it |
| ApiRoster.WithoutId | SignalRIleRealtimeUygulamaGelistirme/Minesweeper/Minesweeper.API/Services/GameService.cs:73 | the roster keeps exactly the players with other ids; none with the id is left; a roster without it is unchanged. Order and repetitions are given by `WithoutIdAppend` and `WithoutIdSingle` |
| ApiRoster.WithoutIdAppend | SignalRIleRealtimeUygulamaGelistirme/Minesweeper/Minesweeper.API/Services/GameService.cs:73 | removal works player by player: removing from a joined roster joins the two removals, so the players who stay keep their relative order and their number |
| ApiRoster.WithoutIdSingle | SignalRIleRealtimeUygulamaGelistirme/Minesweeper/Minesweeper.API/Services/GameService.cs:73 | a single player stays exactly when its id is another |
| ApiRoster.WithoutIdIdempotent | SignalRIleRealtimeUygulamaGelistirme/Minesweeper/Minesweeper.API/Services/GameService.cs:73 | removing an id twice is removing it once |
| ApiRoster.Credited | SignalRIleRealtimeUygulamaGelistirme/Minesweeper/Minesweeper.API/Services/GameService.cs:112-116 | crediting keeps the roster's length |
| ApiRoster.CreditedTotal | SignalRIleRealtimeUygulamaGelistirme/Minesweeper/Minesweeper.API/Services/GameService.cs:112-116 | the total score rises by n exactly when a player has the id, and is unchanged otherwise |
| ApiRoster.CreditedKeeps | SignalRIleRealtimeUygulamaGelistirme/Minesweeper/Minesweeper.API/Services/GameService.cs:112-116 | no id, name or colour changes, and only the first player with the id gains n points |
| ApiRoster.TotalUpdate | SignalRIleRealtimeUygulamaGelistirme/Minesweeper/Minesweeper.API/Services/GameService.cs:115 | replacing one player moves the total by the difference of their scores |
| ApiRoster.ScoresCleared | SignalRIleRealtimeUygulamaGelistirme/Minesweeper/Minesweeper.API/Services/GameService.cs:191-194 | clearing keeps the roster's length |
| ApiRoster.ScoresClearedTotal | SignalRIleRealtimeUygulamaGelistirme/Minesweeper/Minesweeper.API/Services/GameService.cs:191-194 | every score is 0, the total is 0, and every id, name and colour is kept |
| ApiRoster.Leader | SignalRIleRealtimeUygulamaGelistirme/Minesweeper/Minesweeper.API/Services/GameService.cs:126 | the stable descending sort's first player: no one scores more, and everyone before them scores less |
| ApiRoster.WinnerIdAsWritten | SignalRIleRealtimeUygulamaGelistirme/Minesweeper/Minesweeper.API/Services/GameService.cs:126 | on a non-empty roster the winner is the id of the first player, in roster order, with the highest score: no one scores more and everyone before that player scores less. Every index with that property carries the winner's id, so ties go to the earliest player |
| ApiRoster.WinnerId | SignalRIleRealtimeUygulamaGelistirme/Minesweeper/Minesweeper.API/Services/GameService.cs:119-127 | no winner exactly when the roster is empty; otherwise the id of the first player, in roster order, with the highest score, with ties going to the earliest player |
| ApiService.MineHitConsistent | SignalRIleRealtimeUygulamaGelistirme/Minesweeper/Minesweeper.API/Services/GameService.cs:96-99 | uncovering a mine keeps the board consistent |
| ApiService.FillConsistent | SignalRIleRealtimeUygulamaGelistirme/Minesweeper/Minesweeper.API/Services/GameService.cs:108-109 | a fill keeps the board consistent |
| ApiService.FlagKeepsConsistent | SignalRIleRealtimeUygulamaGelistirme/Minesweeper/Minesweeper.API/Services/GameService.cs:179 | flipping a flag keeps the board consistent |
| ApiService.GameService.constructor | SignalRIleRealtimeUygulamaGelistirme/Minesweeper/Minesweeper.API/Services/GameService.cs:8 | the registry starts empty |
| ApiService.GameService.CreateRoom | SignalRIleRealtimeUygulamaGelistirme/Minesweeper/Minesweeper.API/Services/GameService.cs:13-26 | a new Waiting room with the given dimensions and a generated board is returned. It is registered only when the id is free, and an existing room stays |
| ApiService.GameService.GetRoom | SignalRIleRealtimeUygulamaGelistirme/Minesweeper/Minesweeper.API/Services/GameService.cs:28-32 | the room under the id, or null exactly when there is none |
| ApiService.GameService.GetOrCreateRoom | SignalRIleRealtimeUygulamaGelistirme/Minesweeper/Minesweeper.API/Services/GameService.cs:34-44 | an existing room is returned unchanged. Otherwise a new Waiting room is registered and returned, with size 10, 15 mines and a generated board |
| ApiService.GameService.AddPlayer | SignalRIleRealtimeUygulamaGelistirme/Minesweeper/Minesweeper.API/Services/GameService.cs:46-67 | the room is found or created. A player with score 0 and the colour for the previous roster size is appended and returned. A Waiting room becomes Playing, and any other status is kept |
| ApiService.GameService.Join | SignalRIleRealtimeUygulamaGelistirme/Minesweeper/Minesweeper.API/Services/GameService.cs:50-64 | the same on the room found or made, keeping the room invariant |
| ApiService.GameService.RemovePlayer | SignalRIleRealtimeUygulamaGelistirme/Minesweeper/Minesweeper.API/Services/GameService.cs:69-80 | every player with the id leaves; the room is unregistered exactly when its roster becomes empty; a missing room changes nothing |
| ApiService.GameService.RevealCell | SignalRIleRealtimeUygulamaGelistirme/Minesweeper/Minesweeper.API/Services/GameService.cs:82-136 | a missing room, a status other than Playing, a cell outside `BoardSize`, or an uncovered or flagged cell each give `Success = false` and change nothing. A mine loses the room and reports the one cell with scores and winner kept. A safe cell gives the safe reveal below |
| ApiService.GameService.Move | SignalRIleRealtimeUygulamaGelistirme/Minesweeper/Minesweeper.API/Services/GameService.cs:96-135 | past the guards: the mine branch or the safe branch, keeping the room invariant |
| ApiService.GameService.RevealSafe | SignalRIleRealtimeUygulamaGelistirme/Minesweeper/Minesweeper.API/Services/GameService.cs:108-135 | the fill runs in the player's name, and the first player with the id is credited with its length. The room is Won exactly when no covered safe cell is left, with the winner chosen from the credited scores. The result echoes the fill, `GameWon` and `WinnerId` |
| ApiService.GameService.FinishIfWon | SignalRIleRealtimeUygulamaGelistirme/Minesweeper/Minesweeper.API/Services/GameService.cs:119-135 | Won, with the leader as winner, exactly when every safe cell is uncovered; otherwise Playing and no winner; the result reports both |
| ApiService.GameService.FloodFill | SignalRIleRealtimeUygulamaGelistirme/Minesweeper/Minesweeper.API/Services/GameService.cs:138-164 | the board and the appended positions are those of `Fill` |
| ApiService.GameService.FillAround | SignalRIleRealtimeUygulamaGelistirme/Minesweeper/Minesweeper.API/Services/GameService.cs:151-163 | the two offset loops recurse into all eight neighbours in the source's order, as `FillWindow` does |
| ApiService.GameService.FillNeighbour | SignalRIleRealtimeUygulamaGelistirme/Minesweeper/Minesweeper.API/Services/GameService.cs:157-160 | one recursive call advances the window scan by one neighbour |
| ApiService.GameService.ToggleFlag | SignalRIleRealtimeUygulamaGelistirme/Minesweeper/Minesweeper.API/Services/GameService.cs:166-181 | returns true exactly when the room exists and is Playing and the cell is inside `BoardSize` and covered. The flag then flips; otherwise nothing changes |
| ApiService.GameService.Flag | SignalRIleRealtimeUygulamaGelistirme/Minesweeper/Minesweeper.API/Services/GameService.cs:175-179 | the flip itself, keeping the room invariant |
| ApiService.GameService.ResetRoom | SignalRIleRealtimeUygulamaGelistirme/Minesweeper/Minesweeper.API/Services/GameService.cs:183-196 | an existing room gets a new board of its own size and mine count, generated from the draws. It becomes Playing with no winner, and the roster is kept with every score 0. A missing room changes nothing |
| ApiService.GameService.Restart | SignalRIleRealtimeUygulamaGelistirme/Minesweeper/Minesweeper.API/Services/GameService.cs:187-194 | the same on the room found |
| ApiService.GameService.ClearScores | SignalRIleRealtimeUygulamaGelistirme/Minesweeper/Minesweeper.API/Services/GameService.cs:191-194 | the loop leaves the roster as `ScoresCleared` of the old one |
| ApiService.GameService.CreateBoard | SignalRIleRealtimeUygulamaGelistirme/Minesweeper/Minesweeper.API/Services/GameService.cs:198-257 | a `size x size` board with exactly `mineCount` mines, mined by the draws, untouched, with every safe cell counting its neighbouring mines. A count of zero or less places no mines. A size of zero or less gives an empty board, and then only a count of zero or less is admitted (see `Random` under Left out) |
| ApiService.GameService.NewBoard | SignalRIleRealtimeUygulamaGelistirme/Minesweeper/Minesweeper.API/Services/GameService.cs:200-211 | the nested loops build `size x size` fresh cells |
| ApiService.GameService.PlaceMines | SignalRIleRealtimeUygulamaGelistirme/Minesweeper/Minesweeper.API/Services/GameService.cs:214-227 | the mines are the distinct draws up to the first draw at which there are `mineCount` of them |
| ApiService.GameService.CountNeighbours | SignalRIleRealtimeUygulamaGelistirme/Minesweeper/Minesweeper.API/Services/GameService.cs:230-254 | the counting loops leave the board as `Counted` of the mined board |
| ApiService.GameService.CountRow | SignalRIleRealtimeUygulamaGelistirme/Minesweeper/Minesweeper.API/Services/GameService.cs:232-253 | one row of the counting loops advances the row-major scan by a whole row |
| ApiService.GameService.CountAround | SignalRIleRealtimeUygulamaGelistirme/Minesweeper/Minesweeper.API/Services/GameService.cs:236-249 | the window loop, centre included, counts the mines inside `size` around the cell |
| ApiService.OneCellWin | SignalRIleRealtimeUygulamaGelistirme/Minesweeper/Minesweeper.API/Services/GameService.cs:119-127 | on an untouched 1 x 1 board without mines, revealing the cell wins |
| ApiService.EmptyRosterWin | SignalRIleRealtimeUygulamaGelistirme/Minesweeper/Minesweeper.API/Services/GameService.cs:119-127 | a room created with size 1 and no mines, then reset without any player joining, is won by the first reveal. The roster is empty at that moment, so the corrected model reports no winner |

## Left out

- Locks and the concurrent dictionary: each operation is one atomic sequential method.
- `Random`: the draws are a parameter. `DrawsSuffice` requires them to lie on the board and to contain at least `MineCount` distinct cells. Two kinds of input fail in the source, and `DrawsSuffice` excludes both:
  - On a board with cells, asking for more mines than cells makes the auto-start placement loop run forever.
  - In the auto-start engine, a size of zero or less with a positive mine count throws. `Random.Next(0)` returns 0 and `board[0][0]` on the empty board is out of range. `Random.Next` with a negative bound throws at once. `RoomsController.CreateRoom` can pass such a size, for example 0 with the default 15 mines.
- Clock readings (`CreatedAt`, `JoinedAt`, `ChatMessage.Timestamp`) are dropped.
- `GetAllRooms` (both engines) and `GetPlayerByConnectionId` are plain queries: a list of the registry's values and a search through it. They are not modelled.
- The hubs, controllers, start-up code and clients are not part of this model.
- Cells, players and rooms are objects in C#. Here cells and players are values inside the room's sequences, so the model does not capture aliasing. An example: a `Player` returned by `AddPlayer` and later changed through the room.
- `int` arithmetic is unbounded here. Scores, counts and `Rows * Cols` cannot overflow at the sizes the service uses.
- GameService.GameService.RevealCell: in-bounds coordinates are a precondition once the room and player guards pass. The source indexes the board without a check and throws on an out-of-range cell, and that exception is not modelled.
- GameService.GameService.RevealCell: `RevealedCells` holds references to `Cell` objects that callers read after the call. The model reports the cells at the reported positions on the final board (`CellsAt`). `PositionsOfCellsAt` says those cells give back the positions.
- GameService.GameService.AddPlayer: the source returns `null!` when the room is missing; the model returns `None`.
- GameService.GameService.GetRoomByConnectionId: the source returns the first match in the dictionary's enumeration order. The model promises only some matching room.
- GameService.GameService.RevealAllMines: as in the source, flags are left set on the mines it uncovers, and those cells get no `RevealedBy`.
- ApiService.GameService.CreateRoom: as in the source, an id that is taken yields a new room that is returned but not registered.
- Default parameter values (`boardSize = 10`, `mineCount = 15`) are not modelled. Callers pass both values; `GetOrCreateRoom` uses `DefaultBoardSize` and `DefaultMineCount`.
- Some source methods are split into several Dafny methods, one per part, so each can be proved on its own:
  - `Move`, `HitMine`, `RevealSafe`, `FinishIfWon`;
  - `FillAround`, `FillNeighbour`;
  - `Join`, `Flag`, `Restart`, `ClearScores`;
  - `NewBoard`, `PlaceMines`, `CountNeighbours`, `CountRow`, `CountAround`;
  - `CountAdjacentMines` and `CountRevealedSafe`, the inner loops of the source's methods.
- The auto-start engine's `RevealResult.RevealedCells` is a list of positions, as in the source.

## Findings

| source | as written | input that shows it | evidently intended | confidence | as-written member | corrected member |
|---|---|---|---|---|---|---|
| SignalRIleRealtimeUygulamaGelistirme/Minesweeper/Minesweeper.API/Services/GameService.cs:119-127 | On a win the winner is `room.Players.OrderByDescending(p => p.Score).First().Id`, and `First()` throws on an empty roster. `ResetRoom` sets a room Playing whether or not anyone is in it, and `RevealCell` takes no player from the roster. | `CreateRoom("r", 1, 0)`, then `ResetRoom("r")`, then `RevealCell("r", 0, 0, "x")`: the only cell is safe, so the reveal wins while the roster is empty | a win with nobody in the room has no winner | not executed | ApiRoster.WinnerIdAsWritten, ApiService.EmptyRosterWin | ApiRoster.WinnerId |

`WinnerIdAsWritten` needs a non-empty roster, which is the case `First()` handles.
`EmptyRosterWin` makes the three calls on the model, and its contract says the reveal succeeds and wins with an empty roster, so the source would call `First()` on nothing. The model uses `WinnerId`, which gives no winner there.
