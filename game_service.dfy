/** The start-gated, multi-life room engine: a registry of rooms that a
    game must be started in, where a mine costs only the player who hits it
    and the room finishes when every player is dead or the board is cleared. */
module GameService {
  import opened Optional
  import opened Grid
  import opened GameModel
  import opened GameBoard
  import opened GameRules

  /** What every registered room keeps between calls: no board before the
      start, a consistent board after it, a capped chat log. */
  ghost predicate RoomInvariant(room: GameRoom)
    reads room
  {
    && (room.status == Waiting ==> room.board == [])
    && (room.status != Waiting ==> Consistent(room.board, room.rows, room.cols, room.mineCount))
    && |room.messages| <= MaxMessages
  }

  /** The state after a living player uncovers the mine at p: that cell is
      uncovered in the player's name, the player dies with the score kept,
      and only if nobody is left alive does the room finish with every
      other covered mine uncovered too, in row-major order. The cells
      reported are read after the call. */
  ghost predicate AfterMineHit(b0: Board, ps0: seq<Player>, b: Board, ps: seq<Player>, status: GameStatus,
                               result: RevealResult, p: Coord, k: nat)
    requires OnBoard(b0, p) && k < |ps0|
  {
    var b1 := UncoverAt(b0, p, ps0[k].name);
    var shown := if AllDead(ps) then [p] + HiddenMines(b1) else [p];
    && ps == ps0[k := ps0[k].(isAlive := false)]
    && result.hitMine && !result.gameWon
    && status == (if AllDead(ps) then Finished else Playing)
    && b == (if AllDead(ps) then ExposeMines(b1) else b1)
    && AllOnBoard(b, shown)
    && result.revealedCells == CellsAt(b, shown)
  }

  /** The state after a living player uncovers the safe cell p: the flood
      fill from p in the player's name, reported in the order it uncovered
      the cells, the player's score raised by their number, and the room
      finished exactly when no safe cell is left covered. */
  ghost predicate AfterSafeReveal(b0: Board, ps0: seq<Player>, b: Board, ps: seq<Player>, status: GameStatus,
                                  result: RevealResult, p: Coord, k: nat)
    requires k < |ps0|
  {
    var f := Fill(b0, p, ps0[k].name);
    && b == f.0
    && AllOnBoard(b, f.1)
    && result.revealedCells == CellsAt(b, f.1)
    && !result.hitMine
    && ps == Scored(ps0, k, |f.1|)
    && (result.gameWon <==> AllSafeRevealed(b))
    && status == (if result.gameWon then Finished else Playing)
  }

  /** Where a mine hit reports: the cell, and then perhaps every other
      covered mine, all lie on the board after the uncovering. */
  lemma MineHitOnBoard(b0: Board, p: Coord, who: string)
    requires OnBoard(b0, p)
    ensures var b1 := UncoverAt(b0, p, who);
            && SameLayout(b0, b1) && AllOnBoard(b1, [p])
            && SameLayout(b1, ExposeMines(b1))
            && AllOnBoard(ExposeMines(b1), [p] + HiddenMines(b1))
  {
    var b1 := UncoverAt(b0, p, who);
    UncoverAtKeeps(b0, p, who);
    ExposeMinesEffect(b1);
    HiddenMinesOnBoard(b1);
    var shown := [p] + HiddenMines(b1);
    forall k | 0 <= k < |shown| ensures OnBoard(ExposeMines(b1), shown[k]) {
      if k > 0 { assert shown[k] == HiddenMines(b1)[k - 1]; }
    }
  }

  /** A mine hit keeps the board consistent: uncovering the cell, and then
      perhaps every mine, changes no layout. */
  lemma MineHitConsistent(b0: Board, ps0: seq<Player>, b: Board, ps: seq<Player>, status: GameStatus,
                          result: RevealResult, p: Coord, k: nat, rows: nat, cols: nat, mineCount: nat)
    requires Consistent(b0, rows, cols, mineCount) && OnBoard(b0, p) && k < |ps0|
    requires AfterMineHit(b0, ps0, b, ps, status, result, p, k)
    ensures Consistent(b, rows, cols, mineCount)
  {
    var b1 := UncoverAt(b0, p, ps0[k].name);
    MineHitOnBoard(b0, p, ps0[k].name);
    SameLayoutConsistent(b0, b1, rows, cols, mineCount);
    if b != b1 {
      SameLayoutConsistent(b1, b, rows, cols, mineCount);
    }
  }

  /** A safe reveal keeps the board consistent: the flood fill changes no
      layout. */
  lemma SafeRevealConsistent(b0: Board, ps0: seq<Player>, b: Board, ps: seq<Player>, status: GameStatus,
                             result: RevealResult, p: Coord, k: nat, rows: nat, cols: nat, mineCount: nat)
    requires Consistent(b0, rows, cols, mineCount) && k < |ps0|
    requires AfterSafeReveal(b0, ps0, b, ps, status, result, p, k)
    ensures Consistent(b, rows, cols, mineCount)
  {
    FillKeeps(b0, p, ps0[k].name);
    SameLayoutConsistent(b0, b, rows, cols, mineCount);
  }

  /** What the win test after a flood fill needs: the filled board has the
      shape of the original, every cell the fill lists lies on it, and the
      source's count test holds exactly when no safe cell is left covered. */
  lemma FillThenWin(b0: Board, rows: nat, cols: nat, mineCount: nat, p: Coord, who: string)
    requires Consistent(b0, rows, cols, mineCount)
    ensures var f := Fill(b0, p, who);
            && Shaped(f.0, rows, cols) && AllOnBoard(f.0, f.1)
            && (Count(RevealedSafe(f.0)) == rows * cols - mineCount <==> AllSafeRevealed(f.0))
  {
    var f := Fill(b0, p, who);
    FillKeeps(b0, p, who);
    SameLayoutConsistent(b0, f.0, rows, cols, mineCount);
    WinCondition(f.0, rows, cols, mineCount);
  }

  /** Flipping a flag keeps a board consistent. */
  lemma FlagKeepsConsistent(b0: Board, rows: nat, cols: nat, mineCount: nat, p: Coord)
    requires Consistent(b0, rows, cols, mineCount) && OnBoard(b0, p)
    ensures Consistent(FlagToggled(b0, p), rows, cols, mineCount)
  {
    FlagToggledKeeps(b0, p);
    SameLayoutConsistent(b0, FlagToggled(b0, p), rows, cols, mineCount);
  }

  class GameService {
    var rooms: map<string, GameRoom>

    /** Every room is registered under its own id and keeps its invariant. */
    ghost predicate Valid()
      reads this, rooms.Values
    {
      forall id :: id in rooms ==> rooms[id].roomId == id && RoomInvariant(rooms[id])
    }

    /** The room a call on `roomId` may change. */
    function RoomFrame(roomId: string): set<GameRoom>
      reads this
    {
      if roomId in rooms then {rooms[roomId]} else {}
    }

    /** The room exists and is being played, and the connection belongs to
      a living player of it: the guards every move passes first. */
    predicate CanAct(roomId: string, connectionId: string)
      reads this, rooms.Values
    {
      && roomId in rooms && rooms[roomId].status == Playing
      && var k := FindPlayer(rooms[roomId].players, connectionId);
         k.Some? && rooms[roomId].players[k.value].isAlive
    }

    constructor ()
      ensures rooms == map[] && Valid()
    {
      rooms := map[];
    }

    /** A new default room under `roomId`, replacing any room already there. */
    method CreateRoom(roomId: string) returns (room: GameRoom)
      requires Valid()
      modifies this
      ensures Valid()
      ensures fresh(room) && rooms == old(rooms)[roomId := room]
      ensures room.roomId == roomId && room.status == Waiting
      ensures room.players == [] && room.board == [] && room.messages == []
      ensures room.rows == 10 && room.cols == 10 && room.mineCount == 15
    {
      room := new GameRoom(roomId);
      rooms := rooms[roomId := room];
    }

    /** The room registered under `roomId`, or null. */
    function GetRoom(roomId: string): (room: GameRoom?)
      reads this
      ensures room != null <==> roomId in rooms
      ensures room != null ==> room == rooms[roomId] && room in RoomFrame(roomId)
    {
      if roomId in rooms then rooms[roomId] else null
    }

    /** A new player, alive and scoreless, appended to an existing room in
      any state; nothing when the room does not exist. */
    method AddPlayer(roomId: string, connectionId: string, playerName: string) returns (player: Option<Player>)
      requires Valid()
      modifies RoomFrame(roomId)`players
      ensures Valid() && rooms == old(rooms)
      ensures roomId !in rooms ==> player == None
      ensures roomId in rooms ==>
                player == Some(NewPlayer(connectionId, playerName))
                && rooms[roomId].players == old(rooms[roomId].players) + [player.value]
    {
      var room := GetRoom(roomId);
      if room == null { return None; }
      var p := NewPlayer(connectionId, playerName);
      room.players := room.players + [p];
      player := Some(p);
    }

    /** Every player of that connection leaves the room; a room left empty
      is removed from the registry. */
    method RemovePlayer(roomId: string, connectionId: string)
      requires Valid()
      modifies this, RoomFrame(roomId)`players
      ensures Valid()
      ensures roomId !in old(rooms) ==> rooms == old(rooms)
      ensures roomId in old(rooms) ==>
                var room := old(rooms)[roomId];
                && room.players == Without(old(room.players), connectionId)
                && rooms == if room.players == [] then old(rooms) - {roomId} else old(rooms)
    {
      var room := GetRoom(roomId);
      if room == null { return; }
      room.players := Without(room.players, connectionId);
      if |room.players| == 0 {
        rooms := rooms - {roomId};
      }
    }

    /** A waiting room starts: it is set to Playing and gets a freshly mined,
      counted board drawn from `draws`. Any other room is left alone. */
    method StartGame(roomId: string, draws: seq<Coord>)
      requires Valid()
      requires roomId in rooms && rooms[roomId].status == Waiting ==>
                 DrawsSuffice(draws, rooms[roomId].rows, rooms[roomId].cols, rooms[roomId].mineCount)
      modifies RoomFrame(roomId)`status, RoomFrame(roomId)`board
      ensures Valid() && rooms == old(rooms)
      ensures roomId in rooms && old(rooms[roomId].status) != Waiting ==> unchanged(rooms[roomId])
      ensures roomId in rooms && old(rooms[roomId].status) == Waiting ==>
                var room := rooms[roomId];
                && room.status == Playing
                && Consistent(room.board, room.rows, room.cols, room.mineCount)
                && Pristine(room.board)
                && MinedBy(room.board, draws, room.mineCount)
    {
      var room := GetRoom(roomId);
      if room == null || room.status != Waiting { return; }
      room.status := Playing;
      InitializeBoard(room, draws);
    }

    /** A rows x cols board of fresh cells, then mined from the draws, then counted. */
    method InitializeBoard(room: GameRoom, draws: seq<Coord>)
      requires DrawsSuffice(draws, room.rows, room.cols, room.mineCount)
      modifies room`board
      ensures Consistent(room.board, room.rows, room.cols, room.mineCount)
      ensures Pristine(room.board)
      ensures MinedBy(room.board, draws, room.mineCount)
    {
      ghost var start := FreshBoard(room.rows, room.cols);
      var board: seq<seq<Cell>> := [];
      for i := 0 to room.rows
        invariant board == start[..i]
      {
        var line: seq<Cell> := [];
        for j := 0 to room.cols
          invariant line == start[i][..j]
        {
          line := line + [NewCell(i, j)];
        }
        assert line == start[i];
        board := board + [line];
      }
      assert board == start;
      room.board := board;
      PlaceMines(room, draws);
      ghost var k :| 0 <= k <= |draws| && StopsAt(draws, room.mineCount, k)
                     && room.board == WithMines(start, DrawSet(draws[..k]));
      CalculateAdjacentMines(room);
      StartedBoard(room.rows, room.cols, room.mineCount, draws, k);
    }

    /** Rejection sampling: draw cells until `mineCount` distinct ones are
      mines. Only `isMine` changes. */
    method PlaceMines(room: GameRoom, draws: seq<Coord>)
      requires Shaped(room.board, room.rows, room.cols)
      requires forall i, j :: 0 <= i < |room.board| && 0 <= j < |room.board[i]| ==> !room.board[i][j].isMine
      requires DrawsSuffice(draws, room.rows, room.cols, room.mineCount)
      modifies room`board
      ensures Count(Mines(room.board)) == room.mineCount
      ensures exists k :: 0 <= k <= |draws| && StopsAt(draws, room.mineCount, k)
                && room.board == WithMines(old(room.board), DrawSet(draws[..k]))
    {
      ghost var b0 := room.board;
      PlacingStart(b0, draws, room.mineCount);
      var placed := 0;
      var k := 0;
      while placed < room.mineCount
        invariant Placing(b0, draws, room.mineCount, k, placed, room.board)
        decreases |draws| - k
      {
        PlacingStep(b0, room.rows, room.cols, draws, room.mineCount, k, placed, room.board);
        var row, col := draws[k].0, draws[k].1;
        if !room.board[row][col].isMine {
          room.board := room.board[row := room.board[row][col := room.board[row][col].(isMine := true)]];
          placed := placed + 1;
        }
        k := k + 1;
      }
    }

    /** Every safe cell gets the number of mines among its in-bounds
      neighbours. */
    method CalculateAdjacentMines(room: GameRoom)
      requires Shaped(room.board, room.rows, room.cols)
      modifies room`board
      ensures room.board == Counted(old(room.board))
    {
      ghost var b0 := room.board;
      CountedUpToEnds(b0);
      for i := 0 to room.rows
        invariant room.board == CountedUpTo(b0, i, 0)
      {
        for j := 0 to room.cols
          invariant room.board == CountedUpTo(b0, i, j)
        {
          CountedUpToStep(b0, i, j);
          if !room.board[i][j].isMine {
            var count := CountAdjacentMines(room.board, room.rows, room.cols, i, j);
            room.board := room.board[i := room.board[i][j := room.board[i][j].(adjacentMines := count)]];
          }
        }
        CountedUpToRow(b0, i);
      }
    }

    /** The inner loops of the adjacency count: the in-bounds mines among
      the eight cells around (i, j). */
    method CountAdjacentMines(b: Board, rows: nat, cols: nat, i: int, j: int) returns (count: nat)
      requires Shaped(b, rows, cols)
      ensures count == AdjacentCount(Mines(b), (i, j))
    {
      count := 0;
      ghost var n := 0;
      var di := -1;
      while di <= 1
        invariant -1 <= di <= 2 && n == 3 * (di + 1)
        invariant count == Scanned(Mines(b), (i, j), n, false)
      {
        var dj := -1;
        while dj <= 1
          invariant -1 <= dj <= 2 && n == 3 * (di + 1) + (dj + 1)
          invariant count == Scanned(Mines(b), (i, j), n, false)
        {
          ghost var before := count;
          if !(di == 0 && dj == 0) {
            var ni, nj := i + di, j + dj;
            if ni >= 0 && ni < rows && nj >= 0 && nj < cols {
              if b[ni][nj].isMine {
                count := count + 1;
              }
            }
          }
          CountingStep(b, rows, cols, i, j, di, dj, n, before, count);
          dj := dj + 1;
          n := n + 1;
        }
        di := di + 1;
      }
    }

    /** The win test's loop: the number of uncovered safe cells. */
    method CountRevealedSafe(b: Board, rows: nat, cols: nat) returns (count: nat)
      requires Shaped(b, rows, cols)
      ensures count == Count(RevealedSafe(b))
    {
      ghost var l := RevealedSafe(b);
      count := 0;
      for i := 0 to rows
        invariant count == Count(l[..i])
      {
        for j := 0 to cols
          invariant count == Count(l[..i]) + RowCount(l[i][..j])
        {
          assert l[i][..j + 1][..j] == l[i][..j];
          if b[i][j].isRevealed && !b[i][j].isMine {
            count := count + 1;
          }
        }
        assert l[i][..cols] == l[i];
        assert l[..i + 1][..i] == l[..i];
      }
      assert l[..rows] == l;
    }

    /** One move of a player: guarded, then either a mine hit or a flood fill
      followed by the win test. Coordinates must be on the board once the
      guards on room and player have passed. */
    method RevealCell(roomId: string, row: int, col: int, connectionId: string) returns (result: RevealResult)
      requires Valid()
      requires CanAct(roomId, connectionId) ==> InBounds(rooms[roomId].rows, rooms[roomId].cols, (row, col))
      modifies RoomFrame(roomId)`board, RoomFrame(roomId)`players, RoomFrame(roomId)`status
      ensures Valid() && rooms == old(rooms)
      ensures !old(CanAct(roomId, connectionId)) ==>
                result == NoEffect && (roomId in rooms ==> unchanged(rooms[roomId]))
      ensures old(CanAct(roomId, connectionId)) ==>
                var room := rooms[roomId];
                var c := old(room.board[row][col]);
                var k := old(FindPlayer(room.players, connectionId)).value;
                if c.isRevealed || c.isFlagged then
                  result == NoEffect && unchanged(room)
                else if c.isMine then
                  AfterMineHit(old(room.board), old(room.players), room.board, room.players, room.status,
                               result, (row, col), k)
                else
                  AfterSafeReveal(old(room.board), old(room.players), room.board, room.players, room.status,
                                  result, (row, col), k)
    {
      var room := GetRoom(roomId);
      if room == null || room.status != Playing { return NoEffect; }
      var found := FindPlayer(room.players, connectionId);
      if found.None? || !room.players[found.value].isAlive { return NoEffect; }
      var k := found.value;
      result := Move(room, k, row, col);
    }

    /** A living player's move on a cell of a started room: nothing for an
      uncovered or flagged cell, otherwise the mine branch or the safe
      branch; the room keeps its invariant either way. */
    method Move(room: GameRoom, k: nat, row: int, col: int) returns (result: RevealResult)
      requires RoomInvariant(room) && room.status == Playing
      requires k < |room.players| && InBounds(room.rows, room.cols, (row, col))
      modifies room`board, room`players, room`status
      ensures RoomInvariant(room)
      ensures var c := old(room.board[row][col]);
              if c.isRevealed || c.isFlagged then
                result == NoEffect && unchanged(room)
              else if c.isMine then
                AfterMineHit(old(room.board), old(room.players), room.board, room.players, room.status,
                             result, (row, col), k)
              else
                AfterSafeReveal(old(room.board), old(room.players), room.board, room.players, room.status,
                                result, (row, col), k)
    {
      var cell := room.board[row][col];
      if cell.isRevealed || cell.isFlagged { return NoEffect; }
      ghost var b0, ps0 := room.board, room.players;
      if cell.isMine {
        result := HitMine(room, k, row, col);
        MineHitConsistent(b0, ps0, room.board, room.players, room.status, result, (row, col), k,
                          room.rows, room.cols, room.mineCount);
      } else {
        FillThenWin(b0, room.rows, room.cols, room.mineCount, (row, col), ps0[k].name);
        result := RevealSafe(room, k, row, col);
        SafeRevealConsistent(b0, ps0, room.board, room.players, room.status, result, (row, col), k,
                             room.rows, room.cols, room.mineCount);
      }
    }

    /** The mine branch of a move: the cell is uncovered, the player dies,
      and if that was the last living player the room finishes with all
      mines shown. */
    method HitMine(room: GameRoom, k: nat, row: int, col: int) returns (result: RevealResult)
      requires Shaped(room.board, room.rows, room.cols) && room.status == Playing
      requires k < |room.players| && InBounds(room.rows, room.cols, (row, col))
      requires var c := room.board[row][col]; c.isMine && !c.isRevealed && !c.isFlagged
      modifies room`board, room`players, room`status
      ensures AfterMineHit(old(room.board), old(room.players), room.board, room.players, room.status,
                           result, (row, col), k)
    {
      var player := room.players[k];
      var p := (row, col);
      MineHitOnBoard(room.board, p, player.name);
      room.board := UncoverAt(room.board, p, player.name);
      room.players := room.players[k := player.(isAlive := false)];
      var cells := [p];
      if AllDead(room.players) {
        room.status := Finished;
        var mines := RevealAllMines(room);
        cells := cells + mines;
      }
      result := RevealResult(CellsAt(room.board, cells), true, false);
    }

    /** The safe branch of a move: the flood fill from the cell, the score
      raised by the number of cells it uncovered, then the win test. */
    method RevealSafe(room: GameRoom, k: nat, row: int, col: int) returns (result: RevealResult)
      requires Shaped(room.board, room.rows, room.cols) && room.status == Playing
      requires k < |room.players| && InBounds(room.rows, room.cols, (row, col))
      requires var c := room.board[row][col]; !c.isMine && !c.isRevealed && !c.isFlagged
      requires var f := Fill(room.board, (row, col), room.players[k].name);
               && Shaped(f.0, room.rows, room.cols) && AllOnBoard(f.0, f.1)
               && (Count(RevealedSafe(f.0)) == room.rows * room.cols - room.mineCount <==> AllSafeRevealed(f.0))
      modifies room`board, room`players, room`status
      ensures AfterSafeReveal(old(room.board), old(room.players), room.board, room.players, room.status,
                              result, (row, col), k)
    {
      var fill := FloodFill(room, row, col, room.players[k].name);
      room.players := Scored(room.players, k, |fill|);
      var won := FinishIfWon(room);
      result := RevealResult(CellsAt(room.board, fill), false, won);
    }

    /** The win test after a safe reveal: the room finishes once the
      revealed safe cells reach `rows * cols - mineCount`, which on a
      consistent board means no safe cell is left covered. */
    method FinishIfWon(room: GameRoom) returns (won: bool)
      requires Shaped(room.board, room.rows, room.cols)
      requires Count(RevealedSafe(room.board)) == room.rows * room.cols - room.mineCount
               <==> AllSafeRevealed(room.board)
      modifies room`status
      ensures won <==> AllSafeRevealed(room.board)
      ensures room.status == if won then Finished else old(room.status)
    {
      var nonMineCells := room.rows * room.cols - room.mineCount;
      var revealedCount := CountRevealedSafe(room.board, room.rows, room.cols);
      won := revealedCount == nonMineCells;
      if won {
        room.status := Finished;
      }
    }

    /** The recursive fill, returning the cells it uncovered in order: a
      covered, safe, unflagged cell on the board is uncovered, and from one
      with no mine around it the fill goes on into all eight neighbours. */
    method FloodFill(room: GameRoom, row: int, col: int, playerName: string) returns (fill: seq<Coord>)
      requires Shaped(room.board, room.rows, room.cols)
      modifies room`board
      ensures Shaped(room.board, room.rows, room.cols)
      ensures (room.board, fill) == Filled(old(room.board), (row, col), playerName)
      decreases |CoveredCells(room.board)|, 0
    {
      var p := (row, col);
      if row < 0 || row >= room.rows || col < 0 || col >= room.cols {
        return [];
      }
      var cell := room.board[row][col];
      if cell.isRevealed || cell.isMine || cell.isFlagged {
        return [];
      }
      UncoverShrinks(room.board, p, playerName);
      room.board := UncoverAt(room.board, p, playerName);
      fill := [p];
      if cell.adjacentMines != 0 {
        return;
      }
      var around := FillAround(room, row, col, playerName);
      fill := fill + around;
    }

    /** The two nested loops of the fill: every neighbour of (row, col) in
        row-major order, each filled in turn on the board the previous ones
        left. */
    method FillAround(room: GameRoom, row: int, col: int, playerName: string) returns (fill: seq<Coord>)
      requires Shaped(room.board, room.rows, room.cols)
      modifies room`board
      ensures Shaped(room.board, room.rows, room.cols)
      ensures (room.board, fill) == WindowFilled(old(room.board), (row, col), 0, playerName)
      decreases |CoveredCells(room.board)|, 2
    {
      ghost var b1 := room.board;
      ghost var n := 0;
      ScanningStart(b1, (row, col), playerName);
      fill := [];
      var di := -1;
      while di <= 1
        invariant -1 <= di <= 2 && n == 3 * (di + 1)
        invariant Shaped(room.board, room.rows, room.cols)
        invariant Scanning(b1, room.board, (row, col), n, fill, playerName) == true
      {
        var dj := -1;
        while dj <= 1
          invariant -1 <= dj <= 2 && n == 3 * (di + 1) + (dj + 1)
          invariant Shaped(room.board, room.rows, room.cols)
          invariant Scanning(b1, room.board, (row, col), n, fill, playerName) == true
        {
          if !(di == 0 && dj == 0) {
            var g := FillNeighbour(room, row, col, di, dj, playerName, b1, n, fill);
            fill := fill + g;
          } else {
            ScanningSkip(b1, room.board, (row, col), n, fill, playerName);
          }
          dj := dj + 1;
          n := n + 1;
        }
        di := di + 1;
      }
      ScanningDone(b1, room.board, (row, col), fill, playerName);
    }

    /** The body of the inner loop for one neighbour (row + di, col + dj)
        of the window, which is its cell number n: the fill from there
        carries the scan on by one cell. */
    method FillNeighbour(room: GameRoom, row: int, col: int, di: int, dj: int, playerName: string,
                         ghost b1: Board, ghost n: int, ghost f: seq<Coord>) returns (g: seq<Coord>)
      requires -1 <= di <= 1 && -1 <= dj <= 1 && !(di == 0 && dj == 0) && n == 3 * (di + 1) + (dj + 1)
      requires Shaped(room.board, room.rows, room.cols)
      requires Scanning(b1, room.board, (row, col), n, f, playerName) == true
      modifies room`board
      ensures Shaped(room.board, room.rows, room.cols)
      ensures Scanning(b1, room.board, (row, col), n + 1, f + g, playerName) == true
      decreases |CoveredCells(b1)|, 1
    {
      WindowOf(row, col, di, dj, n);
      ghost var b := room.board;
      g := FloodFill(room, row + di, col + dj, playerName);
      ScanningNext(b1, b, (room.board, g), (row, col), f, n, row + di, col + dj, playerName);
    }

    /** Every covered mine is uncovered, in row-major order; flags are left
      as they are and nobody is named. */
    method RevealAllMines(room: GameRoom) returns (mines: seq<Coord>)
      requires Shaped(room.board, room.rows, room.cols)
      modifies room`board
      ensures mines == HiddenMines(old(room.board))
      ensures room.board == ExposeMines(old(room.board))
    {
      ghost var b0 := room.board;
      ExposedUpToEnds(b0);
      mines := [];
      for i := 0 to room.rows
        invariant room.board == ExposedUpTo(b0, i, 0)
        invariant mines == HiddenMinesUpTo(b0, i)
      {
        for j := 0 to room.cols
          invariant room.board == ExposedUpTo(b0, i, j)
          invariant mines == HiddenMinesUpTo(b0, i) + RowHiddenMines(b0, i, j)
        {
          ExposedUpToStep(b0, i, j);
          HiddenMinesStep(b0, i, j);
          if room.board[i][j].isMine && !room.board[i][j].isRevealed {
            room.board := room.board[i := room.board[i][j := room.board[i][j].(isRevealed := true)]];
            mines := mines + [(i, j)];
          } else {
            assert mines + [] == mines;
          }
        }
        ExposedUpToRow(b0, i);
        HiddenMinesRow(b0, i);
      }
    }

    /** A living player flips the flag of a covered cell on the board;
      every other call changes nothing. */
    method ToggleFlag(roomId: string, row: int, col: int, connectionId: string)
      requires Valid()
      modifies RoomFrame(roomId)`board
      ensures Valid() && rooms == old(rooms)
      ensures roomId in rooms ==>
                var room := rooms[roomId];
                room.board == if old(CanAct(roomId, connectionId)) && InBounds(room.rows, room.cols, (row, col))
                                 && !old(room.board[row][col]).isRevealed
                              then FlagToggled(old(room.board), (row, col))
                              else old(room.board)
    {
      var room := GetRoom(roomId);
      if room == null || room.status != Playing { return; }
      var found := FindPlayer(room.players, connectionId);
      if found.None? || !room.players[found.value].isAlive { return; }
      if row < 0 || row >= room.rows || col < 0 || col >= room.cols { return; }
      var cell := room.board[row][col];
      if !cell.isRevealed {
        FlagKeepsConsistent(room.board, room.rows, room.cols, room.mineCount, (row, col));
        room.board := FlagToggled(room.board, (row, col));
      }
    }

    /** A chat line appended to an existing room's log, the oldest line
      dropped past the cap. */
    method AddMessage(roomId: string, playerName: string, message: string)
      requires Valid()
      modifies RoomFrame(roomId)`messages
      ensures Valid() && rooms == old(rooms)
      ensures roomId in rooms ==>
                rooms[roomId].messages == Appended(old(rooms[roomId].messages), ChatMessage(playerName, message))
    {
      var room := GetRoom(roomId);
      if room == null { return; }
      var log := room.messages + [ChatMessage(playerName, message)];
      if |log| > MaxMessages {
        log := log[1..];
      }
      room.messages := log;
    }

    /** Some room whose roster holds the connection, or null when none
      does. Which room, when several do, depends on the registry's
      enumeration order and is left open. */
    method GetRoomByConnectionId(connectionId: string) returns (room: GameRoom?)
      ensures room != null ==> room in rooms.Values && HasPlayer(room.players, connectionId)
      ensures room == null ==> forall r :: r in rooms.Values ==> !HasPlayer(r.players, connectionId)
    {
      var left := rooms.Values;
      while left != {}
        invariant left <= rooms.Values
        invariant forall r :: r in rooms.Values && r !in left ==> !HasPlayer(r.players, connectionId)
        decreases |left|
      {
        var r :| r in left;
        if HasPlayer(r.players, connectionId) {
          return r;
        }
        left := left - {r};
      }
      return null;
    }
  }

}
