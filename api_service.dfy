/** The auto-start, single-life room engine: a registry of rooms that the
    first join creates and starts, where one mine ends the game for the
    whole room and clearing every safe cell makes the highest scorer the
    winner. */
module ApiService {
  import opened Optional
  import opened Grid
  import opened ApiModel
  import opened ApiBoard
  import opened ApiRoster
  import MB = GameBoard
  import MR = GameRules

  /** What every registered room keeps between calls: a consistent square
      board of the room's size and mine count, and a winner only in a won
      game. */
  ghost predicate RoomInvariant(room: GameRoom)
    reads room
  {
    && Consistent(room.board, Clip(room.boardSize), Clip(room.mineCount))
    && (room.winnerId.Some? ==> room.status == Won)
  }

  /** A board as `CreateBoard` leaves it: consistent, untouched, and mined
      by the draws. A negative size gives an empty board, a negative count
      no mines. */
  ghost predicate Generated(b: Board, size: int, mineCount: int, draws: seq<Coord>)
  {
    Consistent(b, Clip(size), Clip(mineCount)) && Pristine(b) && MinedBy(b, draws, Clip(mineCount))
  }

  /** A reveal that passes the guards: the game is on, the cell is inside
      `BoardSize` and neither uncovered nor flagged. */
  predicate Revealable(room: GameRoom, row: int, col: int)
    reads room
  {
    && room.status == Playing
    && 0 <= row < room.boardSize && 0 <= col < room.boardSize
    && OnBoard(room.board, (row, col))
    && !room.board[row][col].isRevealed && !room.board[row][col].isFlagged
  }

  /** The state after the mine at p is uncovered: that one cell shows, in
      nobody's name, the room is lost, scores and winner stay, and the
      result reports the one cell. */
  ghost predicate AfterMineHit(b0: Board, b: Board, status: GameStatus, result: RevealResult, p: Coord)
    requires OnBoard(b0, p)
  {
    && b == MineShown(b0, p)
    && status == Lost
    && result == RevealResult(true, true, [p], false, None)
  }

  /** The state after the safe cell p is revealed by `who`: the flood fill
      from p in their name, the first player with that id credited with the
      number of cells it uncovered, and the game won, with the winner chosen
      from the credited scores, exactly when no safe cell is left covered. */
  ghost predicate AfterSafeReveal(b0: Board, ps0: seq<Player>, b: Board, ps: seq<Player>, status: GameStatus,
                                  winner: Option<string>, result: RevealResult, p: Coord, who: string)
  {
    var f := Fill(b0, p, who);
    var won := AllSafeRevealed(f.0);
    && b == f.0
    && ps == Credited(ps0, who, |f.1|)
    && status == (if won then Won else Playing)
    && winner == (if won then WinnerId(ps) else None)
    && result == RevealResult(true, false, f.1, won, winner)
  }

  /** Uncovering a mine keeps a board consistent. */
  lemma MineHitConsistent(b0: Board, p: Coord, size: int, mineCount: int)
    requires Consistent(b0, size, mineCount) && OnBoard(b0, p)
    ensures Consistent(MineShown(b0, p), size, mineCount)
  {
    SameLayoutConsistent(b0, MineShown(b0, p), size, mineCount);
  }

  /** A flood fill keeps a board consistent. */
  lemma FillConsistent(b0: Board, p: Coord, who: string, size: int, mineCount: int)
    requires Consistent(b0, size, mineCount)
    ensures Consistent(Fill(b0, p, who).0, size, mineCount)
  {
    FillSpec(b0, p, who);
    RevealedAsKeeps(b0, Fill(b0, p, who).0, Fill(b0, p, who).1, who);
    SameLayoutConsistent(b0, Fill(b0, p, who).0, size, mineCount);
  }

  /** Flipping a flag keeps a board consistent. */
  lemma FlagKeepsConsistent(b0: Board, p: Coord, size: int, mineCount: int)
    requires Consistent(b0, size, mineCount) && OnBoard(b0, p)
    ensures Consistent(FlagToggled(b0, p), size, mineCount)
  {
    SameLayoutConsistent(b0, FlagToggled(b0, p), size, mineCount);
  }

  class GameService {
    var rooms: map<string, GameRoom>

    /** Every room is registered under its own id and keeps its invariant. */
    ghost predicate Valid()
      reads this, rooms.Values
    {
      forall id :: id in rooms ==> rooms[id].roomId == id && RoomInvariant(rooms[id])
    }

    /** The room a call on `roomId` may change. */
    function RoomFrame(roomId: string): set<GameRoom>
      reads this
    {
      if roomId in rooms then {rooms[roomId]} else {}
    }

    /** A flag the guards let through: the game is on, the cell is inside
        `BoardSize` and still covered. */
    predicate Flaggable(roomId: string, row: int, col: int)
      reads this, rooms.Values
    {
      && roomId in rooms
      && var room := rooms[roomId];
         && room.status == Playing
         && 0 <= row < room.boardSize && 0 <= col < room.boardSize
         && OnBoard(room.board, (row, col))
         && !room.board[row][col].isRevealed
    }

    constructor ()
      ensures rooms == map[] && Valid()
    {
      rooms := map[];
    }

    /** A new room with the given dimensions and a generated board. It is
        registered only when the id is free (`TryAdd`); it is returned
        either way. */
    method CreateRoom(roomId: string, boardSize: int, mineCount: int, draws: seq<Coord>) returns (room: GameRoom)
      requires Valid()
      requires DrawsSuffice(draws, Clip(boardSize), Clip(boardSize), Clip(mineCount))
      modifies this
      ensures Valid() && fresh(room)
      ensures room.roomId == roomId && room.boardSize == boardSize && room.mineCount == mineCount
      ensures room.players == [] && room.status == Waiting && room.winnerId == None
      ensures Generated(room.board, boardSize, mineCount, draws)
      ensures rooms == if roomId in old(rooms) then old(rooms) else old(rooms)[roomId := room]
    {
      var board := CreateBoard(boardSize, mineCount, draws);
      room := new GameRoom(roomId, boardSize, mineCount, board);
      if roomId !in rooms {
        rooms := rooms[roomId := room];
      }
    }

    /** The room registered under `roomId`, or null. */
    function GetRoom(roomId: string): (room: GameRoom?)
      reads this
      ensures room != null <==> roomId in rooms
      ensures room != null ==> room == rooms[roomId] && room in RoomFrame(roomId)
    {
      if roomId in rooms then rooms[roomId] else null
    }

    /** The room under `roomId`; when there is none, a new default room
        (10 x 10, 15 mines) with a generated board is registered first. */
    method GetOrCreateRoom(roomId: string, draws: seq<Coord>) returns (room: GameRoom)
      requires Valid()
      requires roomId !in rooms ==> DrawsSuffice(draws, DefaultBoardSize, DefaultBoardSize, DefaultMineCount)
      modifies this
      ensures Valid() && roomId in rooms && room == rooms[roomId]
      ensures roomId in old(rooms) ==> rooms == old(rooms)
      ensures roomId !in old(rooms) ==>
                && fresh(room) && rooms == old(rooms)[roomId := room]
                && room.roomId == roomId && room.players == [] && room.status == Waiting && room.winnerId == None
                && room.boardSize == DefaultBoardSize && room.mineCount == DefaultMineCount
                && Generated(room.board, DefaultBoardSize, DefaultMineCount, draws)
    {
      if roomId in rooms {
        return rooms[roomId];
      }
      var board := CreateBoard(DefaultBoardSize, DefaultMineCount, draws);
      room := new GameRoom(roomId, DefaultBoardSize, DefaultMineCount, board);
      rooms := rooms[roomId := room];
    }

    /** A new scoreless player, coloured by the number of players before
        them, appended to the room, which is created if need be; a waiting
        room starts. */
    method AddPlayer(roomId: string, connectionId: string, playerName: string, draws: seq<Coord>)
      returns (player: Player)
      requires Valid()
      requires roomId !in rooms ==> DrawsSuffice(draws, DefaultBoardSize, DefaultBoardSize, DefaultMineCount)
      modifies this, RoomFrame(roomId)`players, RoomFrame(roomId)`status
      ensures Valid() && roomId in rooms
      ensures roomId in old(rooms) ==> rooms == old(rooms)
      ensures roomId !in old(rooms) ==>
                && fresh(rooms[roomId]) && rooms == old(rooms)[roomId := rooms[roomId]]
                && rooms[roomId].winnerId == None
                && rooms[roomId].boardSize == DefaultBoardSize && rooms[roomId].mineCount == DefaultMineCount
                && Generated(rooms[roomId].board, DefaultBoardSize, DefaultMineCount, draws)
      ensures var ps0 := if roomId in old(rooms) then old(rooms[roomId].players) else [];
              var st0 := if roomId in old(rooms) then old(rooms[roomId].status) else Waiting;
              && player == NewPlayer(connectionId, playerName, ColorFor(|ps0|))
              && rooms[roomId].players == ps0 + [player]
              && rooms[roomId].status == (if st0 == Waiting then Playing else st0)
    {
      var room := GetOrCreateRoom(roomId, draws);
      player := Join(room, connectionId, playerName);
    }

    /** The body of `AddPlayer` on the room found or made: the player joins
        with the next colour, and the first player starts the game. */
    method Join(room: GameRoom, connectionId: string, playerName: string) returns (player: Player)
      requires RoomInvariant(room)
      modifies room`players, room`status
      ensures RoomInvariant(room)
      ensures player == NewPlayer(connectionId, playerName, ColorFor(|old(room.players)|))
      ensures room.players == old(room.players) + [player]
      ensures room.status == if old(room.status) == Waiting then Playing else old(room.status)
    {
      player := NewPlayer(connectionId, playerName, ColorFor(|room.players|));
      room.players := room.players + [player];
      if room.status == Waiting && |room.players| >= 1 {
        room.status := Playing;
      }
    }

    /** Every player with that id leaves the room; a room left empty is
        removed from the registry. */
    method RemovePlayer(roomId: string, connectionId: string)
      requires Valid()
      modifies this, RoomFrame(roomId)`players
      ensures Valid()
      ensures roomId !in old(rooms) ==> rooms == old(rooms)
      ensures roomId in old(rooms) ==>
                var room := old(rooms)[roomId];
                && room.players == WithoutId(old(room.players), connectionId)
                && rooms == if room.players == [] then old(rooms) - {roomId} else old(rooms)
    {
      var room := GetRoom(roomId);
      if room == null { return; }
      room.players := WithoutId(room.players, connectionId);
      if |room.players| == 0 {
        rooms := rooms - {roomId};
      }
    }

    /** A reveal: refused unless the room is being played and the cell is on
        the board, covered and unflagged; then the mine branch or the flood
        fill with the score and the win test. */
    method RevealCell(roomId: string, row: int, col: int, playerId: string) returns (result: RevealResult)
      requires Valid()
      modifies RoomFrame(roomId)`board, RoomFrame(roomId)`players, RoomFrame(roomId)`status,
               RoomFrame(roomId)`winnerId
      ensures Valid() && rooms == old(rooms)
      ensures roomId !in rooms ==> result == Failed
      ensures roomId in rooms ==>
                var room := rooms[roomId];
                if !old(Revealable(room, row, col)) then
                  result == Failed && unchanged(room)
                else if old(room.board[row][col].isMine) then
                  && AfterMineHit(old(room.board), room.board, room.status, result, (row, col))
                  && room.players == old(room.players) && room.winnerId == old(room.winnerId)
                else
                  AfterSafeReveal(old(room.board), old(room.players), room.board, room.players, room.status,
                                  room.winnerId, result, (row, col), playerId)
    {
      var room := GetRoom(roomId);
      if room == null || room.status != Playing { return Failed; }
      if row < 0 || row >= room.boardSize || col < 0 || col >= room.boardSize { return Failed; }
      var cell := room.board[row][col];
      if cell.isRevealed || cell.isFlagged { return Failed; }
      result := Move(room, row, col, playerId);
    }

    /** A reveal past the guards: the mine branch or the safe branch; the
        room keeps its invariant either way. */
    method Move(room: GameRoom, row: int, col: int, playerId: string) returns (result: RevealResult)
      requires RoomInvariant(room) && Revealable(room, row, col)
      modifies room`board, room`players, room`status, room`winnerId
      ensures RoomInvariant(room)
      ensures if old(room.board[row][col].isMine) then
                && AfterMineHit(old(room.board), room.board, room.status, result, (row, col))
                && room.players == old(room.players) && room.winnerId == old(room.winnerId)
              else
                AfterSafeReveal(old(room.board), old(room.players), room.board, room.players, room.status,
                                room.winnerId, result, (row, col), playerId)
    {
      ghost var b0 := room.board;
      if room.board[row][col].isMine {
        MineHitConsistent(b0, (row, col), Clip(room.boardSize), Clip(room.mineCount));
        room.board := MineShown(room.board, (row, col));
        room.status := Lost;
        result := RevealResult(true, true, [(row, col)], false, None);
      } else {
        FillConsistent(b0, (row, col), playerId, Clip(room.boardSize), Clip(room.mineCount));
        result := RevealSafe(room, row, col, playerId);
      }
    }

    /** The safe branch of a reveal: the flood fill, the credit to the first
        player with the revealer's id, then the win test and the winner. */
    method RevealSafe(room: GameRoom, row: int, col: int, playerId: string) returns (result: RevealResult)
      requires Square(room.board, Clip(room.boardSize)) && room.status == Playing && room.winnerId == None
      modifies room`board, room`players, room`status, room`winnerId
      ensures AfterSafeReveal(old(room.board), old(room.players), room.board, room.players, room.status,
                              room.winnerId, result, (row, col), playerId)
    {
      var revealedCells := FloodFill(room, row, col, playerId);
      var player := FirstById(room.players, playerId);
      if player.Some? {
        var k := player.value;
        room.players := room.players[k := room.players[k].(score := room.players[k].score + |revealedCells|)];
      }
      result := FinishIfWon(room, revealedCells);
    }

    /** The end of the safe branch: when no covered safe cell is left the
        game is won and the leader is the winner; the result reports the
        fill either way. */
    method FinishIfWon(room: GameRoom, revealedCells: seq<Coord>) returns (result: RevealResult)
      requires room.status == Playing && room.winnerId == None
      modifies room`status, room`winnerId
      ensures var won := AllSafeRevealed(room.board);
              && room.status == (if won then Won else Playing)
              && room.winnerId == (if won then WinnerId(room.players) else None)
              && result == RevealResult(true, false, revealedCells, won, room.winnerId)
    {
      WinCondition(room.board);
      var unrevealedSafeCells := Count(HiddenSafe(room.board));
      if unrevealedSafeCells == 0 {
        room.status := Won;
        room.winnerId := WinnerId(room.players);
      }
      result := RevealResult(true, false, revealedCells, room.status == Won, room.winnerId);
    }

    /** `RevealCellRecursive`, returning the cells it appends to the list in
        order: a covered, safe, unflagged cell inside `BoardSize` is
        uncovered in the player's name, and from one with no mine around it
        the fill goes on into all eight neighbours. */
    method FloodFill(room: GameRoom, row: int, col: int, playerId: string) returns (fill: seq<Coord>)
      requires Square(room.board, Clip(room.boardSize))
      modifies room`board
      ensures Square(room.board, Clip(room.boardSize))
      ensures (room.board, fill) == Filled(old(room.board), (row, col), playerId)
      decreases |CoveredCells(room.board)|, 0
    {
      var p := (row, col);
      FillUnfold(room.board, p, playerId);
      if row < 0 || row >= room.boardSize || col < 0 || col >= room.boardSize {
        return [];
      }
      var cell := room.board[row][col];
      if cell.isRevealed || cell.isMine || cell.isFlagged {
        return [];
      }
      UncoverShrinks(room.board, p, playerId);
      room.board := UncoverAt(room.board, p, playerId);
      fill := [p];
      if cell.neighborMines == 0 {
        var around := FillAround(room, row, col, playerId);
        fill := fill + around;
      }
    }

    /** The two nested loops of the fill: every neighbour of (row, col) in
        row-major order, each filled in turn on the board the previous ones
        left. */
    method FillAround(room: GameRoom, row: int, col: int, playerId: string) returns (fill: seq<Coord>)
      requires Square(room.board, Clip(room.boardSize))
      modifies room`board
      ensures Square(room.board, Clip(room.boardSize))
      ensures (room.board, fill) == WindowFilled(old(room.board), (row, col), 0, playerId)
      decreases |CoveredCells(room.board)|, 2
    {
      ghost var b1 := room.board;
      ghost var n := 0;
      assert [] + WindowFilled(b1, (row, col), 0, playerId).1 == WindowFilled(b1, (row, col), 0, playerId).1;
      fill := [];
      var dr := -1;
      while dr <= 1
        invariant -1 <= dr <= 2 && n == 3 * (dr + 1)
        invariant Square(room.board, Clip(room.boardSize))
        invariant Scanning(b1, room.board, (row, col), n, fill, playerId) == true
      {
        var dc := -1;
        while dc <= 1
          invariant -1 <= dc <= 2 && n == 3 * (dr + 1) + (dc + 1)
          invariant Square(room.board, Clip(room.boardSize))
          invariant Scanning(b1, room.board, (row, col), n, fill, playerId) == true
        {
          if dr != 0 || dc != 0 {
            var g := FillNeighbour(room, row, col, dr, dc, playerId, b1, n, fill);
            fill := fill + g;
          } else {
            ScanningSkip(b1, room.board, (row, col), n, fill, playerId);
          }
          dc := dc + 1;
          n := n + 1;
        }
        dr := dr + 1;
      }
      ScanningDone(b1, room.board, (row, col), fill, playerId);
    }

    /** The body of the inner loop for one neighbour (row + dr, col + dc),
        which is cell number n of the window: the fill from there carries
        the scan on by one cell. */
    method FillNeighbour(room: GameRoom, row: int, col: int, dr: int, dc: int, playerId: string,
                         ghost b1: Board, ghost n: int, ghost f: seq<Coord>) returns (g: seq<Coord>)
      requires -1 <= dr <= 1 && -1 <= dc <= 1 && (dr != 0 || dc != 0) && n == 3 * (dr + 1) + (dc + 1)
      requires Square(room.board, Clip(room.boardSize))
      requires Scanning(b1, room.board, (row, col), n, f, playerId) == true
      modifies room`board
      ensures Square(room.board, Clip(room.boardSize))
      ensures Scanning(b1, room.board, (row, col), n + 1, f + g, playerId) == true
      decreases |CoveredCells(b1)|, 1
    {
      WindowOf(row, col, dr, dc, n);
      ghost var b := room.board;
      g := FloodFill(room, row + dr, col + dc, playerId);
      ScanningNext(b1, b, (room.board, g), (row, col), f, n, row + dr, col + dc, playerId);
    }

    /** Flips the flag of a covered cell inside `BoardSize` of a room being
        played, and says whether it did. */
    method ToggleFlag(roomId: string, row: int, col: int) returns (ok: bool)
      requires Valid()
      modifies RoomFrame(roomId)`board
      ensures Valid() && rooms == old(rooms)
      ensures ok <==> old(Flaggable(roomId, row, col))
      ensures roomId in rooms ==>
                rooms[roomId].board == if ok then FlagToggled(old(rooms[roomId].board), (row, col))
                                       else old(rooms[roomId].board)
    {
      var room := GetRoom(roomId);
      if room == null || room.status != Playing { return false; }
      if row < 0 || row >= room.boardSize || col < 0 || col >= room.boardSize { return false; }
      var cell := room.board[row][col];
      if cell.isRevealed { return false; }
      Flag(room, row, col);
      return true;
    }

    /** The flip itself, past the guards of `ToggleFlag`. */
    method Flag(room: GameRoom, row: int, col: int)
      requires RoomInvariant(room) && OnBoard(room.board, (row, col))
      modifies room`board
      ensures RoomInvariant(room) && room.board == FlagToggled(old(room.board), (row, col))
    {
      FlagKeepsConsistent(room.board, (row, col), Clip(room.boardSize), Clip(room.mineCount));
      room.board := FlagToggled(room.board, (row, col));
    }

    /** A registered room starts over: a new board of its dimensions, the
        game on, no winner, and every player's score back to 0. */
    method ResetRoom(roomId: string, draws: seq<Coord>)
      requires Valid()
      requires roomId in rooms ==>
                 var room := rooms[roomId];
                 DrawsSuffice(draws, Clip(room.boardSize), Clip(room.boardSize), Clip(room.mineCount))
      modifies RoomFrame(roomId)`board, RoomFrame(roomId)`status, RoomFrame(roomId)`winnerId,
               RoomFrame(roomId)`players
      ensures Valid() && rooms == old(rooms)
      ensures roomId in rooms ==>
                var room := rooms[roomId];
                && Generated(room.board, room.boardSize, room.mineCount, draws)
                && room.status == Playing && room.winnerId == None
                && room.players == ScoresCleared(old(room.players))
    {
      var room := GetRoom(roomId);
      if room == null { return; }
      Restart(room, draws);
    }

    /** The body of `ResetRoom` on the room found. */
    method Restart(room: GameRoom, draws: seq<Coord>)
      requires DrawsSuffice(draws, Clip(room.boardSize), Clip(room.boardSize), Clip(room.mineCount))
      modifies room`board, room`status, room`winnerId, room`players
      ensures Generated(room.board, room.boardSize, room.mineCount, draws)
      ensures room.status == Playing && room.winnerId == None
      ensures room.players == ScoresCleared(old(room.players))
    {
      room.board := CreateBoard(room.boardSize, room.mineCount, draws);
      room.status := Playing;
      room.winnerId := None;
      ClearScores(room);
    }

    /** The loop of `ResetRoom` that sets every player's score to 0. */
    method ClearScores(room: GameRoom)
      modifies room`players
      ensures room.players == ScoresCleared(old(room.players))
    {
      ghost var ps0 := room.players;
      for i := 0 to |room.players|
        invariant |room.players| == |ps0|
        invariant forall k :: 0 <= k < |ps0| ==> room.players[k] == if k < i then ps0[k].(score := 0) else ps0[k]
      {
        room.players := room.players[i := room.players[i].(score := 0)];
      }
      assert room.players == ScoresCleared(ps0);
    }

    /** `CreateBoard`: size x size fresh cells, then mines by rejection
        sampling over the draws, then every safe cell's count. */
    static method CreateBoard(size: int, mineCount: int, draws: seq<Coord>) returns (board: Board)
      requires DrawsSuffice(draws, Clip(size), Clip(size), Clip(mineCount))
      ensures Generated(board, size, mineCount, draws)
    {
      var cells := NewBoard(size);
      PlaceFresh(Clip(size));
      var mined := PlaceMines(cells, size, mineCount, draws);
      ghost var k :| 0 <= k <= |draws| && MR.StopsAt(draws, Clip(mineCount), k)
                     && Place(mined) == MB.WithMines(Place(cells), DrawSet(draws[..k]))
                     && Count(MB.Mines(Place(mined))) == Clip(mineCount);
      board := CountNeighbours(mined, size);
      CreatedBoard(board, Clip(size), Clip(mineCount), draws, k);
    }

    /** The first phase of `CreateBoard`: `size` rows of `size` new cells. */
    static method NewBoard(size: int) returns (board: Board)
      ensures board == Fresh(Clip(size))
    {
      ghost var start := Fresh(Clip(size));
      board := [];
      var i := 0;
      while i < size
        invariant 0 <= i <= Clip(size) && board == start[..i]
      {
        var row: seq<Cell> := [];
        var j := 0;
        while j < size
          invariant 0 <= j <= Clip(size) && row == start[i][..j]
        {
          row := row + [NewCell()];
          j := j + 1;
        }
        assert row == start[i];
        board := board + [row];
        i := i + 1;
      }
      assert board == start;
    }

    /** The second phase: draw cells until `mineCount` distinct ones are
        mines. Only `isMine` changes. */
    static method PlaceMines(board: Board, size: int, mineCount: int, draws: seq<Coord>) returns (mined: Board)
      requires Place(board) == MR.FreshBoard(Clip(size), Clip(size))
      requires DrawsSuffice(draws, Clip(size), Clip(size), Clip(mineCount))
      ensures exists k :: 0 <= k <= |draws| && MR.StopsAt(draws, Clip(mineCount), k)
                && Place(mined) == MB.WithMines(Place(board), DrawSet(draws[..k]))
                && Count(MB.Mines(Place(mined))) == Clip(mineCount)
    {
      ghost var m0 := Place(board);
      assert Square(board, Clip(size));
      MR.PlacingStart(m0, draws, Clip(mineCount));
      mined := board;
      var minesPlaced := 0;
      var k := 0;
      while minesPlaced < mineCount
        invariant MR.Placing(m0, draws, Clip(mineCount), k, minesPlaced, Place(mined))
        decreases |draws| - k
      {
        MiningStep(board, Clip(size), draws, Clip(mineCount), k, minesPlaced, mined);
        var row, col := draws[k].0, draws[k].1;
        if !mined[row][col].isMine {
          mined := mined[row := mined[row][col := mined[row][col].(isMine := true)]];
          minesPlaced := minesPlaced + 1;
        }
        k := k + 1;
      }
    }

    /** The third phase: every safe cell gets the number of mines in the
        3 x 3 window around it. */
    static method CountNeighbours(board: Board, size: int) returns (counted: Board)
      requires Square(board, Clip(size))
      ensures Place(counted) == MR.Counted(Place(board))
    {
      MR.CountedUpToEnds(Place(board));
      counted := board;
      var row := 0;
      while row < size
        invariant 0 <= row <= Clip(size)
        invariant Place(counted) == MR.CountedUpTo(Place(board), row, 0)
      {
        counted := CountRow(board, counted, size, row);
        MR.CountedUpToRow(Place(board), row);
        row := row + 1;
      }
    }

    /** One pass of the column loop of `CountNeighbours`: every safe cell of
        the row gets the count of its window. */
    static method CountRow(board: Board, b: Board, size: int, row: int) returns (counted: Board)
      requires Square(board, Clip(size)) && 0 <= row < Clip(size)
      requires Place(b) == MR.CountedUpTo(Place(board), row, 0)
      ensures Place(counted) == MR.CountedUpTo(Place(board), row, Clip(size))
    {
      counted := b;
      var col := 0;
      while col < size
        invariant 0 <= col <= Clip(size)
        invariant Place(counted) == MR.CountedUpTo(Place(board), row, col)
      {
        CountingCell(board, counted, row, col);
        if !counted[row][col].isMine {
          var count := CountAround(counted, size, row, col);
          counted := counted[row := counted[row][col := counted[row][col].(neighborMines := count)]];
        }
        col := col + 1;
      }
    }

    /** The innermost loops: the in-bounds mines of the 3 x 3 window around
        (row, col), the cell itself included. */
    static method CountAround(b: Board, size: int, row: int, col: int) returns (count: nat)
      requires Square(b, Clip(size))
      ensures count == Scanned(Mines(b), (row, col), 9, true)
    {
      count := 0;
      ghost var n := 0;
      var dr := -1;
      while dr <= 1
        invariant -1 <= dr <= 2 && n == 3 * (dr + 1)
        invariant count == Scanned(Mines(b), (row, col), n, true)
      {
        var dc := -1;
        while dc <= 1
          invariant -1 <= dc <= 2 && n == 3 * (dr + 1) + (dc + 1)
          invariant count == Scanned(Mines(b), (row, col), n, true)
        {
          ghost var before := count;
          var newRow, newCol := row + dr, col + dc;
          if newRow >= 0 && newRow < size && newCol >= 0 && newCol < size {
            if b[newRow][newCol].isMine {
              count := count + 1;
            }
          }
          CountingStep(b, size, row, col, dr, dc, newRow, newCol, n, before, count);
          dc := dc + 1;
          n := n + 1;
        }
        dr := dr + 1;
      }
    }
  }

  /** On a 1 x 1 board without mines its one cell can be revealed, and the
      fill from it uncovers every safe cell. */
  lemma OneCellWin(b: Board, who: string)
    requires Consistent(b, 1, 0) && Pristine(b)
    ensures OnBoard(b, (0, 0)) && !b[0][0].isMine && !b[0][0].isRevealed && !b[0][0].isFlagged
    ensures AllSafeRevealed(Fill(b, (0, 0), who).0)
  {
    CountZero(Mines(b));
    assert !Mines(b)[0][0];
    FillSpec(b, (0, 0), who);
    var f := Fill(b, (0, 0), who);
    assert f.1[0] == (0, 0);
    assert f.0[0][0] == Uncover(b[0][0], who);
  }

  /** A win in a room nobody has joined: a 1 x 1 room without mines is
      created, reset (which starts the game with the empty roster), and its
      one cell revealed. The source then takes `.First()` of the empty
      roster, outside the precondition of `WinnerIdAsWritten`. */
  method EmptyRosterWin() returns (result: RevealResult, players: seq<Player>)
    ensures result.success && result.gameWon && players == []
    ensures result.winnerId == None
  {
    var service := new GameService();
    var room := service.CreateRoom("r", 1, 0, []);
    service.ResetRoom("r", []);
    OneCellWin(room.board, "x");
    result := service.RevealCell("r", 0, 0, "x");
    players := room.players;
  }

}
