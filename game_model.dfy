/** State of the start-gated, multi-life engine (the MinesweeperGame server):
    players, cells, chat messages, the three-state status, the reveal result
    and the room the service mutates in place. */
module GameModel {
  import opened Optional

  /** A player of one room. `JoinedAt` is a clock reading and is not modelled. */
  datatype Player = Player(connectionId: string, name: string, score: int, isAlive: bool)

  /** A player as `AddPlayer` creates it: alive, with no points. */
  function NewPlayer(connectionId: string, name: string): (p: Player)
    ensures p.connectionId == connectionId && p.name == name
    ensures p.score == 0 && p.isAlive
  {
    Player(connectionId, name, 0, true)
  }

  /** One cell; it records its own position. */
  datatype Cell = Cell(row: int, col: int, isMine: bool, isRevealed: bool, isFlagged: bool,
                       adjacentMines: int, revealedBy: Option<string>)

  /** `new Cell { Row = row, Col = col }`: no mine, covered, unflagged, no count, nobody's. */
  function NewCell(row: int, col: int): (c: Cell)
    ensures c.row == row && c.col == col
    ensures !c.isMine && !c.isRevealed && !c.isFlagged && c.adjacentMines == 0 && c.revealedBy == None
  {
    Cell(row, col, false, false, false, 0, None)
  }

  /** A chat line. Its timestamp is a clock reading and is not modelled. */
  datatype ChatMessage = ChatMessage(playerName: string, message: string)

  /** Only three states: a win and a loss both end in Finished. */
  datatype GameStatus = Waiting | Playing | Finished

  /** What a reveal reports: the cells it uncovered, whether a mine was hit,
      whether the game was won. */
  datatype RevealResult = RevealResult(revealedCells: seq<Cell>, hitMine: bool, gameWon: bool)

  /** The default result, which the service returns when a reveal has no effect. */
  const NoEffect := RevealResult([], false, false)

  /** A room. The service never changes its id or dimensions after
      construction, so those are constants here. */
  class GameRoom {
    const roomId: string
    var players: seq<Player>
    var board: seq<seq<Cell>>
    const rows: nat
    const cols: nat
    const mineCount: nat
    var status: GameStatus
    var messages: seq<ChatMessage>

    /** `new GameRoom { RoomId = roomId }` with every other property at its default:
        10 x 10 with 15 mines, a 0 x 0 board until the game starts, waiting,
        no players, no messages. */
    constructor (roomId: string)
      ensures this.roomId == roomId
      ensures players == [] && board == [] && messages == []
      ensures rows == 10 && cols == 10 && mineCount == 15
      ensures status == Waiting
    {
      this.roomId := roomId;
      players := [];
      board := [];
      rows := 10;
      cols := 10;
      mineCount := 15;
      status := Waiting;
      messages := [];
    }
  }

}
