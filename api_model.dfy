/** State of the auto-start, single-life engine (the Minesweeper.API server):
    cells without positions, players with colours, the four-state status,
    the reveal result and the room the service mutates in place. */
module ApiModel {
  import opened Optional
  import opened Grid

  /** One cell. It records no position: a cell is known by where it sits. */
  datatype Cell = Cell(isMine: bool, isRevealed: bool, isFlagged: bool, neighborMines: int,
                       revealedBy: Option<string>)

  /** `new Cell()`: no mine, covered, unflagged, no count, nobody's. */
  function NewCell(): (c: Cell)
    ensures !c.isMine && !c.isRevealed && !c.isFlagged && c.neighborMines == 0 && c.revealedBy == None
  {
    Cell(false, false, false, 0, None)
  }

  /** A player: id, name and colour are required, the score starts at 0.
      `JoinedAt` is a clock reading and is not modelled. */
  datatype Player = Player(id: string, name: string, color: string, score: int)

  function NewPlayer(id: string, name: string, color: string): (p: Player)
    ensures p.id == id && p.name == name && p.color == color && p.score == 0
  {
    Player(id, name, color, 0)
  }

  /** A win and a loss are states of their own here. */
  datatype GameStatus = Waiting | Playing | Won | Lost

  /** What a reveal reports: whether it did anything, whether a mine was
      hit, the positions it uncovered, whether the game was won and by whom. */
  datatype RevealResult = RevealResult(success: bool, hitMine: bool, revealedCells: seq<Coord>,
                                       gameWon: bool, winnerId: Option<string>)

  /** `new RevealResult { Success = false }`: a reveal that changed nothing. */
  const Failed := RevealResult(false, false, [], false, None)

  /** The dimensions a room gets when nobody asks for others. */
  const DefaultBoardSize := 10
  const DefaultMineCount := 15

  /** A room. The service never changes its id or dimensions after
      construction, so those are constants here. `CreatedAt` is a clock
      reading and is not modelled. */
  class GameRoom {
    const roomId: string
    var players: seq<Player>
    var board: seq<seq<Cell>>
    var status: GameStatus
    const boardSize: int
    const mineCount: int
    var winnerId: Option<string>

    /** The object initialiser the service uses: id, dimensions and board
        given, every other property at its default (no players, waiting,
        no winner). */
    constructor (roomId: string, boardSize: int, mineCount: int, board: seq<seq<Cell>>)
      ensures this.roomId == roomId && this.boardSize == boardSize && this.mineCount == mineCount
      ensures this.board == board
      ensures players == [] && status == Waiting && winnerId == None
    {
      this.roomId := roomId;
      this.boardSize := boardSize;
      this.mineCount := mineCount;
      this.board := board;
      players := [];
      status := Waiting;
      winnerId := None;
    }
  }

}
