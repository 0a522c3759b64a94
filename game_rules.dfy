/** The value-level rules of the start-gated engine that its service
    methods are proved against: finding a player, dropping a player, the
    capped chat log, the adjacency counts a started board carries and the
    win condition. */
module GameRules {
  import opened Optional
  import opened Grid
  import opened GameModel
  import opened GameBoard

  // ---------------------------------------------------------------------
  // Players
  // ---------------------------------------------------------------------

  /** `Players.FirstOrDefault(p => p.ConnectionId == id)`, as an index. */
  function FindPlayer(players: seq<Player>, id: string): (r: Option<nat>)
    ensures r.Some? ==> r.value < |players| && players[r.value].connectionId == id
    ensures r.Some? ==> forall k :: 0 <= k < r.value ==> players[k].connectionId != id
    ensures r.None? <==> forall k :: 0 <= k < |players| ==> players[k].connectionId != id
  {
    if players == [] then None
    else if players[0].connectionId == id then Some(0)
    else match FindPlayer(players[1..], id)
      case None => None
      case Some(k) => Some(k + 1)
  }

  /** `Players.All(p => !p.IsAlive)`. */
  predicate AllDead(players: seq<Player>)
  {
    forall k :: 0 <= k < |players| ==> !players[k].isAlive
  }

  /** `Players.Any(p => p.ConnectionId == id)`. */
  predicate HasPlayer(players: seq<Player>, id: string)
  {
    exists k :: 0 <= k < |players| && players[k].connectionId == id
  }

  /** The roster after the player at k is given n more points. */
  function Scored(players: seq<Player>, k: nat, n: int): seq<Player>
    requires k < |players|
  {
    players[k := players[k].(score := players[k].score + n)]
  }

  /** `Players.RemoveAll(p => p.ConnectionId == id)`: the roster without
      that connection, in its order. */
  function Without(players: seq<Player>, id: string): (r: seq<Player>)
    ensures forall p :: p in r <==> p in players && p.connectionId != id
    ensures !HasPlayer(r, id)
    ensures |r| <= |players|
    ensures !HasPlayer(players, id) ==> r == players
  {
    if players == [] then []
    else
      var rest := Without(players[1..], id);
      assert players == [players[0]] + players[1..];
      if players[0].connectionId == id then rest else [players[0]] + rest
  }

  /** Removal goes player by player: from a joined roster it removes from
      each part and joins the results, so the players who stay keep their
      order and their number. */
  lemma {:induction false} WithoutAppend(a: seq<Player>, b: seq<Player>, id: string)
    ensures Without(a + b, id) == Without(a, id) + Without(b, id)
  {
    if a == [] {
      assert a + b == b;
    } else {
      assert (a + b)[0] == a[0] && (a + b)[1..] == a[1..] + b;
      WithoutAppend(a[1..], b, id);
    }
  }

  /** A single player stays exactly when of another connection. */
  lemma WithoutSingle(p: Player, id: string)
    ensures Without([p], id) == if p.connectionId == id then [] else [p]
  {
  }

  /** Dropping a connection twice is dropping it once. */
  lemma WithoutIdempotent(players: seq<Player>, id: string)
    ensures Without(Without(players, id), id) == Without(players, id)
  {
  }

  // ---------------------------------------------------------------------
  // The chat log
  // ---------------------------------------------------------------------

  /** The source's cap on a room's chat log. */
  const MaxMessages := 100

  /** The last n entries of s (all of them when there are fewer). */
  function Last<T>(s: seq<T>, n: nat): (r: seq<T>)
    ensures |r| == if |s| <= n then |s| else n
    ensures r == s[|s| - |r|..]
  {
    if |s| <= n then s else s[|s| - n..]
  }

  /** The log after one message: appended, then the oldest entry dropped
      when the log has grown past the cap. */
  function Appended(log: seq<ChatMessage>, m: ChatMessage): (r: seq<ChatMessage>)
    ensures |log| <= MaxMessages ==> |r| <= MaxMessages
    ensures |log| <= MaxMessages ==> |r| == if |log| < MaxMessages then |log| + 1 else MaxMessages
    ensures r != [] && r[|r| - 1] == m
    ensures |r| <= |log| + 1 && r == (log + [m])[|log| + 1 - |r|..]
  {
    var l := log + [m];
    if |l| > MaxMessages then l[1..] else l
  }

  /** The log after several messages, oldest first. */
  function AppendedAll(log: seq<ChatMessage>, ms: seq<ChatMessage>): seq<ChatMessage>
    decreases ms
  {
    if ms == [] then log else AppendedAll(Appended(log, ms[0]), ms[1..])
  }

  /** A log that starts within the cap always holds exactly the newest
      messages up to the cap, in the order they were sent. */
  lemma {:induction false} AppendedAllKeepsNewest(log: seq<ChatMessage>, ms: seq<ChatMessage>)
    requires |log| <= MaxMessages
    ensures AppendedAll(log, ms) == Last(log + ms, MaxMessages)
    decreases ms
  {
    if ms == [] {
      assert log + ms == log;
    } else {
      var log' := Appended(log, ms[0]);
      AppendedIsLast(log, ms[0]);
      AppendedAllKeepsNewest(log', ms[1..]);
      LastAppend(log + [ms[0]], ms[1..], MaxMessages);
      SplitFirst(log, ms);
    }
  }

  lemma SplitFirst<T>(s: seq<T>, t: seq<T>)
    requires t != []
    ensures (s + [t[0]]) + t[1..] == s + t
  {
    assert t == [t[0]] + t[1..];
  }

  /** One message on a log within the cap keeps the newest entries up to the cap. */
  lemma AppendedIsLast(log: seq<ChatMessage>, m: ChatMessage)
    requires |log| <= MaxMessages
    ensures Appended(log, m) == Last(log + [m], MaxMessages)
  {
  }

  /** Keeping the tail before appending changes nothing about the final tail. */
  lemma LastAppend<T>(s: seq<T>, t: seq<T>, n: nat)
    ensures Last(Last(s, n) + t, n) == Last(s + t, n)
  {
    var l := Last(s, n);
    assert l == s[|s| - |l|..];
    var u, v := l + t, s + t;
    assert u == v[|s| - |l|..];
  }

  // ---------------------------------------------------------------------
  // Mine placement
  // ---------------------------------------------------------------------

  /** The mines of b are exactly the distinct cells among the first k
      draws, where k is the first point at which those number `mineCount`:
      what rejection sampling over the draws leaves behind. */
  ghost predicate MinedBy(b: Board, draws: seq<Coord>, mineCount: nat)
  {
    exists k :: 0 <= k <= |draws| && StopsAt(draws, mineCount, k)
      && forall i, j {:trigger b[i][j]} :: 0 <= i < |b| && 0 <= j < |b[i]| ==> (b[i][j].isMine <==> (i, j) in DrawSet(draws[..k]))
  }

  /** The board `InitializeBoard` allocates: rows x cols fresh cells, each
      recording its position. */
  function FreshBoard(rows: nat, cols: nat): (b: Board)
    ensures Shaped(b, rows, cols)
  {
    seq(rows, i requires 0 <= i < rows => seq(cols, j requires 0 <= j < cols => NewCell(i, j)))
  }

  /** Fresh cells mined at s and then counted make a consistent, untouched
      board whose mines are exactly s. */
  lemma MinedAndCounted(rows: nat, cols: nat, mineCount: nat, s: set<Coord>)
    requires Count(Mines(WithMines(FreshBoard(rows, cols), s))) == mineCount
    ensures var c := Counted(WithMines(FreshBoard(rows, cols), s));
      && Consistent(c, rows, cols, mineCount) && Pristine(c)
      && forall i, j {:trigger c[i][j]} :: 0 <= i < rows && 0 <= j < cols ==> (c[i][j].isMine <==> (i, j) in s)
  {
    var m := WithMines(FreshBoard(rows, cols), s);
    FreshMined(rows, cols, s);
    CountedConsistent(m, rows, cols, mineCount);
    var c: Board := Counted(m);
    forall i, j | 0 <= i < rows && 0 <= j < cols
      ensures !c[i][j].isRevealed && !c[i][j].isFlagged && c[i][j].revealedBy == None
      ensures c[i][j].isMine <==> (i, j) in s
    {
      assert c[i][j] == CountedCell(m, i, j);
    }
  }

  /** The board after placement stopped at draw k and counting: consistent,
      untouched and mined by the draws. */
  lemma StartedBoard(rows: nat, cols: nat, mineCount: nat, draws: seq<Coord>, k: nat)
    requires k <= |draws| && StopsAt(draws, mineCount, k)
    requires Count(Mines(WithMines(FreshBoard(rows, cols), DrawSet(draws[..k])))) == mineCount
    ensures var c := Counted(WithMines(FreshBoard(rows, cols), DrawSet(draws[..k])));
      Consistent(c, rows, cols, mineCount) && Pristine(c) && MinedBy(c, draws, mineCount)
  {
    MinedAndCounted(rows, cols, mineCount, DrawSet(draws[..k]));
  }

  /** Fresh cells mined at s: shaped, each records its position, has no
      count and is untouched, and is a mine exactly when it is in s. */
  lemma FreshMined(rows: nat, cols: nat, s: set<Coord>)
    ensures var m := WithMines(FreshBoard(rows, cols), s);
      && Shaped(m, rows, cols)
      && forall i, j {:trigger m[i][j]} :: 0 <= i < rows && 0 <= j < cols ==>
           && m[i][j].row == i && m[i][j].col == j && m[i][j].adjacentMines == 0
           && !m[i][j].isRevealed && !m[i][j].isFlagged && m[i][j].revealedBy == None
           && (m[i][j].isMine <==> (i, j) in s)
  {
  }

  /** The state of rejection sampling after k draws on a board b0 without
      mines: `placed` distinct cells drawn so far, all of them mines and no
      others, and the stop condition not yet passed. */
  ghost predicate Placing(b0: Board, draws: seq<Coord>, mineCount: nat, k: int, placed: int, b: Board)
  {
    && 0 <= k <= |draws|
    && placed == |DrawSet(draws[..k])| <= mineCount
    && (k > 0 ==> |DrawSet(draws[..k - 1])| < mineCount)
    && b == WithMines(b0, DrawSet(draws[..k]))
    && Count(Mines(b)) == placed
  }

  lemma PlacingStart(b0: Board, draws: seq<Coord>, mineCount: nat)
    requires forall i, j :: 0 <= i < |b0| && 0 <= j < |b0[i]| ==> !b0[i][j].isMine
    ensures Placing(b0, draws, mineCount, 0, 0, b0)
  {
    CountZero(Mines(b0));
    WithNoMines(b0);
    assert draws[..0] == [];
  }

  /** One draw while fewer than `mineCount` mines are placed: there is a
      draw left, it lies on the board, and mining it unless it is already a
      mine keeps the sampling state. */
  lemma PlacingStep(b0: Board, rows: nat, cols: nat, draws: seq<Coord>, mineCount: nat, k: int, placed: int, b: Board)
    requires Shaped(b0, rows, cols) && DrawsSuffice(draws, rows, cols, mineCount)
    requires Placing(b0, draws, mineCount, k, placed, b) && placed < mineCount
    ensures k < |draws| && InBounds(rows, cols, draws[k]) && Shaped(b, rows, cols)
    ensures var r, c := draws[k].0, draws[k].1;
            if b[r][c].isMine then Placing(b0, draws, mineCount, k + 1, placed, b)
            else Placing(b0, draws, mineCount, k + 1, placed + 1, b[r := b[r][c := b[r][c].(isMine := true)]])
  {
    assert draws[..|draws|] == draws;
    var d := draws[k];
    DrawSetStep(draws, k);
    WithMinesAdd(b0, DrawSet(draws[..k]), d);
    if !b[d.0][d.1].isMine {
      CountSet(Mines(b), d.0, d.1);
      MinesAfterMining(b, d.0, d.1);
    }
  }

  /** The placement loop stops after exactly k draws. */
  ghost predicate StopsAt(draws: seq<Coord>, mineCount: nat, k: nat)
    requires k <= |draws|
  {
    |DrawSet(draws[..k])| == mineCount && (k > 0 ==> |DrawSet(draws[..k - 1])| < mineCount)
  }

  // ---------------------------------------------------------------------
  // Adjacency counts
  // ---------------------------------------------------------------------

  /** One position (di, dj) of the counting loops around (i, j): the scan
      grows by one exactly when that position is not the centre and holds
      an in-bounds mine. */
  lemma CountingStep(b: Board, rows: nat, cols: nat, i: int, j: int, di: int, dj: int, n: int,
                     before: int, after: int)
    requires Shaped(b, rows, cols) && -1 <= di <= 1 && -1 <= dj <= 1 && n == 3 * (di + 1) + (dj + 1)
    requires before == Scanned(Mines(b), (i, j), n, false)
    requires after == before + if !(di == 0 && dj == 0) && 0 <= i + di < rows && 0 <= j + dj < cols
                                  && b[i + di][j + dj].isMine then 1 else 0
    ensures 0 <= n < 9 && after == Scanned(Mines(b), (i, j), n + 1, false)
  {
    WindowOf(i, j, di, dj, n);
  }

  /** The board with every safe cell's count set to its number of mine
      neighbours; mines keep theirs. */
  function Counted(b: Board): (c: Board)
    ensures |c| == |b| && forall i :: 0 <= i < |b| ==> |c[i]| == |b[i]|
  {
    seq(|b|, i requires 0 <= i < |b| =>
      seq(|b[i]|, j requires 0 <= j < |b[i]| => CountedCell(b, i, j)))
  }

  function CountedCell(b: Board, i: int, j: int): Cell
    requires 0 <= i < |b| && 0 <= j < |b[i]|
  {
    if b[i][j].isMine then b[i][j] else b[i][j].(adjacentMines := AdjacentCount(Mines(b), (i, j)))
  }

  /** The board once a row-major scan has counted the cells before (i, j). */
  function CountedUpTo(b: Board, i: int, j: int): (c: Board)
    ensures |c| == |b| && forall r :: 0 <= r < |b| ==> |c[r]| == |b[r]|
  {
    seq(|b|, r requires 0 <= r < |b| =>
      seq(|b[r]|, c requires 0 <= c < |b[r]| => if Before(r, c, i, j) then CountedCell(b, r, c) else b[r][c]))
  }

  /** One step of the scan: the cell at (i, j) is still as it was, the
      mines are those of b, and a safe cell gets its count. */
  lemma CountedUpToStep(b: Board, i: int, j: int)
    requires 0 <= i < |b| && 0 <= j < |b[i]|
    ensures CountedUpTo(b, i, j)[i][j] == b[i][j]
    ensures Mines(CountedUpTo(b, i, j)) == Mines(b)
    ensures var e := CountedUpTo(b, i, j);
      CountedUpTo(b, i, j + 1) ==
        if b[i][j].isMine then e else e[i := e[i][j := e[i][j].(adjacentMines := AdjacentCount(Mines(b), (i, j)))]]
  {
    var e: Board := CountedUpTo(b, i, j);
    var e': Board := CountedUpTo(b, i, j + 1);
    var u: Board := if b[i][j].isMine then e else e[i := e[i][j := e[i][j].(adjacentMines := AdjacentCount(Mines(b), (i, j)))]];
    forall r | 0 <= r < |b| ensures e'[r] == u[r] {
      if r == i {
        assert forall c :: 0 <= c < |b[r]| ==> e'[r][c] == u[r][c];
      }
    }
    MinesAgree(b, e);
  }

  lemma CountedUpToRow(b: Board, i: int)
    requires 0 <= i < |b|
    ensures CountedUpTo(b, i, |b[i]|) == CountedUpTo(b, i + 1, 0)
  {
    var e, e' := CountedUpTo(b, i, |b[i]|), CountedUpTo(b, i + 1, 0);
    forall r | 0 <= r < |b| ensures e[r] == e'[r] {
    }
  }

  lemma CountedUpToEnds(b: Board)
    ensures CountedUpTo(b, 0, 0) == b
    ensures CountedUpTo(b, |b|, 0) == Counted(b)
  {
    var e, e' := CountedUpTo(b, 0, 0), CountedUpTo(b, |b|, 0);
    forall r | 0 <= r < |b| ensures e[r] == b[r] && e'[r] == Counted(b)[r] {
    }
  }

  /** A freshly mined board whose cells record their positions and carry
      count 0 is consistent once counted. */
  lemma CountedConsistent(b: Board, rows: nat, cols: nat, mineCount: nat)
    requires Shaped(b, rows, cols)
    requires forall i, j :: 0 <= i < |b| && 0 <= j < |b[i]| ==>
               b[i][j].row == i && b[i][j].col == j && b[i][j].adjacentMines == 0
    requires Count(Mines(b)) == mineCount
    ensures Consistent(Counted(b), rows, cols, mineCount)
  {
    var c := Counted(b);
    assert Mines(c) == Mines(b) by {
      forall i | 0 <= i < |b| ensures Mines(c)[i] == Mines(b)[i] {
      }
    }
  }

  // ---------------------------------------------------------------------
  // Winning
  // ---------------------------------------------------------------------

  /** Every safe cell uncovered. */
  ghost predicate AllSafeRevealed(b: Board)
  {
    forall i, j :: 0 <= i < |b| && 0 <= j < |b[i]| ==> b[i][j].isMine || b[i][j].isRevealed
  }

  /** On a consistent board the source's win test, "revealed safe cells
      reach `rows * cols - mineCount`", holds exactly when no safe cell is
      still covered. */
  lemma WinCondition(b: Board, rows: nat, cols: nat, mineCount: nat)
    requires Consistent(b, rows, cols, mineCount)
    ensures Count(RevealedSafe(b)) == rows * cols - mineCount <==> AllSafeRevealed(b)
  {
    var r, h, m := RevealedSafe(b), HiddenSafe(b), Mines(b);
    CountPartition(r, h, m, cols);
    assert |r| == rows;
    CountZero(h);
    if AllSafeRevealed(b) {
      forall i, j | 0 <= i < |h| && 0 <= j < |h[i]| ensures !h[i][j] {
        assert b[i][j].isMine || b[i][j].isRevealed;
      }
    }
    if Count(h) == 0 {
      forall i, j | 0 <= i < |b| && 0 <= j < |b[i]| ensures b[i][j].isMine || b[i][j].isRevealed {
        assert !h[i][j];
      }
    }
  }

}
