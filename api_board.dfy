/** The board of the auto-start, single-life engine. Its cells do not know
    their positions. Read together with its positions, such a board is a
    board of the start-gated engine, whose flood fill, mine placement and
    adjacency counting work the same way; this module defines that reading
    (`Place`) and its inverse (`Erase`), and carries each board property
    over from the other engine through them. */
module ApiBoard {
  import opened Optional
  import opened Grid
  import opened ApiModel
  import MG = GameModel
  import MB = GameBoard
  import MR = GameRules

  type Board = seq<seq<Cell>>

  /** n rows of n cells: the only shape this engine builds. */
  predicate Square(b: Board, n: int)
  {
    |b| == n && forall i :: 0 <= i < |b| ==> |b[i]| == n
  }

  predicate OnBoard(b: Board, p: Coord)
  {
    0 <= p.0 < |b| && 0 <= p.1 < |b[p.0]|
  }

  // ---------------------------------------------------------------------
  // Reading a board with its positions
  // ---------------------------------------------------------------------

  /** The cell at (i, j) as a cell that records its position. */
  function Placed(c: Cell, i: int, j: int): MG.Cell
  {
    MG.Cell(i, j, c.isMine, c.isRevealed, c.isFlagged, c.neighborMines, c.revealedBy)
  }

  /** A positioned cell with its position dropped. */
  function Unplaced(c: MG.Cell): Cell
  {
    Cell(c.isMine, c.isRevealed, c.isFlagged, c.adjacentMines, c.revealedBy)
  }

  function Place(b: Board): (m: MB.Board)
    ensures |m| == |b| && forall i :: 0 <= i < |b| ==> |m[i]| == |b[i]|
  {
    seq(|b|, i requires 0 <= i < |b| => seq(|b[i]|, j requires 0 <= j < |b[i]| => Placed(b[i][j], i, j)))
  }

  function Erase(m: MB.Board): (b: Board)
    ensures |b| == |m| && forall i :: 0 <= i < |m| ==> |b[i]| == |m[i]|
  {
    seq(|m|, i requires 0 <= i < |m| => seq(|m[i]|, j requires 0 <= j < |m[i]| => Unplaced(m[i][j])))
  }

  /** Every cell records the position it sits at. */
  ghost predicate Positioned(m: MB.Board)
  {
    forall i, j :: 0 <= i < |m| && 0 <= j < |m[i]| ==> m[i][j].row == i && m[i][j].col == j
  }

  lemma ErasePlace(b: Board)
    ensures Erase(Place(b)) == b
  {
    forall i | 0 <= i < |b| ensures Erase(Place(b))[i] == b[i] {
    }
  }

  lemma PlaceErase(m: MB.Board)
    requires Positioned(m)
    ensures Place(Erase(m)) == m
  {
    forall i | 0 <= i < |m| ensures Place(Erase(m))[i] == m[i] {
    }
  }

  lemma PlacePositioned(b: Board)
    ensures Positioned(Place(b))
  {
  }

  /** A fill of the other engine keeps every cell at its position. */
  lemma FillPositioned(m: MB.Board, p: Coord, who: string)
    requires Positioned(m)
    ensures Positioned(MB.Fill(m, p, who).0)
  {
    MB.FillKeeps(m, p, who);
  }

  // ---------------------------------------------------------------------
  // Layouts
  // ---------------------------------------------------------------------

  /** Where the mines are. */
  function Mines(b: Board): (m: Layout)
    ensures |m| == |b| && forall i :: 0 <= i < |b| ==> |m[i]| == |b[i]|
  {
    seq(|b|, i requires 0 <= i < |b| => seq(|b[i]|, j requires 0 <= j < |b[i]| => b[i][j].isMine))
  }

  /** Which safe cells are still covered: what the win test counts. */
  function HiddenSafe(b: Board): (m: Layout)
    ensures |m| == |b| && forall i :: 0 <= i < |b| ==> |m[i]| == |b[i]|
  {
    seq(|b|, i requires 0 <= i < |b| => seq(|b[i]|, j requires 0 <= j < |b[i]| => !b[i][j].isRevealed && !b[i][j].isMine))
  }

  /** The positions of the cells still covered. */
  ghost function CoveredCells(b: Board): set<Coord>
  {
    set i, j | 0 <= i < |b| && 0 <= j < |b[i]| && !b[i][j].isRevealed :: (i, j)
  }

  lemma MinesPlace(b: Board)
    ensures Mines(b) == MB.Mines(Place(b))
  {
    forall i | 0 <= i < |b| ensures Mines(b)[i] == MB.Mines(Place(b))[i] {
    }
  }

  lemma CoveredPlace(b: Board)
    ensures CoveredCells(b) == MB.CoveredCells(Place(b))
  {
  }

  // ---------------------------------------------------------------------
  // A generated board
  // ---------------------------------------------------------------------

  /** size x size cells, exactly `mineCount` of them mines, every safe
      cell counting the mines around it. */
  ghost predicate Consistent(b: Board, size: int, mineCount: int)
  {
    && Square(b, size)
    && Count(Mines(b)) == mineCount
    && forall i, j {:trigger b[i][j]} :: 0 <= i < |b| && 0 <= j < |b[i]| ==>
         b[i][j].neighborMines == if b[i][j].isMine then 0 else AdjacentCount(Mines(b), (i, j))
  }

  /** Nothing uncovered, flagged or attributed yet. */
  ghost predicate Pristine(b: Board)
  {
    forall i, j :: 0 <= i < |b| && 0 <= j < |b[i]| ==>
      !b[i][j].isRevealed && !b[i][j].isFlagged && b[i][j].revealedBy == None
  }

  /** The mines of b are exactly the distinct cells among the first k draws,
      where k is the first point at which those number `mineCount`. */
  ghost predicate MinedBy(b: Board, draws: seq<Coord>, mineCount: nat)
  {
    exists k :: 0 <= k <= |draws| && MR.StopsAt(draws, mineCount, k)
      && forall i, j {:trigger b[i][j]} :: 0 <= i < |b| && 0 <= j < |b[i]| ==> (b[i][j].isMine <==> (i, j) in DrawSet(draws[..k]))
  }

  /** Two boards whose cells agree on everything a reveal or a flag leaves alone. */
  ghost predicate SameLayout(b0: Board, b1: Board)
  {
    && |b1| == |b0| && (forall i :: 0 <= i < |b0| ==> |b1[i]| == |b0[i]|)
    && forall i, j :: 0 <= i < |b0| && 0 <= j < |b0[i]| ==>
         b1[i][j].isMine == b0[i][j].isMine && b1[i][j].neighborMines == b0[i][j].neighborMines
  }

  /** Uncovering and flagging keep a generated board consistent. */
  lemma SameLayoutConsistent(b0: Board, b1: Board, size: int, mineCount: int)
    requires Consistent(b0, size, mineCount) && SameLayout(b0, b1)
    ensures Consistent(b1, size, mineCount)
  {
    MinesPlace(b0);
    MinesPlace(b1);
    MB.MinesAgree(Place(b0), Place(b1));
  }

  /** The properties of a board the other engine generated carry over. */
  lemma GeneratedPlace(b: Board, size: nat, mineCount: nat, draws: seq<Coord>)
    requires MB.Consistent(Place(b), size, size, mineCount) && MB.Pristine(Place(b))
    requires MR.MinedBy(Place(b), draws, mineCount)
    ensures Consistent(b, size, mineCount) && Pristine(b) && MinedBy(b, draws, mineCount)
  {
    MinesPlace(b);
    var m: MB.Board := Place(b);
    forall i, j | 0 <= i < |b| && 0 <= j < |b[i]|
      ensures b[i][j].neighborMines == if b[i][j].isMine then 0 else AdjacentCount(Mines(b), (i, j))
      ensures !b[i][j].isRevealed && !b[i][j].isFlagged && b[i][j].revealedBy == None
    {
      assert m[i][j] == Placed(b[i][j], i, j);
    }
    var k :| 0 <= k <= |draws| && MR.StopsAt(draws, mineCount, k)
      && forall i, j {:trigger m[i][j]} :: 0 <= i < |m| && 0 <= j < |m[i]| ==> (m[i][j].isMine <==> (i, j) in DrawSet(draws[..k]));
    forall i, j | 0 <= i < |b| && 0 <= j < |b[i]|
      ensures b[i][j].isMine <==> (i, j) in DrawSet(draws[..k])
    {
      assert m[i][j] == Placed(b[i][j], i, j);
    }
  }

  /** `size` rows of `size` cells as `new Cell()` makes them. */
  function Fresh(size: nat): (b: Board)
    ensures Square(b, size)
  {
    seq(size, i requires 0 <= i < size => seq(size, j requires 0 <= j < size => NewCell()))
  }

  lemma PlaceFresh(size: nat)
    ensures Place(Fresh(size)) == MR.FreshBoard(size, size)
  {
    var m: MB.Board, f: MB.Board := Place(Fresh(size)), MR.FreshBoard(size, size);
    forall i | 0 <= i < size ensures m[i] == f[i] {
      forall j | 0 <= j < size ensures m[i][j] == f[i][j] {
        assert f[i][j] == MG.NewCell(i, j);
        assert Fresh(size)[i][j] == NewCell();
      }
    }
  }

  /** Making cell (r, c) a mine commutes with the reading. */
  lemma PlaceMined(b: Board, r: int, c: int)
    requires 0 <= r < |b| && 0 <= c < |b[r]|
    ensures var m := Place(b);
      Place(b[r := b[r][c := b[r][c].(isMine := true)]]) == m[r := m[r][c := m[r][c].(isMine := true)]]
  {
    var m: MB.Board := Place(b);
    var l: MB.Board := Place(b[r := b[r][c := b[r][c].(isMine := true)]]);
    forall i | 0 <= i < |b| ensures l[i] == m[r := m[r][c := m[r][c].(isMine := true)]][i] {
    }
  }

  /** Setting the count of cell (r, c) commutes with the reading. */
  lemma PlaceCounted(b: Board, r: int, c: int, v: int)
    requires 0 <= r < |b| && 0 <= c < |b[r]|
    ensures var m := Place(b);
      Place(b[r := b[r][c := b[r][c].(neighborMines := v)]]) == m[r := m[r][c := m[r][c].(adjacentMines := v)]]
  {
    var m: MB.Board := Place(b);
    var l: MB.Board := Place(b[r := b[r][c := b[r][c].(neighborMines := v)]]);
    forall i | 0 <= i < |b| ensures l[i] == m[r := m[r][c := m[r][c].(adjacentMines := v)]][i] {
    }
  }

  /** One draw of the placement loop on a size x size board: there is a draw
      left, it lies on the board, and mining it unless it is a mine already
      keeps the sampling state of the other engine's reading. */
  lemma MiningStep(b0: Board, size: nat, draws: seq<Coord>, mineCount: nat, k: int, placed: int, b: Board)
    requires Square(b0, size) && DrawsSuffice(draws, size, size, mineCount)
    requires MR.Placing(Place(b0), draws, mineCount, k, placed, Place(b)) && placed < mineCount
    ensures k < |draws| && InBounds(size, size, draws[k]) && Square(b, size)
    ensures var r, c := draws[k].0, draws[k].1;
            if b[r][c].isMine then MR.Placing(Place(b0), draws, mineCount, k + 1, placed, Place(b))
            else MR.Placing(Place(b0), draws, mineCount, k + 1, placed + 1, Place(b[r := b[r][c := b[r][c].(isMine := true)]]))
  {
    MR.PlacingStep(Place(b0), size, size, draws, mineCount, k, placed, Place(b));
    var r, c := draws[k].0, draws[k].1;
    assert Place(b)[r][c] == Placed(b[r][c], r, c);
    PlaceMined(b, r, c);
  }

  /** One cell of the counting loops, whose scan so far has counted the cells
      before (i, j) in row-major order: the cell is as it was, the mines are
      those of the mined board, and a safe cell given the count of its whole
      window (itself included) carries the scan on. */
  lemma CountingCell(b1: Board, b: Board, i: int, j: int)
    requires 0 <= i < |b1| && 0 <= j < |b1[i]|
    requires Place(b) == MR.CountedUpTo(Place(b1), i, j)
    ensures |b| == |b1| && OnBoard(b, (i, j)) && b[i][j] == b1[i][j] && Mines(b) == Mines(b1)
    ensures b[i][j].isMine ==> Place(b) == MR.CountedUpTo(Place(b1), i, j + 1)
    ensures !b[i][j].isMine ==>
              var v := Scanned(Mines(b), (i, j), 9, true);
              Place(b[i := b[i][j := b[i][j].(neighborMines := v)]]) == MR.CountedUpTo(Place(b1), i, j + 1)
  {
    MR.CountedUpToStep(Place(b1), i, j);
    ErasePlace(b);
    ErasePlace(b1);
    assert Place(b)[i][j] == Placed(b[i][j], i, j);
    assert Place(b1)[i][j] == Placed(b1[i][j], i, j);
    MinesPlace(b);
    MinesPlace(b1);
    if !b[i][j].isMine {
      CentreNeverCounts(Mines(b), (i, j));
      PlaceCounted(b, i, j, Scanned(Mines(b), (i, j), 9, true));
    }
  }

  /** One position (di, dj) of the inner counting loops around (i, j), the
      centre included: the scan grows by one exactly when that position is
      in bounds and holds a mine. */
  lemma CountingStep(b: Board, size: int, i: int, j: int, di: int, dj: int, r: int, c: int, n: int,
                     before: int, after: int)
    requires Square(b, Clip(size)) && -1 <= di <= 1 && -1 <= dj <= 1 && n == 3 * (di + 1) + (dj + 1)
    requires r == i + di && c == j + dj
    requires before == Scanned(Mines(b), (i, j), n, true)
    requires after == before + if 0 <= r < size && 0 <= c < size && b[r][c].isMine then 1 else 0
    ensures 0 <= n < 9 && after == Scanned(Mines(b), (i, j), n + 1, true)
  {
    WindowOf(i, j, di, dj, n);
  }

  /** The board the counting phase ends with, read with positions, is the
      other engine's started board: consistent, untouched and mined by the
      draws. */
  lemma CreatedBoard(b: Board, size: nat, mineCount: nat, draws: seq<Coord>, k: nat)
    requires k <= |draws| && MR.StopsAt(draws, mineCount, k)
    requires Count(MB.Mines(MB.WithMines(MR.FreshBoard(size, size), DrawSet(draws[..k])))) == mineCount
    requires Place(b) == MR.Counted(MB.WithMines(MR.FreshBoard(size, size), DrawSet(draws[..k])))
    ensures Consistent(b, size, mineCount) && Pristine(b) && MinedBy(b, draws, mineCount)
  {
    MR.StartedBoard(size, size, mineCount, draws, k);
    GeneratedPlace(b, size, mineCount, draws);
  }

  // ---------------------------------------------------------------------
  // Flood fill
  // ---------------------------------------------------------------------

  /** A cell the fill may uncover: on the board, covered, safe, unflagged. */
  predicate Hidden(b: Board, p: Coord)
  {
    OnBoard(b, p) && !b[p.0][p.1].isRevealed && !b[p.0][p.1].isMine && !b[p.0][p.1].isFlagged
  }

  /** An on-board cell with no mine around it, from which the fill spreads. */
  predicate ZeroAt(b: Board, p: Coord)
  {
    OnBoard(b, p) && b[p.0][p.1].neighborMines == 0
  }

  /** The cell uncovered and attributed to `who`. */
  function Uncover(c: Cell, who: string): Cell
  {
    c.(isRevealed := true, revealedBy := Some(who))
  }

  /** The board with the one cell p uncovered by `who`. */
  function UncoverAt(b: Board, p: Coord, who: string): Board
    requires OnBoard(b, p)
  {
    b[p.0 := b[p.0][p.1 := Uncover(b[p.0][p.1], who)]]
  }

  lemma PlaceUncoverAt(b: Board, p: Coord, who: string)
    requires OnBoard(b, p)
    ensures Place(UncoverAt(b, p, who)) == MB.UncoverAt(Place(b), p, who)
  {
    var l: MB.Board := Place(UncoverAt(b, p, who));
    var r: MB.Board := MB.UncoverAt(Place(b), p, who);
    forall i | 0 <= i < |b| ensures l[i] == r[i] {
    }
  }

  /** b1 is b0 with exactly the distinct cells `fill`, all of them hidden
      in b0, uncovered by `who`; every other cell is as it was. */
  ghost predicate RevealedAs(b0: Board, b1: Board, fill: seq<Coord>, who: string)
  {
    && |b1| == |b0| && (forall i :: 0 <= i < |b0| ==> |b1[i]| == |b0[i]|)
    && (forall k :: 0 <= k < |fill| ==> Hidden(b0, fill[k]))
    && (forall k, l :: 0 <= k < l < |fill| ==> fill[k] != fill[l])
    && (forall i, j {:trigger b1[i][j]} {:trigger b0[i][j]} :: 0 <= i < |b0| && 0 <= j < |b0[i]| ==>
          b1[i][j] == if (i, j) in fill then Uncover(b0[i][j], who) else b0[i][j])
  }

  /** Every zero cell among `fill` has no hidden cell left around it. */
  ghost predicate Closed(b: Board, fill: seq<Coord>)
  {
    forall k, t :: 0 <= k < |fill| && ZeroAt(b, fill[k]) && 0 <= t < 9 ==> !Hidden(b, WindowAt(fill[k], t))
  }

  /** Every cell of `fill` after the first touches an earlier zero cell of
      `fill`: the fill spreads only from cells with no mine around them. */
  ghost predicate Expanded(b: Board, fill: seq<Coord>)
  {
    forall q :: 0 < q < |fill| ==> ReachedFrom(b, fill, q)
  }

  ghost predicate ReachedFrom(b: Board, fill: seq<Coord>, q: int)
    requires 0 <= q < |fill|
  {
    exists p :: 0 <= p < q && ZeroAt(b, fill[p]) && Neighbours(fill[p], fill[q])
  }

  /** The reading agrees on which cells are hidden and which are zero. */
  lemma PlaceAgrees(b: Board)
    ensures forall p :: MB.Hidden(Place(b), p) <==> Hidden(b, p)
    ensures forall p :: MB.ZeroAt(Place(b), p) <==> ZeroAt(b, p)
  {
  }

  lemma LiftRevealedAs(b0: Board, b1: Board, f: seq<Coord>, who: string)
    requires MB.RevealedAs(Place(b0), Place(b1), f, who)
    ensures RevealedAs(b0, b1, f, who)
  {
    PlaceAgrees(b0);
    var m0: MB.Board, m1: MB.Board := Place(b0), Place(b1);
    forall i, j | 0 <= i < |b0| && 0 <= j < |b0[i]|
      ensures b1[i][j] == if (i, j) in f then Uncover(b0[i][j], who) else b0[i][j]
    {
      assert m0[i][j] == Placed(b0[i][j], i, j);
      assert m1[i][j] == Placed(b1[i][j], i, j);
    }
  }

  lemma LiftClosed(b: Board, f: seq<Coord>)
    requires MB.Closed(Place(b), f)
    ensures Closed(b, f)
  {
    PlaceAgrees(b);
  }

  lemma LiftExpanded(b: Board, f: seq<Coord>)
    requires MB.Expanded(Place(b), f)
    ensures Expanded(b, f)
  {
    PlaceAgrees(b);
    forall q | 0 < q < |f| ensures ReachedFrom(b, f, q) {
      assert MB.ReachedFrom(Place(b), f, q);
      var p :| 0 <= p < q && MB.ZeroAt(Place(b), f[p]) && Neighbours(f[p], f[q]);
      assert ZeroAt(b, f[p]);
    }
  }

  /** The flood fill from p by `who`, as `RevealCellRecursive` performs it:
      the board after it and the cells it uncovered, in the order the
      recursion reaches them. It is the other engine's fill on the board read
      with positions, the positions dropped again; `FillUnfold` and
      `FillWindowUnfold` state its recursion in this engine's terms. */
  function Fill(b: Board, p: Coord, who: string): (r: (Board, seq<Coord>))
    ensures |r.0| == |b| && forall i :: 0 <= i < |b| ==> |r.0[i]| == |b[i]|
  {
    var m := MB.Fill(Place(b), p, who);
    (Erase(m.0), m.1)
  }

  /** The fill's scan of the window around p from window cell t on. */
  function FillWindow(b: Board, p: Coord, t: int, who: string): (r: (Board, seq<Coord>))
    requires 0 <= t <= 9
    ensures |r.0| == |b| && forall i :: 0 <= i < |b| ==> |r.0[i]| == |b[i]|
  {
    var m := MB.FillWindow(Place(b), p, t, who);
    (Erase(m.0), m.1)
  }

  /** The fill stops at a cell that is off the board, uncovered, a mine or
      flagged; otherwise it uncovers the cell, and goes on into the window
      around it exactly when the cell has no mine around it. */
  lemma FillUnfold(b: Board, p: Coord, who: string)
    ensures Fill(b, p, who) ==
      if !Hidden(b, p) then (b, [])
      else if b[p.0][p.1].neighborMines != 0 then (UncoverAt(b, p, who), [p])
      else var w := FillWindow(UncoverAt(b, p, who), p, 0, who); (w.0, [p] + w.1)
  {
    PlaceAgrees(b);
    ErasePlace(b);
    if Hidden(b, p) {
      PlaceUncoverAt(b, p, who);
      ErasePlace(UncoverAt(b, p, who));
      assert Place(b)[p.0][p.1] == Placed(b[p.0][p.1], p.0, p.1);
    }
  }

  /** The window scan fills each of the eight neighbours in turn, in the
      order of the source's nested loops, each on the board the previous
      ones left, and skips the centre. */
  lemma FillWindowUnfold(b: Board, p: Coord, t: int, who: string)
    requires 0 <= t <= 9
    ensures FillWindow(b, p, t, who) ==
      if t == 9 then (b, [])
      else if t == Centre then FillWindow(b, p, t + 1, who)
      else
        var s := Fill(b, WindowAt(p, t), who);
        var w := FillWindow(s.0, p, t + 1, who);
        (w.0, s.1 + w.1)
  {
    ErasePlace(b);
    if t < 9 && t != Centre {
      var s := MB.Fill(Place(b), WindowAt(p, t), who);
      PlacePositioned(b);
      FillPositioned(Place(b), WindowAt(p, t), who);
      PlaceErase(s.0);
    }
  }

  /** Uncovering a hidden cell leaves one covered cell fewer. */
  lemma UncoverShrinks(b: Board, p: Coord, who: string)
    requires Hidden(b, p)
    ensures |CoveredCells(UncoverAt(b, p, who))| < |CoveredCells(b)|
  {
    PlaceAgrees(b);
    PlaceUncoverAt(b, p, who);
    MB.UncoverShrinks(Place(b), p, who);
    CoveredPlace(b);
    CoveredPlace(UncoverAt(b, p, who));
  }

  /** A fill never covers a cell. */
  lemma FillNoGrow(b: Board, p: Coord, who: string)
    ensures |CoveredCells(Fill(b, p, who).0)| <= |CoveredCells(b)|
  {
    var m := MB.Fill(Place(b), p, who);
    MB.FillNoGrow(Place(b), p, who);
    PlacePositioned(b);
    FillPositioned(Place(b), p, who);
    PlaceErase(m.0);
    CoveredPlace(b);
    CoveredPlace(Erase(m.0));
  }

  /** The fill uncovers exactly the hidden cells it lists, each once and
      none of them a mine or flagged, in the name of `who`, leaves every
      other cell alone, spreads only from cells with no mine around them,
      and leaves no hidden cell next to a zero cell it uncovered. */
  lemma FillSpec(b: Board, p: Coord, who: string)
    ensures RevealedAs(b, Fill(b, p, who).0, Fill(b, p, who).1, who)
    ensures Closed(Fill(b, p, who).0, Fill(b, p, who).1)
    ensures Expanded(Fill(b, p, who).0, Fill(b, p, who).1)
    ensures Hidden(b, p) ==> Fill(b, p, who).1 != [] && Fill(b, p, who).1[0] == p
    ensures !Hidden(b, p) ==> Fill(b, p, who) == (b, [])
  {
    var m := MB.Fill(Place(b), p, who);
    MB.FillSpec(Place(b), p, who);
    PlacePositioned(b);
    FillPositioned(Place(b), p, who);
    PlaceErase(m.0);
    LiftRevealedAs(b, Erase(m.0), m.1, who);
    LiftClosed(Erase(m.0), m.1);
    LiftExpanded(Erase(m.0), m.1);
    PlaceAgrees(b);
    ErasePlace(b);
  }

  /** What a fill leaves alone: the layout, and which cells are on the board. */
  lemma RevealedAsKeeps(b0: Board, b1: Board, f: seq<Coord>, who: string)
    requires RevealedAs(b0, b1, f, who)
    ensures SameLayout(b0, b1)
    ensures forall k :: 0 <= k < |f| ==> OnBoard(b1, f[k])
  {
  }

  /** A fill and a window scan, behind names of their own so that a
      method's contract unfolds them only one level. */
  function Filled(b: Board, p: Coord, who: string): (Board, seq<Coord>)
  {
    Fill(b, p, who)
  }

  function WindowFilled(b: Board, p: Coord, t: int, who: string): (Board, seq<Coord>)
    requires 0 <= t <= 9
  {
    FillWindow(b, p, t, who)
  }

  /** A result whose list has f in front. */
  function After(f: seq<Coord>, r: (Board, seq<Coord>)): (Board, seq<Coord>)
  {
    (r.0, f + r.1)
  }

  /** Where the window scan around p stands after its first n window
      cells: it started on b1, is now on b having listed f, and finishing
      it from here gives the whole scan. */
  ghost predicate Scanning(b1: Board, b: Board, p: Coord, n: int, f: seq<Coord>, who: string)
  {
    && 0 <= n <= 9
    && |CoveredCells(b)| <= |CoveredCells(b1)|
    && WindowFilled(b1, p, 0, who) == After(f, WindowFilled(b, p, n, who))
  }

  /** One neighbour of the window scan: after the sub-fill s of window
      cell n, the rest of the scan starts at n + 1 on the board s left. */
  lemma ScanningNext(b1: Board, b: Board, s: (Board, seq<Coord>), p: Coord, f: seq<Coord>,
                     n: int, r: int, c: int, who: string)
    requires Scanning(b1, b, p, n, f, who) && n < 9 && n != Centre && (r, c) == WindowAt(p, n)
    requires s == Filled(b, (r, c), who)
    ensures Scanning(b1, s.0, p, n + 1, f + s.1, who)
  {
    FillNoGrow(b, (r, c), who);
    FillWindowUnfold(b, p, n, who);
    MB.Associative(f, s.1, FillWindow(s.0, p, n + 1, who).1);
  }

  /** The scan skips the centre of the window. */
  lemma ScanningSkip(b1: Board, b: Board, p: Coord, n: int, f: seq<Coord>, who: string)
    requires n == Centre && Scanning(b1, b, p, n, f, who)
    ensures Scanning(b1, b, p, n + 1, f, who)
  {
    FillWindowUnfold(b, p, n, who);
  }

  lemma ScanningDone(b1: Board, b: Board, p: Coord, f: seq<Coord>, who: string)
    requires Scanning(b1, b, p, 9, f, who)
    ensures WindowFilled(b1, p, 0, who) == (b, f)
  {
    FillWindowUnfold(b, p, 9, who);
    assert f + [] == f;
  }

  // ---------------------------------------------------------------------
  // Mines, flags and the win test
  // ---------------------------------------------------------------------

  /** The board with the mine at p uncovered, attributed to nobody. */
  function MineShown(b: Board, p: Coord): (s: Board)
    requires OnBoard(b, p)
    ensures SameLayout(b, s) && OnBoard(s, p) && s[p.0][p.1].isRevealed
    ensures s[p.0][p.1].revealedBy == b[p.0][p.1].revealedBy && s[p.0][p.1].isFlagged == b[p.0][p.1].isFlagged
    ensures forall q :: OnBoard(b, q) && q != p ==> s[q.0][q.1] == b[q.0][q.1]
  {
    b[p.0 := b[p.0][p.1 := b[p.0][p.1].(isRevealed := true)]]
  }

  /** The board with the flag of cell p flipped. */
  function FlagToggled(b: Board, p: Coord): (t: Board)
    requires OnBoard(b, p)
    ensures SameLayout(b, t) && OnBoard(t, p) && t[p.0][p.1].isFlagged == !b[p.0][p.1].isFlagged
    ensures forall q :: OnBoard(b, q) && q != p ==> t[q.0][q.1] == b[q.0][q.1]
  {
    b[p.0 := b[p.0][p.1 := b[p.0][p.1].(isFlagged := !b[p.0][p.1].isFlagged)]]
  }

  /** Toggling a flag twice restores the board. */
  lemma FlagToggledTwice(b: Board, p: Coord)
    requires OnBoard(b, p)
    ensures FlagToggled(FlagToggled(b, p), p) == b
  {
    var t := FlagToggled(b, p);
    FlagToggledPlace(b, p);
    FlagToggledPlace(t, p);
    MB.FlagToggledTwice(Place(b), p);
    ErasePlace(b);
    ErasePlace(FlagToggled(t, p));
  }

  /** Flipping a flag commutes with reading the board with its positions. */
  lemma FlagToggledPlace(b: Board, p: Coord)
    requires OnBoard(b, p)
    ensures Place(FlagToggled(b, p)) == MB.FlagToggled(Place(b), p)
  {
    var l, r := Place(FlagToggled(b, p)), MB.FlagToggled(Place(b), p);
    forall i | 0 <= i < |b| ensures l[i] == r[i] {
    }
  }

  /** Every safe cell uncovered. */
  ghost predicate AllSafeRevealed(b: Board)
  {
    forall i, j :: 0 <= i < |b| && 0 <= j < |b[i]| ==> b[i][j].isMine || b[i][j].isRevealed
  }

  /** The source's win test, "no cell is both covered and safe", holds
      exactly when every safe cell is uncovered. */
  lemma WinCondition(b: Board)
    ensures Count(HiddenSafe(b)) == 0 <==> AllSafeRevealed(b)
  {
    var h := HiddenSafe(b);
    CountZero(h);
    if Count(h) == 0 {
      forall i, j | 0 <= i < |b| && 0 <= j < |b[i]| ensures b[i][j].isMine || b[i][j].isRevealed {
        assert !h[i][j];
      }
    }
  }

}
