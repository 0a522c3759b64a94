/** The board of the start-gated engine as its service treats it: the layouts
    counted over it, the consistency a started board keeps, and what a flood
    fill does to it. */
module GameBoard {
  import opened Optional
  import opened Grid
  import opened GameModel

  /** `Cell[rows, cols]`, as rows of cells. */
  type Board = seq<seq<Cell>>

  predicate Shaped(b: Board, rows: int, cols: int)
  {
    |b| == rows && forall i :: 0 <= i < |b| ==> |b[i]| == cols
  }

  predicate OnBoard(b: Board, p: Coord)
  {
    0 <= p.0 < |b| && 0 <= p.1 < |b[p.0]|
  }

  // ---------------------------------------------------------------------
  // Layouts
  // ---------------------------------------------------------------------

  /** Where the mines are. */
  function Mines(b: Board): (m: Layout)
    ensures SameShapeAs(m, b)
  {
    seq(|b|, i requires 0 <= i < |b| => seq(|b[i]|, j requires 0 <= j < |b[i]| => b[i][j].isMine))
  }

  /** Which cells are still covered. */
  function Covered(b: Board): (m: Layout)
    ensures SameShapeAs(m, b)
  {
    seq(|b|, i requires 0 <= i < |b| => seq(|b[i]|, j requires 0 <= j < |b[i]| => !b[i][j].isRevealed))
  }

  /** The positions of the cells still covered. */
  ghost function CoveredCells(b: Board): set<Coord>
  {
    set i, j | 0 <= i < |b| && 0 <= j < |b[i]| && !b[i][j].isRevealed :: (i, j)
  }

  /** Which safe cells are uncovered: what the win check counts. */
  function RevealedSafe(b: Board): (m: Layout)
    ensures SameShapeAs(m, b)
  {
    seq(|b|, i requires 0 <= i < |b| => seq(|b[i]|, j requires 0 <= j < |b[i]| => b[i][j].isRevealed && !b[i][j].isMine))
  }

  /** Which safe cells are still covered: what stands between the players and a win. */
  function HiddenSafe(b: Board): (m: Layout)
    ensures SameShapeAs(m, b)
  {
    seq(|b|, i requires 0 <= i < |b| => seq(|b[i]|, j requires 0 <= j < |b[i]| => !b[i][j].isRevealed && !b[i][j].isMine))
  }

  predicate SameShapeAs(m: Layout, b: Board)
  {
    |m| == |b| && forall i :: 0 <= i < |m| ==> |m[i]| == |b[i]|
  }

  /** Two boards whose cells agree on everything a reveal or a flag leaves alone. */
  ghost predicate SameLayout(b0: Board, b1: Board)
  {
    && |b1| == |b0| && (forall i :: 0 <= i < |b0| ==> |b1[i]| == |b0[i]|)
    && forall i, j :: 0 <= i < |b0| && 0 <= j < |b0[i]| ==>
         b1[i][j].row == b0[i][j].row && b1[i][j].col == b0[i][j].col
         && b1[i][j].isMine == b0[i][j].isMine && b1[i][j].adjacentMines == b0[i][j].adjacentMines
  }

  lemma SameMines(b0: Board, b1: Board)
    requires SameLayout(b0, b1)
    ensures Mines(b1) == Mines(b0)
  {
    MinesAgree(b0, b1);
  }

  /** Boards of one shape with their mines in the same cells have the same layout of mines. */
  lemma MinesAgree(b0: Board, b1: Board)
    requires |b1| == |b0| && forall i :: 0 <= i < |b0| ==> |b1[i]| == |b0[i]|
    requires forall i, j :: 0 <= i < |b0| && 0 <= j < |b0[i]| ==> b1[i][j].isMine == b0[i][j].isMine
    ensures Mines(b1) == Mines(b0)
  {
    forall i | 0 <= i < |b0| ensures Mines(b1)[i] == Mines(b0)[i] {
    }
  }

  /** The board with exactly the cells of s made mines. */
  function WithMines(b: Board, s: set<Coord>): (r: Board)
    ensures |r| == |b| && forall i :: 0 <= i < |b| ==> |r[i]| == |b[i]|
  {
    seq(|b|, i requires 0 <= i < |b| => seq(|b[i]|, j requires 0 <= j < |b[i]| => b[i][j].(isMine := (i, j) in s)))
  }

  /** Without mines, b is b with no cell mined. */
  lemma WithNoMines(b: Board)
    requires forall i, j :: 0 <= i < |b| && 0 <= j < |b[i]| ==> !b[i][j].isMine
    ensures WithMines(b, {}) == b
  {
    forall i | 0 <= i < |b| ensures WithMines(b, {})[i] == b[i] {
    }
  }

  /** Mining one more cell d updates that cell only, and a cell already in s changes nothing. */
  lemma WithMinesAdd(b: Board, s: set<Coord>, d: Coord)
    requires OnBoard(b, d)
    ensures WithMines(b, s)[d.0][d.1].isMine <==> d in s
    ensures var w := WithMines(b, s);
      WithMines(b, s + {d}) == if d in s then w else w[d.0 := w[d.0][d.1 := w[d.0][d.1].(isMine := true)]]
  {
    var w: Board := WithMines(b, s);
    var w': Board := WithMines(b, s + {d});
    var u: Board := if d in s then w else w[d.0 := w[d.0][d.1 := w[d.0][d.1].(isMine := true)]];
    forall i | 0 <= i < |b| ensures w'[i] == u[i] {
      assert forall j :: 0 <= j < |b[i]| ==> w'[i][j] == u[i][j];
    }
  }

  /** Making one cell a mine sets that one entry of the layout. */
  lemma MinesAfterMining(b: Board, i: int, j: int)
    requires 0 <= i < |b| && 0 <= j < |b[i]|
    ensures Mines(b[i := b[i][j := b[i][j].(isMine := true)]]) == Mines(b)[i := Mines(b)[i][j := true]]
  {
    var b1, m := b[i := b[i][j := b[i][j].(isMine := true)]], Mines(b);
    forall r | 0 <= r < |b| ensures Mines(b1)[r] == m[i := m[i][j := true]][r] {
    }
  }

  // ---------------------------------------------------------------------
  // A started board
  // ---------------------------------------------------------------------

  /** Every cell records its own position, exactly `mineCount` cells are
      mines, and every safe cell's count is the number of mines around it. */
  ghost predicate Consistent(b: Board, rows: int, cols: int, mineCount: int)
  {
    && Shaped(b, rows, cols)
    && (forall i, j :: 0 <= i < |b| && 0 <= j < |b[i]| ==> b[i][j].row == i && b[i][j].col == j)
    && Count(Mines(b)) == mineCount
    && (forall i, j {:trigger b[i][j]} :: 0 <= i < |b| && 0 <= j < |b[i]| ==>
          b[i][j].adjacentMines == if b[i][j].isMine then 0 else AdjacentCount(Mines(b), (i, j)))
  }

  /** Nothing uncovered, flagged or attributed yet: a freshly generated board. */
  ghost predicate Pristine(b: Board)
  {
    forall i, j :: 0 <= i < |b| && 0 <= j < |b[i]| ==>
      !b[i][j].isRevealed && !b[i][j].isFlagged && b[i][j].revealedBy == None
  }

  /** Uncovering and flagging keep a started board consistent. */
  lemma SameLayoutConsistent(b0: Board, b1: Board, rows: int, cols: int, mineCount: int)
    requires Consistent(b0, rows, cols, mineCount) && SameLayout(b0, b1)
    ensures Consistent(b1, rows, cols, mineCount)
  {
    SameMines(b0, b1);
  }

  // ---------------------------------------------------------------------
  // Flood fill
  // ---------------------------------------------------------------------

  /** A cell a flood fill may uncover: on the board, covered, safe, unflagged. */
  predicate Hidden(b: Board, p: Coord)
  {
    OnBoard(b, p) && !b[p.0][p.1].isRevealed && !b[p.0][p.1].isMine && !b[p.0][p.1].isFlagged
  }

  /** An on-board cell with no mine around it, from which the fill spreads. */
  predicate ZeroAt(b: Board, p: Coord)
  {
    OnBoard(b, p) && b[p.0][p.1].adjacentMines == 0
  }

  /** The cell uncovered and attributed to `who`. */
  function Uncover(c: Cell, who: string): Cell
  {
    c.(isRevealed := true, revealedBy := Some(who))
  }

  /** The board with the one cell p uncovered by `who`. */
  function UncoverAt(b: Board, p: Coord, who: string): Board
    requires OnBoard(b, p)
  {
    b[p.0 := b[p.0][p.1 := Uncover(b[p.0][p.1], who)]]
  }

  /** Uncovering a cell changes neither the layout nor any other cell. */
  lemma UncoverAtKeeps(b: Board, p: Coord, who: string)
    requires OnBoard(b, p)
    ensures SameLayout(b, UncoverAt(b, p, who))
  {
  }

  /** b1 is b0 with exactly the distinct cells `fill`, all of them hidden
      in b0, uncovered by `who`; every other cell is as it was. */
  ghost predicate RevealedAs(b0: Board, b1: Board, fill: seq<Coord>, who: string)
  {
    && |b1| == |b0| && (forall i :: 0 <= i < |b0| ==> |b1[i]| == |b0[i]|)
    && (forall k :: 0 <= k < |fill| ==> Hidden(b0, fill[k]))
    && (forall k, l :: 0 <= k < l < |fill| ==> fill[k] != fill[l])
    && (forall i, j {:trigger b1[i][j]} {:trigger b0[i][j]} :: 0 <= i < |b0| && 0 <= j < |b0[i]| ==>
          b1[i][j] == if (i, j) in fill then Uncover(b0[i][j], who) else b0[i][j])
  }

  /** Every zero cell among `fill` has no hidden cell left around it. */
  ghost predicate Closed(b: Board, fill: seq<Coord>)
  {
    forall k, t :: 0 <= k < |fill| && ZeroAt(b, fill[k]) && 0 <= t < 9 ==> !Hidden(b, WindowAt(fill[k], t))
  }

  /** Every cell of `fill` after the first touches an earlier zero cell of
      `fill`: the fill spreads only from cells with no mine around them. */
  ghost predicate Expanded(b: Board, fill: seq<Coord>)
  {
    forall q :: 0 < q < |fill| ==> ReachedFrom(b, fill, q)
  }

  /** Cell q of `fill` touches an earlier zero cell of `fill`. */
  ghost predicate ReachedFrom(b: Board, fill: seq<Coord>, q: int)
    requires 0 <= q < |fill|
  {
    exists p :: 0 <= p < q && ZeroAt(b, fill[p]) && Neighbours(fill[p], fill[q])
  }

  lemma RevealedAsNothing(b: Board, who: string)
    ensures RevealedAs(b, b, [], who)
  {
  }

  lemma RevealedAsOne(b: Board, p: Coord, who: string)
    requires Hidden(b, p)
    ensures RevealedAs(b, UncoverAt(b, p, who), [p], who)
  {
  }

  /** Two fills in a row are one fill of both lists. */
  lemma RevealedAsThen(b0: Board, b1: Board, b2: Board, f: seq<Coord>, g: seq<Coord>, who: string)
    requires RevealedAs(b0, b1, f, who) && RevealedAs(b1, b2, g, who)
    ensures RevealedAs(b0, b2, f + g, who)
  {
    forall k | 0 <= k < |g| ensures g[k] !in f && Hidden(b0, g[k]) {
      var p := g[k];
      assert Hidden(b1, p);
      if p in f {
        assert false;
      }
    }
    forall k, l | 0 <= k < l < |f + g| ensures (f + g)[k] != (f + g)[l] {
      if l >= |f| && k < |f| {
        assert (f + g)[l] == g[l - |f|];
      }
    }
  }

  /** What a fill leaves alone: the layout, coverage only shrinking. */
  lemma RevealedAsKeeps(b0: Board, b1: Board, f: seq<Coord>, who: string)
    requires RevealedAs(b0, b1, f, who)
    ensures SameLayout(b0, b1)
    ensures forall p :: !Hidden(b0, p) ==> !Hidden(b1, p)
    ensures forall p :: ZeroAt(b0, p) <==> ZeroAt(b1, p)
    ensures forall p :: OnBoard(b0, p) <==> OnBoard(b1, p)
  {
    forall p | !Hidden(b0, p) ensures !Hidden(b1, p) {
      if OnBoard(b0, p) {
        assert b1[p.0][p.1].isRevealed || (b1[p.0][p.1].isMine || b1[p.0][p.1].isFlagged);
      }
    }
  }

  /** Each non-empty fill leaves strictly fewer covered cells. */
  lemma RevealedAsShrinks(b0: Board, b1: Board, f: seq<Coord>, who: string)
    requires RevealedAs(b0, b1, f, who) && f != []
    ensures |CoveredCells(b1)| < |CoveredCells(b0)|
  {
    var p := f[0];
    assert p in CoveredCells(b0) && p !in CoveredCells(b1);
    assert CoveredCells(b1) < CoveredCells(b0);
    SubsetSmaller(CoveredCells(b1), CoveredCells(b0));
  }

  lemma SubsetSmaller<T>(a: set<T>, b: set<T>)
    requires a < b
    ensures |a| < |b|
  {
    assert b - a != {} by {
      assert a != b;
    }
    var x :| x in b - a;
    assert a <= b - {x};
    assert |b - {x}| == |b| - 1;
    SubsetNoLarger(a, b - {x});
  }

  lemma SubsetNoLarger<T>(a: set<T>, b: set<T>)
    requires a <= b
    ensures |a| <= |b|
  {
    assert b == a + (b - a);
  }

  lemma ClosedLater(b0: Board, b1: Board, f: seq<Coord>, g: seq<Coord>, who: string)
    requires RevealedAs(b0, b1, f, who) && Closed(b0, g)
    ensures Closed(b1, g)
  {
    RevealedAsKeeps(b0, b1, f, who);
  }

  lemma ExpandedLater(b0: Board, b1: Board, f: seq<Coord>, g: seq<Coord>, who: string)
    requires RevealedAs(b0, b1, f, who) && Expanded(b0, g)
    ensures Expanded(b1, g)
  {
    RevealedAsKeeps(b0, b1, f, who);
    forall q | 0 < q < |g| ensures ReachedFrom(b1, g, q) {
      assert ReachedFrom(b0, g, q);
      var p :| 0 <= p < q && ZeroAt(b0, g[p]) && Neighbours(g[p], g[q]);
      assert ZeroAt(b1, g[p]);
    }
  }

  /** Appending a fill that starts next to the first, zero, cell keeps the
      list spreading from zero cells. */
  lemma ExpandedAppend(b: Board, f: seq<Coord>, g: seq<Coord>)
    requires Expanded(b, f) && Expanded(b, g) && f != [] && ZeroAt(b, f[0])
    requires g != [] ==> Neighbours(f[0], g[0])
    ensures Expanded(b, f + g)
  {
    var h := f + g;
    forall q | 0 < q < |h| ensures ReachedFrom(b, h, q) {
      if q < |f| {
        assert ReachedFrom(b, f, q);
        var p :| 0 <= p < q && ZeroAt(b, f[p]) && Neighbours(f[p], f[q]);
        assert h[p] == f[p] && h[q] == f[q];
        assert 0 <= p < q && ZeroAt(b, h[p]) && Neighbours(h[p], h[q]);
      } else if q == |f| {
        assert h[0] == f[0] && h[q] == g[0];
        assert ZeroAt(b, h[0]) && Neighbours(h[0], h[q]);
      } else {
        assert ReachedFrom(b, g, q - |f|);
        var p :| 0 <= p < q - |f| && ZeroAt(b, g[p]) && Neighbours(g[p], g[q - |f|]);
        assert h[|f| + p] == g[p] && h[q] == g[q - |f|];
        assert 0 <= |f| + p < q && ZeroAt(b, h[|f| + p]) && Neighbours(h[|f| + p], h[q]);
      }
    }
    assert Expanded(b, h);
  }

  lemma ClosedAppend(b: Board, f: seq<Coord>, g: seq<Coord>)
    requires Closed(b, f) && Closed(b, g)
    ensures Closed(b, f + g)
  {
    forall k, t | 0 <= k < |f + g| && ZeroAt(b, (f + g)[k]) && 0 <= t < 9 ensures !Hidden(b, WindowAt((f + g)[k], t)) {
      if k >= |f| {
        assert (f + g)[k] == g[k - |f|];
      }
    }
  }

  /** Where a fill from zero cell p stands after it has scanned the first n
      window cells: p and the sub-fills `rest` uncovered, the sub-fills
      closed and spreading from p, the scanned window cells no longer hidden. */
  ghost predicate FillProgress(b0: Board, b: Board, p: Coord, rest: seq<Coord>, who: string, n: int)
  {
    && 0 <= n <= 9
    && RevealedAs(b0, b, [p] + rest, who)
    && Closed(b, rest)
    && Expanded(b, [p] + rest)
    && ZeroAt(b, p)
    && forall t :: 0 <= t < n ==> !Hidden(b, WindowAt(p, t))
  }

  lemma FillStart(b0: Board, p: Coord, who: string)
    requires Hidden(b0, p) && ZeroAt(b0, p)
    ensures FillProgress(b0, UncoverAt(b0, p, who), p, [], who, 0)
  {
    RevealedAsOne(b0, p, who);
  }

  /** The centre of the window is p itself, already uncovered. */
  lemma FillSkipCentre(b0: Board, b: Board, p: Coord, rest: seq<Coord>, who: string)
    requires FillProgress(b0, b, p, rest, who, Centre)
    ensures FillProgress(b0, b, p, rest, who, Centre + 1)
  {
    assert WindowAt(p, Centre) == p;
    assert p in [p] + rest;
  }

  /** A sub-fill started at window cell n extends the progress by one cell. */
  lemma FillStep(b0: Board, b: Board, b': Board, p: Coord, rest: seq<Coord>, g: seq<Coord>, who: string, n: int)
    requires FillProgress(b0, b, p, rest, who, n) && n < 9 && n != Centre
    requires RevealedAs(b, b', g, who) && Closed(b', g) && Expanded(b', g)
    requires g != [] ==> g[0] == WindowAt(p, n)
    requires !Hidden(b', WindowAt(p, n))
    ensures FillProgress(b0, b', p, rest + g, who, n + 1)
  {
    RevealedAsThen(b0, b, b', [p] + rest, g, who);
    assert [p] + rest + g == [p] + (rest + g);
    RevealedAsKeeps(b, b', g, who);
    ClosedLater(b, b', g, rest, who);
    ClosedAppend(b', rest, g);
    ExpandedLater(b, b', g, [p] + rest, who);
    assert Offset(n) != (0, 0);
    ExpandedAppend(b', [p] + rest, g);
  }

  /** Once the whole window is scanned, the fill is closed. */
  lemma FillDone(b0: Board, b: Board, p: Coord, rest: seq<Coord>, who: string)
    requires FillProgress(b0, b, p, rest, who, 9)
    ensures Closed(b, [p] + rest)
  {
    ClosedAppend(b, [p], rest);
  }

  /** Uncovering a hidden cell leaves one covered cell fewer. */
  lemma UncoverShrinks(b: Board, p: Coord, who: string)
    requires Hidden(b, p)
    ensures |CoveredCells(UncoverAt(b, p, who))| < |CoveredCells(b)|
  {
    RevealedAsOne(b, p, who);
    RevealedAsShrinks(b, UncoverAt(b, p, who), [p], who);
  }

  /** The flood fill from p by `who`: the board after it and the cells it
      uncovered, in the order the recursion reaches them. */
  function Fill(b: Board, p: Coord, who: string): (r: (Board, seq<Coord>))
    ensures |r.0| == |b| && forall i :: 0 <= i < |b| ==> |r.0[i]| == |b[i]|
    decreases |CoveredCells(b)|, 0, 0
  {
    if !Hidden(b, p) then (b, [])
    else
      var b1 := UncoverAt(b, p, who);
      UncoverShrinks(b, p, who);
      if b[p.0][p.1].adjacentMines != 0 then (b1, [p])
      else
        var w := FillWindow(b1, p, 0, who);
        (w.0, [p] + w.1)
  }

  /** The fill's scan of the window around p from window cell t on: one
      sub-fill per neighbour, in the order of the source's nested loops. */
  function FillWindow(b: Board, p: Coord, t: int, who: string): (r: (Board, seq<Coord>))
    requires 0 <= t <= 9
    ensures |r.0| == |b| && forall i :: 0 <= i < |b| ==> |r.0[i]| == |b[i]|
    decreases |CoveredCells(b)|, 1, 9 - t
  {
    if t == 9 then (b, [])
    else if t == Centre then FillWindow(b, p, t + 1, who)
    else
      var s := Fill(b, WindowAt(p, t), who);
      FillNoGrow(b, WindowAt(p, t), who);
      var w := FillWindow(s.0, p, t + 1, who);
      (w.0, s.1 + w.1)
  }

  /** A fill never covers a cell: what makes the fill terminate. */
  lemma {:induction false} FillNoGrow(b: Board, p: Coord, who: string)
    ensures |CoveredCells(Fill(b, p, who).0)| <= |CoveredCells(b)|
    decreases |CoveredCells(b)|, 0, 1
  {
    if Hidden(b, p) {
      var b1 := UncoverAt(b, p, who);
      UncoverShrinks(b, p, who);
      if b[p.0][p.1].adjacentMines == 0 {
        FillWindowNoGrow(b1, p, 0, who);
      }
    }
  }

  lemma {:induction false} FillWindowNoGrow(b: Board, p: Coord, t: int, who: string)
    requires 0 <= t <= 9
    ensures |CoveredCells(FillWindow(b, p, t, who).0)| <= |CoveredCells(b)|
    decreases |CoveredCells(b)|, 1, 10 - t
  {
    if t < 9 && t == Centre {
      FillWindowNoGrow(b, p, t + 1, who);
    } else if t < 9 {
      var s := Fill(b, WindowAt(p, t), who);
      FillNoGrow(b, WindowAt(p, t), who);
      FillWindowNoGrow(s.0, p, t + 1, who);
    }
  }

  /** The fill uncovers exactly the hidden cells it lists, each once and
      none of them a mine or flagged, leaves every other cell alone,
      spreads only from cells with no mine around them, and leaves no
      hidden cell next to a zero cell it uncovered. */
  lemma {:induction false} FillSpec(b: Board, p: Coord, who: string)
    ensures RevealedAs(b, Fill(b, p, who).0, Fill(b, p, who).1, who)
    ensures Closed(Fill(b, p, who).0, Fill(b, p, who).1)
    ensures Expanded(Fill(b, p, who).0, Fill(b, p, who).1)
    ensures Hidden(b, p) ==> Fill(b, p, who).1 != [] && Fill(b, p, who).1[0] == p
    ensures !Hidden(b, p) ==> Fill(b, p, who) == (b, [])
    ensures !Hidden(Fill(b, p, who).0, p)
    decreases |CoveredCells(b)|, 0, 0, 0
  {
    if Hidden(b, p) {
      var b1 := UncoverAt(b, p, who);
      if b[p.0][p.1].adjacentMines != 0 {
        RevealedAsOne(b, p, who);
        assert p in [p];
      } else {
        UncoverShrinks(b, p, who);
        var w := FillWindow(b1, p, 0, who);
        assert FillProgress(b, w.0, p, w.1, who, 9) by {
          FillStart(b, p, who);
          FillWindowSpec(b, b1, p, [], who, 0);
          assert [] + w.1 == w.1;
        }
        FillFinish(b, w.0, p, w.1, who);
      }
    }
  }

  /** A fill whose window scan is complete has the properties of `FillSpec`. */
  lemma FillFinish(b0: Board, b: Board, p: Coord, rest: seq<Coord>, who: string)
    requires FillProgress(b0, b, p, rest, who, 9)
    ensures RevealedAs(b0, b, [p] + rest, who) && Closed(b, [p] + rest) && Expanded(b, [p] + rest)
    ensures !Hidden(b, p)
  {
    FillDone(b0, b, p, rest, who);
    assert p in [p] + rest;
  }

  lemma {:induction false} FillWindowSpec(b0: Board, b: Board, p: Coord, rest: seq<Coord>, who: string, t: int)
    requires FillProgress(b0, b, p, rest, who, t)
    ensures FillProgress(b0, FillWindow(b, p, t, who).0, p, rest + FillWindow(b, p, t, who).1, who, 9)
    decreases |CoveredCells(b)|, 1, 9 - t, 2
  {
    if t == 9 {
      assert rest + [] == rest;
    } else if t == Centre {
      FillSkipCentre(b0, b, p, rest, who);
      FillWindowSpec(b0, b, p, rest, who, t + 1);
    } else {
      FillWindowStep(b0, b, p, rest, who, t);
    }
  }

  lemma {:induction false} FillWindowStep(b0: Board, b: Board, p: Coord, rest: seq<Coord>, who: string, t: int)
    requires FillProgress(b0, b, p, rest, who, t) && t < 9 && t != Centre
    ensures FillProgress(b0, FillWindow(b, p, t, who).0, p, rest + FillWindow(b, p, t, who).1, who, 9)
    decreases |CoveredCells(b)|, 1, 9 - t, 1
  {
    var s := Fill(b, WindowAt(p, t), who);
    var w := FillWindow(s.0, p, t + 1, who);
    assert FillProgress(b0, w.0, p, rest + s.1 + w.1, who, 9) by {
      FillNoGrow(b, WindowAt(p, t), who);
      FillSubStep(b0, b, p, rest, who, t);
      FillWindowSpec(b0, s.0, p, rest + s.1, who, t + 1);
    }
    Associative(rest, s.1, w.1);
  }

  /** A fill and a window scan, behind names of their own so that a
      method's contract unfolds them only one level. */
  function Filled(b: Board, p: Coord, who: string): (Board, seq<Coord>)
  {
    Fill(b, p, who)
  }

  function WindowFilled(b: Board, p: Coord, t: int, who: string): (Board, seq<Coord>)
    requires 0 <= t <= 9
  {
    FillWindow(b, p, t, who)
  }

  /** A result whose list has f in front. */
  function After(f: seq<Coord>, r: (Board, seq<Coord>)): (Board, seq<Coord>)
  {
    (r.0, f + r.1)
  }

  /** Where the window scan around p stands after its first n window
      cells: it started on b1, is now on b having listed f, and finishing
      it from here gives the whole scan. */
  ghost predicate Scanning(b1: Board, b: Board, p: Coord, n: int, f: seq<Coord>, who: string)
  {
    && 0 <= n <= 9
    && |CoveredCells(b)| <= |CoveredCells(b1)|
    && WindowFilled(b1, p, 0, who) == After(f, WindowFilled(b, p, n, who))
  }

  lemma ScanningStart(b: Board, p: Coord, who: string)
    ensures Scanning(b, b, p, 0, [], who)
  {
    assert [] + WindowFilled(b, p, 0, who).1 == WindowFilled(b, p, 0, who).1;
  }

  /** One neighbour of the window scan: after the sub-fill s of window
      cell n, the rest of the scan starts at n + 1 on the board s left. */
  lemma ScanningNext(b1: Board, b: Board, s: (Board, seq<Coord>), p: Coord, f: seq<Coord>,
                     n: int, r: int, c: int, who: string)
    requires Scanning(b1, b, p, n, f, who) && n < 9 && n != Centre && (r, c) == WindowAt(p, n)
    requires s == Filled(b, (r, c), who)
    ensures Scanning(b1, s.0, p, n + 1, f + s.1, who)
  {
    FillNoGrow(b, (r, c), who);
    Associative(f, s.1, FillWindow(s.0, p, n + 1, who).1);
  }

  /** The scan skips the centre of the window. */
  lemma ScanningSkip(b1: Board, b: Board, p: Coord, n: int, f: seq<Coord>, who: string)
    requires n == Centre && Scanning(b1, b, p, n, f, who)
    ensures Scanning(b1, b, p, n + 1, f, who)
  {
  }

  lemma ScanningDone(b1: Board, b: Board, p: Coord, f: seq<Coord>, who: string)
    requires Scanning(b1, b, p, 9, f, who)
    ensures WindowFilled(b1, p, 0, who) == (b, f)
  {
    assert f + [] == f;
  }

  lemma Associative<T>(a: seq<T>, b: seq<T>, c: seq<T>)
    ensures a + b + c == a + (b + c)
  {
  }

  lemma {:induction false} FillSubStep(b0: Board, b: Board, p: Coord, rest: seq<Coord>, who: string, t: int)
    requires FillProgress(b0, b, p, rest, who, t) && t < 9 && t != Centre
    ensures FillProgress(b0, Fill(b, WindowAt(p, t), who).0, p, rest + Fill(b, WindowAt(p, t), who).1, who, t + 1)
    decreases |CoveredCells(b)|, 1, 9 - t, 0
  {
    var q := WindowAt(p, t);
    FillSpec(b, q, who);
    var s := Fill(b, q, who);
    FillStep(b0, b, s.0, p, rest, s.1, who, t);
  }

  /** What the service needs of a fill: the layout stays, and every listed cell is on the board. */
  lemma FillKeeps(b: Board, p: Coord, who: string)
    ensures SameLayout(b, Fill(b, p, who).0)
    ensures forall k :: 0 <= k < |Fill(b, p, who).1| ==> OnBoard(Fill(b, p, who).0, Fill(b, p, who).1[k])
  {
    FillSpec(b, p, who);
    RevealedAsKeeps(b, Fill(b, p, who).0, Fill(b, p, who).1, who);
  }

  // ---------------------------------------------------------------------
  // Revealing every mine, and looking cells up
  // ---------------------------------------------------------------------

  /** The covered mines of the first n cells of row i, left to right. */
  function RowHiddenMines(b: Board, i: int, n: int): (r: seq<Coord>)
    requires 0 <= i < |b| && 0 <= n <= |b[i]|
    ensures forall p :: p in r <==> p.0 == i && 0 <= p.1 < n && b[i][p.1].isMine && !b[i][p.1].isRevealed
    ensures forall k, l :: 0 <= k < l < |r| ==> r[k].1 < r[l].1
  {
    if n == 0 then []
    else RowHiddenMines(b, i, n - 1)
         + (if b[i][n - 1].isMine && !b[i][n - 1].isRevealed then [(i, n - 1)] else [])
  }

  /** The covered mines of the first n rows, in row-major order. */
  function HiddenMinesUpTo(b: Board, n: int): (r: seq<Coord>)
    requires 0 <= n <= |b|
    ensures forall p :: p in r <==> OnBoard(b, p) && p.0 < n && b[p.0][p.1].isMine && !b[p.0][p.1].isRevealed
    ensures forall k, l :: 0 <= k < l < |r| ==> r[k].0 < r[l].0 || (r[k].0 == r[l].0 && r[k].1 < r[l].1)
  {
    if n == 0 then []
    else
      var front, last := HiddenMinesUpTo(b, n - 1), RowHiddenMines(b, n - 1, |b[n - 1]|);
      assert forall k :: 0 <= k < |front| ==> front[k] in front;
      assert forall k :: 0 <= k < |last| ==> last[k] in last;
      front + last
  }

  /** The scan's list of covered mines grows by the cell at (i, j) exactly when it is one. */
  lemma HiddenMinesStep(b: Board, i: int, j: int)
    requires 0 <= i < |b| && 0 <= j < |b[i]|
    ensures HiddenMinesUpTo(b, i) + RowHiddenMines(b, i, j + 1) ==
            HiddenMinesUpTo(b, i) + RowHiddenMines(b, i, j) + (if b[i][j].isMine && !b[i][j].isRevealed then [(i, j)] else [])
  {
  }

  /** A finished row joins the rows before it. */
  lemma HiddenMinesRow(b: Board, i: int)
    requires 0 <= i < |b|
    ensures HiddenMinesUpTo(b, i) + RowHiddenMines(b, i, |b[i]|) == HiddenMinesUpTo(b, i + 1)
  {
  }

  /** Every covered mine, in the row-major order of the source's loops. */
  function HiddenMines(b: Board): seq<Coord>
  {
    HiddenMinesUpTo(b, |b|)
  }

  /** The board with every mine uncovered (not attributed to anyone); all
      safe cells as they were. */
  function ExposeMines(b: Board): (e: Board)
    ensures |e| == |b| && forall i :: 0 <= i < |b| ==> |e[i]| == |b[i]|
  {
    seq(|b|, i requires 0 <= i < |b| => seq(|b[i]|, j requires 0 <= j < |b[i]| => Exposed(b[i][j])))
  }

  /** The cell uncovered when it is a mine. */
  function Exposed(c: Cell): Cell
  {
    if c.isMine then c.(isRevealed := true) else c
  }

  /** Row-major order: cell (r, c) is scanned before position (i, j). */
  predicate Before(r: int, c: int, i: int, j: int)
  {
    r < i || (r == i && c < j)
  }

  /** The board once a row-major scan has exposed the mines before (i, j). */
  function ExposedUpTo(b: Board, i: int, j: int): (e: Board)
    ensures |e| == |b| && forall r :: 0 <= r < |b| ==> |e[r]| == |b[r]|
  {
    seq(|b|, r requires 0 <= r < |b| =>
      seq(|b[r]|, c requires 0 <= c < |b[r]| => if Before(r, c, i, j) then Exposed(b[r][c]) else b[r][c]))
  }

  /** One step of the scan: the cell at (i, j) is still as it was, and is
      uncovered exactly when it is a covered mine. */
  lemma ExposedUpToStep(b: Board, i: int, j: int)
    requires 0 <= i < |b| && 0 <= j < |b[i]|
    ensures ExposedUpTo(b, i, j)[i][j] == b[i][j]
    ensures var e := ExposedUpTo(b, i, j);
      ExposedUpTo(b, i, j + 1) ==
        if b[i][j].isMine && !b[i][j].isRevealed then e[i := e[i][j := e[i][j].(isRevealed := true)]] else e
  {
    var e: Board := ExposedUpTo(b, i, j);
    var e': Board := ExposedUpTo(b, i, j + 1);
    var u: Board := if b[i][j].isMine && !b[i][j].isRevealed then e[i := e[i][j := e[i][j].(isRevealed := true)]] else e;
    forall r | 0 <= r < |b| ensures e'[r] == u[r] {
      if r == i {
        assert forall c :: 0 <= c < |b[r]| ==> e'[r][c] == u[r][c];
      }
    }
  }

  lemma ExposedUpToRow(b: Board, i: int)
    requires 0 <= i < |b|
    ensures ExposedUpTo(b, i, |b[i]|) == ExposedUpTo(b, i + 1, 0)
  {
    var e, e' := ExposedUpTo(b, i, |b[i]|), ExposedUpTo(b, i + 1, 0);
    forall r | 0 <= r < |b| ensures e[r] == e'[r] {
    }
  }

  lemma ExposedUpToEnds(b: Board)
    ensures ExposedUpTo(b, 0, 0) == b
    ensures ExposedUpTo(b, |b|, 0) == ExposeMines(b)
  {
    var e, e' := ExposedUpTo(b, 0, 0), ExposedUpTo(b, |b|, 0);
    forall r | 0 <= r < |b| ensures e[r] == b[r] && e'[r] == ExposeMines(b)[r] {
    }
  }

  /** Every covered mine lies on the board, also once the mines are exposed. */
  lemma HiddenMinesOnBoard(b: Board)
    ensures forall k :: 0 <= k < |HiddenMines(b)| ==> OnBoard(b, HiddenMines(b)[k]) && OnBoard(ExposeMines(b), HiddenMines(b)[k])
  {
    var h := HiddenMines(b);
    forall k | 0 <= k < |h| ensures OnBoard(b, h[k]) {
      assert h[k] in h;
    }
  }

  /** After all mines are exposed none is covered, and nothing else differs. */
  lemma ExposeMinesEffect(b: Board)
    ensures forall p :: p !in HiddenMines(ExposeMines(b))
    ensures SameLayout(b, ExposeMines(b))
    ensures forall i, j :: 0 <= i < |b| && 0 <= j < |b[i]| && !b[i][j].isMine ==> ExposeMines(b)[i][j] == b[i][j]
  {
  }

  // ---------------------------------------------------------------------
  // Flags
  // ---------------------------------------------------------------------

  /** The board with the flag of cell p flipped. */
  function FlagToggled(b: Board, p: Coord): (t: Board)
    requires OnBoard(b, p)
    ensures OnBoard(t, p) && t[p.0][p.1].isFlagged == !b[p.0][p.1].isFlagged
  {
    b[p.0 := b[p.0][p.1 := b[p.0][p.1].(isFlagged := !b[p.0][p.1].isFlagged)]]
  }

  /** Toggling a flag twice restores the board. */
  lemma FlagToggledTwice(b: Board, p: Coord)
    requires OnBoard(b, p)
    ensures FlagToggled(FlagToggled(b, p), p) == b
  {
    var t := FlagToggled(FlagToggled(b, p), p);
    assert t[p.0] == b[p.0];
  }

  /** A flag changes neither the layout nor any other cell. */
  lemma FlagToggledKeeps(b: Board, p: Coord)
    requires OnBoard(b, p)
    ensures SameLayout(b, FlagToggled(b, p))
    ensures forall q :: OnBoard(b, q) && q != p ==> FlagToggled(b, p)[q.0][q.1] == b[q.0][q.1]
  {
  }

  /** Every one of the positions is on the board. */
  ghost predicate AllOnBoard(b: Board, ps: seq<Coord>)
  {
    forall k :: 0 <= k < |ps| ==> OnBoard(b, ps[k])
  }

  /** The cells at the given positions: what the result's list of cell
      references shows once the operation is over. */
  function CellsAt(b: Board, ps: seq<Coord>): (cs: seq<Cell>)
    requires AllOnBoard(b, ps)
    ensures |cs| == |ps| && forall k :: 0 <= k < |ps| ==> OnBoard(b, ps[k]) && cs[k] == b[ps[k].0][ps[k].1]
  {
    if ps == [] then []
    else
      assert OnBoard(b, ps[0]);
      [b[ps[0].0][ps[0].1]] + CellsAt(b, ps[1..])
  }

  /** The positions the cells record. */
  function PositionsOf(cs: seq<Cell>): (ps: seq<Coord>)
    ensures |ps| == |cs| && forall k {:trigger ps[k]} {:trigger cs[k]} :: 0 <= k < |cs| ==> ps[k] == (cs[k].row, cs[k].col)
  {
    if cs == [] then [] else [(cs[0].row, cs[0].col)] + PositionsOf(cs[1..])
  }

  /** On a board whose cells record their positions, looking cells up and
      reading their positions back gives the positions. */
  lemma PositionsOfCellsAt(b: Board, ps: seq<Coord>)
    requires forall i, j :: 0 <= i < |b| && 0 <= j < |b[i]| ==> b[i][j].row == i && b[i][j].col == j
    requires AllOnBoard(b, ps)
    ensures PositionsOf(CellsAt(b, ps)) == ps
  {
  }

}
