/** Grid geometry shared by both room engines: coordinates, the 3x3 window
    that the neighbour loops scan, counting over boolean layouts, and the
    coordinate draws that stand in for the random source. */
module Grid {

  /** A (row, col) position. */
  type Coord = (int, int)

  /** One boolean per cell, rows first: where the mines are, which cells are
      still covered, and so on. */
  type Layout = seq<seq<bool>>

  /** A board dimension or a count as the source's loops use it: a negative
      value runs no iteration. */
  function Clip(n: int): nat
  {
    if n < 0 then 0 else n
  }

  predicate InBounds(rows: int, cols: int, p: Coord)
  {
    0 <= p.0 < rows && 0 <= p.1 < cols
  }

  /** Two distinct cells that touch, also diagonally. */
  predicate Neighbours(p: Coord, q: Coord)
  {
    p != q && -1 <= q.0 - p.0 <= 1 && -1 <= q.1 - p.1 <= 1
  }

  // ---------------------------------------------------------------------
  // The 3x3 window
  // ---------------------------------------------------------------------

  /** Index of the centre in the window. */
  const Centre := 4

  /** The t-th offset of the window, in the order of the source's nested
      loops `for dr in -1..1 { for dc in -1..1 }`: t = 3 * (dr + 1) + (dc + 1). */
  function Offset(t: int): (d: Coord)
    requires 0 <= t < 9
    ensures -1 <= d.0 <= 1 && -1 <= d.1 <= 1
    ensures 3 * d.0 + d.1 + Centre == t
  {
    if t < 3 then (-1, t - 1) else if t < 6 then (0, t - 4) else (1, t - 7)
  }

  /** The t-th cell of the window centred on p. */
  function WindowAt(p: Coord, t: int): Coord
    requires 0 <= t < 9
  {
    (p.0 + Offset(t).0, p.1 + Offset(t).1)
  }

  /** Loop index of the offset (dr, dc). */
  lemma OffsetOf(dr: int, dc: int)
    requires -1 <= dr <= 1 && -1 <= dc <= 1
    ensures 0 <= 3 * dr + dc + Centre < 9
    ensures Offset(3 * dr + dc + Centre) == (dr, dc)
  {
  }

  /** The window cell that the loop position (dr, dc) visits, by its index t. */
  lemma WindowOf(row: int, col: int, dr: int, dc: int, t: int)
    requires -1 <= dr <= 1 && -1 <= dc <= 1 && t == 3 * (dr + 1) + (dc + 1)
    ensures 0 <= t < 9 && WindowAt((row, col), t) == (row + dr, col + dc)
    ensures t == Centre <==> dr == 0 && dc == 0
  {
    OffsetOf(dr, dc);
  }

  /** 1 when p is inside the layout and set there, 0 otherwise: the source's
      bounds test followed by `IsMine`. */
  function MineAt(m: Layout, p: Coord): nat
  {
    if 0 <= p.0 < |m| && 0 <= p.1 < |m[p.0]| && m[p.0][p.1] then 1 else 0
  }

  /** What a neighbour-counting loop has added up after scanning the first n
      window cells around p; `withCentre` says whether it counts offset (0, 0). */
  function Scanned(m: Layout, p: Coord, n: nat, withCentre: bool): nat
    requires n <= 9
  {
    if n == 0 then 0
    else Scanned(m, p, n - 1, withCentre)
         + (if n - 1 == Centre && !withCentre then 0 else MineAt(m, WindowAt(p, n - 1)))
  }

  /** The number of mines among the up-to-eight in-bounds neighbours of p. */
  function AdjacentCount(m: Layout, p: Coord): nat
  {
    Scanned(m, p, 9, false)
  }

  /** A prefix of the scan adds at most one per position it has scanned,
      and nothing for the centre when that one is skipped. */
  lemma {:induction false} ScannedBound(m: Layout, p: Coord, n: nat, withCentre: bool)
    requires n <= 9
    ensures Scanned(m, p, n, withCentre) <= n - (if !withCentre && n > Centre then 1 else 0)
  {
    if n > 0 {
      ScannedBound(m, p, n - 1, withCentre);
    }
  }

  /** A cell has at most eight mines around it. */
  lemma AdjacentAtMostEight(m: Layout, p: Coord)
    ensures AdjacentCount(m, p) <= 8
  {
    ScannedBound(m, p, 9, false);
  }

  /** Counting the centre too adds exactly the centre's own mine. */
  lemma {:induction false} ScannedWithCentre(m: Layout, p: Coord, n: nat)
    requires n <= 9
    ensures Scanned(m, p, n, true) == Scanned(m, p, n, false) + (if n > Centre then MineAt(m, p) else 0)
  {
    if n > 0 {
      ScannedWithCentre(m, p, n - 1);
      assert WindowAt(p, Centre) == p;
    }
  }

  /** The API's neighbour loop includes offset (0, 0); on a cell that is not
      a mine that changes nothing. */
  lemma CentreNeverCounts(m: Layout, p: Coord)
    requires MineAt(m, p) == 0
    ensures Scanned(m, p, 9, true) == AdjacentCount(m, p)
  {
    ScannedWithCentre(m, p, 9);
  }

  /** The scan is zero exactly when no scanned window cell holds a mine. */
  lemma {:induction false} ScannedZero(m: Layout, p: Coord, n: nat, withCentre: bool)
    requires n <= 9
    ensures Scanned(m, p, n, withCentre) == 0 <==>
            forall t :: 0 <= t < n && (t != Centre || withCentre) ==> MineAt(m, WindowAt(p, t)) == 0
  {
    if n > 0 {
      ScannedZero(m, p, n - 1, withCentre);
    }
  }

  /** The set of in-bounds neighbours of p that hold a mine, defined without
      reference to the scan order. */
  ghost function NeighbourMines(m: Layout, p: Coord): set<Coord>
  {
    set i, j | p.0 - 1 <= i <= p.0 + 1 && p.1 - 1 <= j <= p.1 + 1 && (i, j) != p
                && 0 <= i < |m| && 0 <= j < |m[i]| && m[i][j] :: (i, j)
  }

  /** The mine cells among the first n window positions around p, centre skipped. */
  ghost function ScannedMines(m: Layout, p: Coord, n: nat): set<Coord>
    requires n <= 9
  {
    set t | 0 <= t < n && t != Centre && MineAt(m, WindowAt(p, t)) == 1 :: WindowAt(p, t)
  }

  lemma {:induction false} ScannedMinesCount(m: Layout, p: Coord, n: nat)
    requires n <= 9
    ensures |ScannedMines(m, p, n)| == Scanned(m, p, n, false)
  {
    if n > 0 {
      ScannedMinesCount(m, p, n - 1);
      if n - 1 != Centre && MineAt(m, WindowAt(p, n - 1)) == 1 {
        ScannedMinesGrow(m, p, n);
      } else {
        ScannedMinesSame(m, p, n);
      }
    }
  }

  /** A scanned mine cell is new to the set. */
  lemma ScannedMinesGrow(m: Layout, p: Coord, n: nat)
    requires 0 < n <= 9 && n - 1 != Centre && MineAt(m, WindowAt(p, n - 1)) == 1
    ensures WindowAt(p, n - 1) !in ScannedMines(m, p, n - 1)
    ensures ScannedMines(m, p, n) == ScannedMines(m, p, n - 1) + {WindowAt(p, n - 1)}
  {
    var q := WindowAt(p, n - 1);
    var before := ScannedMines(m, p, n - 1);
    forall t | 0 <= t < n - 1 ensures WindowAt(p, t) != q {
      assert Offset(t) != Offset(n - 1);
    }
    forall x | x in ScannedMines(m, p, n) ensures x in before + {q} {
      var t :| 0 <= t < n && t != Centre && MineAt(m, WindowAt(p, t)) == 1 && x == WindowAt(p, t);
      if t < n - 1 { assert x in before; }
    }
  }

  /** A skipped or empty window cell adds nothing to the set. */
  lemma ScannedMinesSame(m: Layout, p: Coord, n: nat)
    requires 0 < n <= 9 && !(n - 1 != Centre && MineAt(m, WindowAt(p, n - 1)) == 1)
    ensures ScannedMines(m, p, n) == ScannedMines(m, p, n - 1)
  {
    forall x | x in ScannedMines(m, p, n) ensures x in ScannedMines(m, p, n - 1) {
      var t :| 0 <= t < n && t != Centre && MineAt(m, WindowAt(p, t)) == 1 && x == WindowAt(p, t);
      assert t < n - 1;
    }
  }

  /** The neighbour count is the number of in-bounds neighbours that are mines. */
  lemma AdjacentCountIsNeighbourMines(m: Layout, p: Coord)
    ensures AdjacentCount(m, p) == |NeighbourMines(m, p)|
  {
    ScannedMinesCount(m, p, 9);
    forall q | q in NeighbourMines(m, p) ensures q in ScannedMines(m, p, 9) {
      var t := 3 * (q.0 - p.0) + (q.1 - p.1) + Centre;
      OffsetOf(q.0 - p.0, q.1 - p.1);
      assert WindowAt(p, t) == q;
    }
    assert NeighbourMines(m, p) == ScannedMines(m, p, 9);
  }

  // ---------------------------------------------------------------------
  // Counting over layouts
  // ---------------------------------------------------------------------

  /** Number of set entries in a row. */
  function RowCount(s: seq<bool>): nat
  {
    if s == [] then 0 else RowCount(s[..|s| - 1]) + (if s[|s| - 1] then 1 else 0)
  }

  /** Number of set entries in a layout, rows first. */
  function Count(g: Layout): nat
  {
    if g == [] then 0 else Count(g[..|g| - 1]) + RowCount(g[|g| - 1])
  }

  /** Two layouts of the same shape. */
  predicate SameShape(a: Layout, b: Layout)
  {
    |a| == |b| && forall i :: 0 <= i < |a| ==> |a[i]| == |b[i]|
  }

  /** Every row has `cols` entries. */
  predicate Rectangle(g: Layout, cols: int)
  {
    forall i :: 0 <= i < |g| ==> |g[i]| == cols
  }

  lemma {:induction false} RowCountSet(s: seq<bool>, j: int)
    requires 0 <= j < |s| && !s[j]
    ensures RowCount(s[j := true]) == RowCount(s) + 1
  {
    var n := |s| - 1;
    if j < n {
      assert s[j := true][..n] == s[..n][j := true];
      RowCountSet(s[..n], j);
    } else {
      assert s[j := true][..n] == s[..n];
    }
  }

  /** Setting one clear entry adds one to the count: how placing a mine on a
      free cell moves the mine count. */
  lemma {:induction false} CountSet(g: Layout, i: int, j: int)
    requires 0 <= i < |g| && 0 <= j < |g[i]| && !g[i][j]
    ensures Count(g[i := g[i][j := true]]) == Count(g) + 1
  {
    var n := |g| - 1;
    var h := g[i := g[i][j := true]];
    if i < n {
      assert h[..n] == g[..n][i := g[i][j := true]];
      CountSet(g[..n], i, j);
    } else {
      assert h[..n] == g[..n];
      RowCountSet(g[i], j);
    }
  }

  lemma {:induction false} RowCountZero(s: seq<bool>)
    ensures RowCount(s) == 0 <==> forall j :: 0 <= j < |s| ==> !s[j]
  {
    if s != [] {
      RowCountZero(s[..|s| - 1]);
      assert forall j :: 0 <= j < |s| - 1 ==> s[..|s| - 1][j] == s[j];
    }
  }

  /** The count is zero exactly when no entry is set. */
  lemma {:induction false} CountZero(g: Layout)
    ensures Count(g) == 0 <==> forall i, j :: 0 <= i < |g| && 0 <= j < |g[i]| ==> !g[i][j]
  {
    if g != [] {
      var n := |g| - 1;
      CountZero(g[..n]);
      RowCountZero(g[n]);
      assert forall i :: 0 <= i < n ==> g[..n][i] == g[i];
    }
  }

  lemma {:induction false} RowCountPartition(a: seq<bool>, b: seq<bool>, c: seq<bool>)
    requires |a| == |b| == |c|
    requires forall j :: 0 <= j < |a| ==> (if a[j] then 1 else 0) + (if b[j] then 1 else 0) + (if c[j] then 1 else 0) == 1
    ensures RowCount(a) + RowCount(b) + RowCount(c) == |a|
  {
    if a != [] {
      var n := |a| - 1;
      RowCountPartition(a[..n], b[..n], c[..n]);
    }
  }

  /** Three layouts that between them set every cell of a rectangle exactly
      once count up to its area. */
  lemma {:induction false} CountPartition(a: Layout, b: Layout, c: Layout, cols: nat)
    requires SameShape(a, b) && SameShape(a, c) && Rectangle(a, cols)
    requires forall i, j :: 0 <= i < |a| && 0 <= j < |a[i]| ==>
               (if a[i][j] then 1 else 0) + (if b[i][j] then 1 else 0) + (if c[i][j] then 1 else 0) == 1
    ensures Count(a) + Count(b) + Count(c) == |a| * cols
  {
    if a != [] {
      var n := |a| - 1;
      var a', b', c' := a[..n], b[..n], c[..n];
      forall i, j | 0 <= i < |a'| && 0 <= j < |a'[i]|
        ensures (if a'[i][j] then 1 else 0) + (if b'[i][j] then 1 else 0) + (if c'[i][j] then 1 else 0) == 1
      {
        assert a'[i] == a[i] && b'[i] == b[i] && c'[i] == c[i];
      }
      CountPartition(a', b', c', cols);
      RowCountPartition(a[n], b[n], c[n]);
      MulStep(n, cols);
    }
  }

  lemma MulStep(n: nat, cols: nat)
    ensures n * cols + cols == (n + 1) * cols
  {
  }

  // ---------------------------------------------------------------------
  // Draws of the random source
  // ---------------------------------------------------------------------

  /** The distinct coordinates among the draws. */
  function DrawSet(draws: seq<Coord>): set<Coord>
  {
    set d | d in draws
  }

  /** The draws a mine-placement loop consumes: each is a pair of
      `Random.Next(rows)`, `Random.Next(cols)` values, and among them there
      are enough distinct cells for the loop to place `mineCount` mines. */
  predicate DrawsSuffice(draws: seq<Coord>, rows: int, cols: int, mineCount: int)
  {
    (forall k :: 0 <= k < |draws| ==> InBounds(rows, cols, draws[k]))
    && mineCount <= |DrawSet(draws)|
  }

  lemma DrawSetStep(draws: seq<Coord>, k: nat)
    requires k < |draws|
    ensures DrawSet(draws[..k + 1]) == DrawSet(draws[..k]) + {draws[k]}
  {
    assert draws[..k + 1] == draws[..k] + [draws[k]];
  }

}
