/** Board geometry and the per-cell records of the Minesweeper engine:
    coordinates, cell state, the game status, the 8-neighbourhood of a cell
    and the sets of cells a board holds. */
module Grid {

  /** A board coordinate: `x` is the column, `y` the row, both counted from 0.
      A default-built coordinate is `DefaultCell`, (0, 0). */
  datatype Cell = Cell(x: nat, y: nat)

  /** The state of one board cell. Like the engine's record it carries its own
      coordinate next to the flag, mine, opened and neighbour-count fields. */
  datatype CellInfo = CellInfo(
    x: nat,
    y: nat,
    flag: bool,
    isMine: bool,
    isOpened: bool,
    minesQtyNearby: nat)

  const DefaultCell: Cell := Cell(0, 0)

  /** A freshly built cell record: at (0, 0), unflagged, no mine, closed,
      no mines nearby. */
  const DefaultCellInfo: CellInfo := CellInfo(0, 0, false, false, false, 0)

  /** The four states of a game. */
  datatype GameStatus = NotStarted | InProgress | Victory | Defeat

  /** The board: one sequence of cells per row, top to bottom. */
  type Field = seq<seq<CellInfo>>

  /** The text dump of a board: one string per row. */
  type RenderedField = seq<string>

  predicate InGrid(w: nat, h: nat, c: Cell) {
    c.x < w && c.y < h
  }

  /** `f` has `h` rows of `w` cells each. */
  predicate Shaped(f: Field, w: nat, h: nat) {
    |f| == h && forall y :: 0 <= y < h ==> |f[y]| == w
  }

  function At(f: Field, c: Cell): CellInfo
    requires c.y < |f| && c.x < |f[c.y]|
  {
    f[c.y][c.x]
  }

  /** `f` with the cell at `c` replaced by `info`. */
  function Update(f: Field, c: Cell, info: CellInfo): (g: Field)
    requires c.y < |f| && c.x < |f[c.y]|
    ensures |g| == |f| && forall y :: 0 <= y < |f| ==> |g[y]| == |f[y]|
    ensures forall d: Cell {:trigger At(g, d)} :: d.y < |f| && d.x < |f[d.y]| ==>
              At(g, d) == if d == c then info else At(f, d)
  {
    f[c.y := f[c.y][c.x := info]]
  }

  /** Two boards of the same shape that agree on every cell are equal. */
  lemma {:induction false} FieldsEqual(f: Field, g: Field, w: nat, h: nat)
    requires Shaped(f, w, h) && Shaped(g, w, h)
    requires forall c :: InGrid(w, h, c) ==> At(f, c) == At(g, c)
    ensures f == g
  {
    forall y | 0 <= y < h
      ensures f[y] == g[y]
    {
      forall x | 0 <= x < w
        ensures f[y][x] == g[y][x]
      {
        assert At(f, Cell(x, y)) == At(g, Cell(x, y));
      }
    }
  }

  /** Every cell of `f` stores its own coordinate. */
  ghost predicate Numbered(f: Field, w: nat, h: nat)
    requires Shaped(f, w, h)
  {
    forall c {:trigger At(f, c)} :: InGrid(w, h, c) ==> At(f, c).x == c.x && At(f, c).y == c.y
  }

  function Dist(a: nat, b: nat): nat {
    if a < b then b - a else a - b
  }

  /** `a` and `b` are at Chebyshev distance exactly 1: distinct cells that
      differ by at most one in each coordinate. */
  predicate Adjacent(a: Cell, b: Cell) {
    a != b && Dist(a.x, b.x) <= 1 && Dist(a.y, b.y) <= 1
  }

  predicate Distinct<T(==)>(s: seq<T>) {
    forall i, j :: 0 <= i < j < |s| ==> s[i] != s[j]
  }

  /** The column and row offsets of the eight neighbours, in the order the
      engine lists them: clockwise from the upper-left corner, ending with
      the left neighbour. */
  const OffsetX: seq<int> := [-1, 0, 1, 1, 1, 0, -1, -1]
  const OffsetY: seq<int> := [-1, -1, -1, 0, 1, 1, 1, 0]

  /** The position of neighbour `n` of `c` in the offset lists. */
  function OffsetIndex(n: Cell, c: Cell): (k: nat)
    requires Adjacent(n, c)
    ensures k < 8 && n.x == c.x + OffsetX[k] && n.y == c.y + OffsetY[k]
  {
    var dx, dy := n.x - c.x, n.y - c.y;
    if dy == -1 then (if dx == -1 then 0 else if dx == 0 then 1 else 2)
    else if dy == 0 then (if dx == 1 then 3 else 7)
    else (if dx == 1 then 4 else if dx == 0 then 5 else 6)
  }

  /** The in-grid neighbours of `c` at the first `k` offsets, in order. */
  function NeighboursUpTo(w: nat, h: nat, c: Cell, k: nat): (r: seq<Cell>)
    requires InGrid(w, h, c) && k <= 8
    ensures forall n {:trigger n in r} :: n in r <==> InGrid(w, h, n) && Adjacent(n, c) && OffsetIndex(n, c) < k
    ensures Distinct(r) && |r| <= k
  {
    if k == 0 then []
    else
      var r := NeighboursUpTo(w, h, c, k - 1);
      var x, y := c.x + OffsetX[k - 1], c.y + OffsetY[k - 1];
      if 0 <= x < w && 0 <= y < h then
        OffsetAt(c, k - 1);
        var m := Cell(x, y);
        assert m !in r;
        r + [m]
      else
        r
  }

  /** The cell at offset `i` from `c` is a neighbour of `c` at position `i`. */
  lemma OffsetAt(c: Cell, i: nat)
    requires i < 8 && 0 <= c.x + OffsetX[i] && 0 <= c.y + OffsetY[i]
    ensures var m := Cell(c.x + OffsetX[i], c.y + OffsetY[i]);
            Adjacent(m, c) && OffsetIndex(m, c) == i
  {
  }

  /** The in-grid neighbours of `c`, in the order the engine lists them. */
  function Neighbours(w: nat, h: nat, c: Cell): (r: seq<Cell>)
    requires InGrid(w, h, c)
    ensures forall n {:trigger n in r} :: n in r <==> InGrid(w, h, n) && Adjacent(n, c)
    ensures Distinct(r)
    ensures |r| <= 8
  {
    NeighboursUpTo(w, h, c, 8)
  }

  /** The neighbour list has one entry per neighbouring cell. */
  lemma NeighbourCount(w: nat, h: nat, c: Cell, cells: set<Cell>)
    requires InGrid(w, h, c)
    requires forall n :: n in cells <==> InGrid(w, h, n) && Adjacent(n, c)
    ensures |Neighbours(w, h, c)| == |cells|
  {
    var r := Neighbours(w, h, c);
    DistinctCard(r);
    assert (set n | n in r) == cells;
  }

  /** Each corner of a board at least 2 by 2 has exactly three neighbours. */
  lemma CornerNeighbours(w: nat, h: nat)
    requires w >= 2 && h >= 2
    ensures |Neighbours(w, h, Cell(0, 0))| == 3
    ensures |Neighbours(w, h, Cell(w - 1, 0))| == 3
    ensures |Neighbours(w, h, Cell(0, h - 1))| == 3
    ensures |Neighbours(w, h, Cell(w - 1, h - 1))| == 3
  {
    var x, y := w - 1, h - 1;
    assert |Neighbours(w, h, Cell(0, 0))| == 3 by {
      NeighbourCount(w, h, Cell(0, 0), {Cell(1, 0), Cell(1, 1), Cell(0, 1)});
    }
    assert |Neighbours(w, h, Cell(x, 0))| == 3 by {
      NeighbourCount(w, h, Cell(x, 0), {Cell(x - 1, 0), Cell(x - 1, 1), Cell(x, 1)});
    }
    assert |Neighbours(w, h, Cell(0, y))| == 3 by {
      NeighbourCount(w, h, Cell(0, y), {Cell(0, y - 1), Cell(1, y - 1), Cell(1, y)});
    }
    assert |Neighbours(w, h, Cell(x, y))| == 3 by {
      NeighbourCount(w, h, Cell(x, y), {Cell(x - 1, y - 1), Cell(x, y - 1), Cell(x - 1, y)});
    }
  }

  /** An interior cell has all eight neighbours. */
  lemma InteriorNeighbours(w: nat, h: nat, c: Cell)
    requires 0 < c.x < w - 1 && 0 < c.y < h - 1
    ensures |Neighbours(w, h, c)| == 8
  {
    var x, y := c.x, c.y;
    NeighbourCount(w, h, c, {Cell(x - 1, y - 1), Cell(x, y - 1), Cell(x + 1, y - 1), Cell(x + 1, y),
                             Cell(x + 1, y + 1), Cell(x, y + 1), Cell(x - 1, y + 1), Cell(x - 1, y)});
  }

  /** Adjacency is symmetric, so `n` neighbours `c` exactly when `c`
      neighbours `n`. */
  lemma NeighboursSymmetric(w: nat, h: nat, c: Cell, n: Cell)
    requires InGrid(w, h, c) && InGrid(w, h, n)
    ensures n in Neighbours(w, h, c) <==> c in Neighbours(w, h, n)
  {
  }

  /** The cells (x, y) with x < w of row y. */
  function Row(w: nat, y: nat): (r: set<Cell>)
    ensures forall c {:trigger c in r} :: c in r <==> c.y == y && c.x < w
    ensures |r| == w
  {
    if w == 0 then {} else Row(w - 1, y) + {Cell(w - 1, y)}
  }

  /** Every cell of a `w` by `h` board. */
  function AllCells(w: nat, h: nat): (r: set<Cell>)
    ensures forall c {:trigger c in r} :: c in r <==> InGrid(w, h, c)
  {
    var r := set x: nat, y: nat | x < w && y < h :: Cell(x, y);
    assert forall c {:trigger c in r} :: InGrid(w, h, c) ==> c in r by {
      forall c | InGrid(w, h, c)
        ensures c in r
      {
        assert c == Cell(c.x, c.y);
      }
    }
    r
  }

  /** The first `h` rows of a board `w` cells wide, row by row. */
  function Rows(w: nat, h: nat): (r: set<Cell>)
    ensures forall c {:trigger c in r} :: c in r <==> InGrid(w, h, c)
    ensures |r| == w * h
  {
    if h == 0 then {}
    else
      var above, last := Rows(w, h - 1), Row(w, h - 1);
      assert above !! last;
      assert |above + last| == w * (h - 1) + w;
      above + last
  }

  /** A `w` by `h` board has `w * h` cells. */
  lemma AllCellsCard(w: nat, h: nat)
    ensures |AllCells(w, h)| == w * h
  {
    assert AllCells(w, h) == Rows(w, h);
  }

  /** The opened cells of `f`. */
  function OpenedSet(f: Field, w: nat, h: nat): (r: set<Cell>)
    requires Shaped(f, w, h)
  {
    set c | c in AllCells(w, h) && At(f, c).isOpened
  }

  /** The cells of `f` that are still closed. */
  function ClosedSet(f: Field, w: nat, h: nat): (r: set<Cell>)
    requires Shaped(f, w, h)
  {
    set c | c in AllCells(w, h) && !At(f, c).isOpened
  }

  /** The cells of `f` that hold a mine. */
  function MineSet(f: Field, w: nat, h: nat): (r: set<Cell>)
    requires Shaped(f, w, h)
  {
    set c | c in AllCells(w, h) && At(f, c).isMine
  }

  /** The cells of `f` that hold no mine. */
  function SafeSet(f: Field, w: nat, h: nat): (r: set<Cell>)
    requires Shaped(f, w, h)
  {
    set c | c in AllCells(w, h) && !At(f, c).isMine
  }

  /** The safe and the mined cells split the board. */
  lemma SafeAndMinesPartition(f: Field, w: nat, h: nat)
    requires Shaped(f, w, h)
    ensures |SafeSet(f, w, h)| + |MineSet(f, w, h)| == w * h
  {
    assert SafeSet(f, w, h) !! MineSet(f, w, h);
    assert SafeSet(f, w, h) + MineSet(f, w, h) == AllCells(w, h);
    AllCellsCard(w, h);
  }

  /** `g` differs from `f` at most in the opened and flag bits. */
  ghost predicate SameLayout(f: Field, g: Field, w: nat, h: nat)
    requires Shaped(f, w, h) && Shaped(g, w, h)
  {
    forall c :: InGrid(w, h, c) ==>
      && At(g, c).x == At(f, c).x && At(g, c).y == At(f, c).y
      && At(g, c).isMine == At(f, c).isMine
      && At(g, c).minesQtyNearby == At(f, c).minesQtyNearby
  }

  /** Opening one closed cell adds it to the opened cells and removes it
      from the closed ones. */
  lemma OpenOne(f: Field, g: Field, w: nat, h: nat, c: Cell)
    requires Shaped(f, w, h) && InGrid(w, h, c) && !At(f, c).isOpened
    requires g == Update(f, c, At(f, c).(isOpened := true))
    ensures Shaped(g, w, h)
    ensures OpenedSet(g, w, h) == OpenedSet(f, w, h) + {c} && c !in OpenedSet(f, w, h)
    ensures ClosedSet(g, w, h) == ClosedSet(f, w, h) - {c} && c in ClosedSet(f, w, h)
  {
    forall d | d in AllCells(w, h)
      ensures At(g, d).isOpened == (At(f, d).isOpened || d == c)
    {
    }
    assert OpenedSet(g, w, h) == OpenedSet(f, w, h) + {c};
    assert ClosedSet(g, w, h) == ClosedSet(f, w, h) - {c};
  }

  /** A subset as large as its superset is the whole superset. */
  lemma SubsetSameCard<T>(a: set<T>, b: set<T>)
    requires a <= b && |a| == |b|
    ensures a == b
  {
    assert b == a + (b - a);
    assert |b - a| == 0;
  }

  /** The number of mines among the neighbours of `c`. */
  function MinesAround(f: Field, w: nat, h: nat, c: Cell): (r: nat)
    requires Shaped(f, w, h) && InGrid(w, h, c)
  {
    |set n | n in Neighbours(w, h, c) && At(f, n).isMine|
  }

  /** A sequence without repetitions has as many elements as its set. */
  lemma {:induction false} DistinctCard<T>(s: seq<T>)
    requires Distinct(s)
    ensures |set x | x in s| == |s|
  {
    if s != [] {
      var init, last := s[..|s| - 1], s[|s| - 1];
      DistinctCard(init);
      assert s == init + [last];
      assert (set x | x in s) == (set x | x in init) + {last};
      assert last !in (set x | x in init);
    }
  }
}
