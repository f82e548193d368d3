/** What a board looks like once its mines are laid: which cells hold a
    mine, the neighbour counts the setup produces, and how the random
    placement turns cell indices into coordinates. */
module Layout {
  import opened Grid

  /** How many entries of `mines` are adjacent to `p`, counting an entry
      that appears twice twice: the count the setup accumulates, one
      increment per listed mine. */
  function CountAdjacent(p: Cell, mines: seq<Cell>): nat {
    if mines == [] then 0
    else
      CountAdjacent(p, mines[..|mines| - 1])
      + (if Adjacent(mines[|mines| - 1], p) then 1 else 0)
  }

  /** The record at `c` once the mines of `mines` are laid on a fresh board. */
  function LaidCell(c: Cell, mines: seq<Cell>): CellInfo {
    CellInfo(c.x, c.y, false, c in mines, false, CountAdjacent(c, mines))
  }

  /** `f` is a fresh `w` by `h` board on which the mines of `mines` are laid. */
  ghost predicate Laid(f: Field, w: nat, h: nat, mines: seq<Cell>) {
    Shaped(f, w, h) && forall c {:trigger At(f, c)} :: InGrid(w, h, c) ==> At(f, c) == LaidCell(c, mines)
  }

  predicate AllInGrid(w: nat, h: nat, cells: seq<Cell>) {
    forall i :: 0 <= i < |cells| ==> InGrid(w, h, cells[i])
  }

  /** A cell whose count is zero has no mine among its neighbours: the
      invariant that keeps the flood fill away from mines. */
  ghost predicate SafeZeros(f: Field, w: nat, h: nat)
    requires Shaped(f, w, h)
  {
    forall c, n {:trigger n in Neighbours(w, h, c)} ::
      InGrid(w, h, c) && At(f, c).minesQtyNearby == 0 && n in Neighbours(w, h, c) ==> !At(f, n).isMine
  }

  /** Every cell's count is the number of mines among its neighbours. */
  ghost predicate CountsExact(f: Field, w: nat, h: nat)
    requires Shaped(f, w, h)
  {
    forall c {:trigger MinesAround(f, w, h, c)} :: InGrid(w, h, c) ==> At(f, c).minesQtyNearby == MinesAround(f, w, h, c)
  }

  /** Changing only opened and flag bits keeps the coordinates, the mines
      and the counts, and every property defined by them. */
  lemma SameLayoutKeeps(f: Field, g: Field, w: nat, h: nat)
    requires Shaped(f, w, h) && Shaped(g, w, h) && SameLayout(f, g, w, h)
    ensures Numbered(f, w, h) ==> Numbered(g, w, h)
    ensures SafeZeros(f, w, h) ==> SafeZeros(g, w, h)
    ensures CountsExact(f, w, h) ==> CountsExact(g, w, h)
    ensures MineSet(g, w, h) == MineSet(f, w, h)
    ensures SafeSet(g, w, h) == SafeSet(f, w, h)
  {
    if SafeZeros(f, w, h) {
      SameLayoutSafeZeros(f, g, w, h);
    }
    if CountsExact(f, w, h) {
      SameLayoutCounts(f, g, w, h);
    }
    assert MineSet(g, w, h) == MineSet(f, w, h);
    assert SafeSet(g, w, h) == SafeSet(f, w, h);
  }

  lemma SameLayoutSafeZeros(f: Field, g: Field, w: nat, h: nat)
    requires Shaped(f, w, h) && Shaped(g, w, h) && SameLayout(f, g, w, h)
    requires SafeZeros(f, w, h)
    ensures SafeZeros(g, w, h)
  {
    forall c, n | InGrid(w, h, c) && At(g, c).minesQtyNearby == 0 && n in Neighbours(w, h, c)
      ensures !At(g, n).isMine
    {
      assert At(f, c).minesQtyNearby == 0;
    }
  }

  lemma SameLayoutCounts(f: Field, g: Field, w: nat, h: nat)
    requires Shaped(f, w, h) && Shaped(g, w, h) && SameLayout(f, g, w, h)
    requires CountsExact(f, w, h)
    ensures CountsExact(g, w, h)
  {
    forall c | InGrid(w, h, c)
      ensures At(g, c).minesQtyNearby == MinesAround(g, w, h, c)
    {
      SameLayoutMinesAround(f, g, w, h, c);
    }
  }

  lemma SameLayoutMinesAround(f: Field, g: Field, w: nat, h: nat, c: Cell)
    requires Shaped(f, w, h) && Shaped(g, w, h) && SameLayout(f, g, w, h) && InGrid(w, h, c)
    ensures MinesAround(g, w, h, c) == MinesAround(f, w, h, c)
  {
    var ns := Neighbours(w, h, c);
    assert (set n | n in ns && At(g, n).isMine) == (set n | n in ns && At(f, n).isMine);
  }

  /** A listed mine next to `p` makes the count of `p` positive. */
  lemma {:induction false} CountAdjacentPositive(p: Cell, mines: seq<Cell>, m: Cell)
    requires m in mines && Adjacent(m, p)
    ensures CountAdjacent(p, mines) > 0
  {
    var init := mines[..|mines| - 1];
    if m != mines[|mines| - 1] {
      assert mines == init + [mines[|mines| - 1]];
      CountAdjacentPositive(p, init, m);
    }
  }

  /** Laying mines, even a list with repeats, leaves every zero-count cell
      without a neighbouring mine. */
  lemma LaidSafeZeros(f: Field, w: nat, h: nat, mines: seq<Cell>)
    requires Laid(f, w, h, mines)
    ensures SafeZeros(f, w, h)
  {
    forall c, n | InGrid(w, h, c) && At(f, c).minesQtyNearby == 0 && n in Neighbours(w, h, c)
      ensures !At(f, n).isMine
    {
      if n in mines {
        CountAdjacentPositive(c, mines, n);
      }
    }
  }

  /** For a list without repeats, the accumulated count of `p` is the
      number of listed cells in `ns`, when `ns` holds exactly the cells
      adjacent to `p` that can be listed. */
  lemma {:induction false} CountAdjacentAmong(p: Cell, ns: seq<Cell>, mines: seq<Cell>)
    requires Distinct(mines)
    requires forall m :: m in mines ==> (m in ns <==> Adjacent(m, p))
    ensures CountAdjacent(p, mines) == |set n | n in ns && n in mines|
  {
    if mines == [] {
      assert (set n | n in ns && n in mines) == {};
    } else {
      var init, last := mines[..|mines| - 1], mines[|mines| - 1];
      assert mines == init + [last];
      CountAdjacentAmong(p, ns, init);
      var before := set n | n in ns && n in init;
      var after := set n | n in ns && n in mines;
      assert last !in before;
      if last in ns {
        assert after == before + {last};
      } else {
        assert after == before;
      }
    }
  }

  /** Laying a list of distinct in-grid mines gives every cell the exact
      number of neighbouring mines. */
  lemma LaidCountsExact(f: Field, w: nat, h: nat, mines: seq<Cell>)
    requires Laid(f, w, h, mines) && Distinct(mines) && AllInGrid(w, h, mines)
    ensures CountsExact(f, w, h)
  {
    forall c | InGrid(w, h, c)
      ensures At(f, c).minesQtyNearby == MinesAround(f, w, h, c)
    {
      var ns := Neighbours(w, h, c);
      CountAdjacentAmong(c, ns, mines);
      assert (set n | n in ns && n in mines) == (set n | n in ns && At(f, n).isMine);
    }
  }

  lemma SubsetCard<T>(a: set<T>, b: set<T>)
    requires a <= b
    ensures |a| <= |b|
  {
    assert b == a + (b - a);
  }

  /** With exact counts, no cell has more than eight neighbouring mines. */
  lemma CountsAtMostEight(f: Field, w: nat, h: nat, c: Cell)
    requires Shaped(f, w, h) && CountsExact(f, w, h) && InGrid(w, h, c)
    ensures At(f, c).minesQtyNearby <= 8
  {
    var ns := Neighbours(w, h, c);
    assert At(f, c).minesQtyNearby == MinesAround(f, w, h, c);
    SubsetCard(set n | n in ns && At(f, n).isMine, set n | n in ns);
    DistinctCard(ns);
  }

  /** Laying a list of distinct in-grid mines puts a mine on exactly the
      listed cells, so the board has `w * h - |mines|` safe cells. */
  lemma LaidMines(f: Field, w: nat, h: nat, mines: seq<Cell>)
    requires Laid(f, w, h, mines) && Distinct(mines) && AllInGrid(w, h, mines)
    ensures MineSet(f, w, h) == set m | m in mines
    ensures |MineSet(f, w, h)| == |mines|
    ensures |SafeSet(f, w, h)| == w * h - |mines|
  {
    assert MineSet(f, w, h) == set m | m in mines;
    DistinctCard(mines);
    SafeAndMinesPartition(f, w, h);
  }

  /** The coordinate of cell index `id` on a board `w` cells wide: indices
      run along the rows. */
  function CellOfId(w: nat, id: nat): Cell
    requires w > 0
  {
    Cell(id % w, id / w)
  }

  /** Index `id` of a `w` by `h` board names a cell of that board. */
  lemma CellOfIdInGrid(w: nat, h: nat, id: nat)
    requires id < w * h
    ensures w > 0 && InGrid(w, h, CellOfId(w, id))
  {
    if id / w >= h {
      MulMonotone(w, id / w, h);
    }
  }

  lemma MulMonotone(a: nat, b: nat, c: nat)
    requires b >= c
    ensures a * b >= a * c
  {
  }

  /** Distinct indices name distinct cells. */
  lemma CellOfIdInjective(w: nat, a: nat, b: nat)
    requires w > 0 && a != b
    ensures CellOfId(w, a) != CellOfId(w, b)
  {
  }

  /** `ids` holds each index of an `n`-cell board exactly once. */
  predicate IsPermutation(ids: seq<nat>, n: nat) {
    |ids| == n && Distinct(ids) && forall i :: 0 <= i < |ids| ==> ids[i] < n
  }

  /** The mine coordinates the random setup derives from the indices `ids`. */
  function MinesFromIds(w: nat, ids: seq<nat>): (r: seq<Cell>)
    requires w > 0 || ids == []
    ensures |r| == |ids|
  {
    if ids == [] then []
    else MinesFromIds(w, ids[..|ids| - 1]) + [CellOfId(w, ids[|ids| - 1])]
  }

  lemma {:induction false} MinesFromIdsAt(w: nat, ids: seq<nat>, i: nat)
    requires w > 0 && i < |ids|
    ensures MinesFromIds(w, ids)[i] == CellOfId(w, ids[i])
  {
    if i < |ids| - 1 {
      MinesFromIdsAt(w, ids[..|ids| - 1], i);
    }
  }

  /** Taking the first `count` entries of a permutation of the board's
      indices yields `count` distinct in-grid mines. */
  lemma RandomMinesDistinct(w: nat, h: nat, ids: seq<nat>, count: nat)
    requires IsPermutation(ids, w * h) && count <= w * h
    ensures w > 0 || count == 0
    ensures var mines := MinesFromIds(w, ids[..count]);
      |mines| == count && Distinct(mines) && AllInGrid(w, h, mines)
  {
    if count > 0 {
      var prefix := ids[..count];
      var mines := MinesFromIds(w, prefix);
      assert w > 0;
      forall i | 0 <= i < count
        ensures InGrid(w, h, mines[i])
      {
        MinesFromIdsAt(w, prefix, i);
        CellOfIdInGrid(w, h, prefix[i]);
      }
      forall i, j | 0 <= i < j < count
        ensures mines[i] != mines[j]
      {
        MinesFromIdsAt(w, prefix, i);
        MinesFromIdsAt(w, prefix, j);
        CellOfIdInjective(w, prefix[i], prefix[j]);
      }
    }
  }
}
