/** What the breadth-first reveal opens, stated without the queue: the
    start cell and every cell reachable from it by a fill path, a chain of
    adjacent closed, unflagged cells in which every cell but the last has
    no neighbouring mine. */
module Fill {
  import opened Grid
  import opened Layout

  /** The fill may step onto `c`: an in-grid cell that is closed and
      unflagged. */
  ghost predicate Eligible(f: Field, w: nat, h: nat, c: Cell)
    requires Shaped(f, w, h)
  {
    InGrid(w, h, c) && !At(f, c).isOpened && !At(f, c).flag
  }

  /** `p` is a fill path of `f` from `s`: it starts at `s`, steps between
      adjacent cells, visits only eligible cells, and every cell it leaves
      has a zero neighbour count. */
  ghost predicate IsFillPath(f: Field, w: nat, h: nat, s: Cell, p: seq<Cell>)
    requires Shaped(f, w, h)
  {
    && |p| > 0
    && p[0] == s
    && (forall i :: 0 <= i < |p| ==> Eligible(f, w, h, p[i]))
    && (forall i :: 0 <= i < |p| - 1 ==>
          Adjacent(p[i], p[i + 1]) && At(f, p[i]).minesQtyNearby == 0)
  }

  /** The fill started at `s` reaches `c`. */
  ghost predicate Reachable(f: Field, w: nat, h: nat, s: Cell, c: Cell)
    requires Shaped(f, w, h)
  {
    exists p :: IsFillPath(f, w, h, s, p) && p[|p| - 1] == c
  }

  /** `f` after the fill from `s`: the reachable cells are opened as well,
      and nothing else changes. */
  ghost function Filled(f: Field, w: nat, h: nat, s: Cell): (g: Field)
    requires Shaped(f, w, h)
    ensures Shaped(g, w, h)
    ensures forall c {:trigger At(g, c)} :: InGrid(w, h, c) ==>
              At(g, c) == At(f, c).(isOpened := At(f, c).isOpened || Reachable(f, w, h, s, c))
  {
    FilledRows(f, w, h, s, h)
  }

  /** The first `k` rows of `Filled(f, w, h, s)`. */
  ghost function FilledRows(f: Field, w: nat, h: nat, s: Cell, k: nat): (g: Field)
    requires Shaped(f, w, h) && k <= h
    ensures |g| == k && forall y :: 0 <= y < k ==> |g[y]| == w
    ensures forall c: Cell {:trigger At(g, c)} :: c.x < w && c.y < k ==>
              At(g, c) == At(f, c).(isOpened := At(f, c).isOpened || Reachable(f, w, h, s, c))
  {
    if k == 0 then []
    else
      var prev, row := FilledRows(f, w, h, s, k - 1), FilledRow(f, w, h, s, k - 1, w);
      var g := prev + [row];
      assert forall c: Cell {:trigger At(g, c)} :: c.x < w && c.y < k ==> At(g, c) == if c.y < k - 1 then At(prev, c) else row[c.x];
      g
  }

  /** The first `k` cells of row `y` of `Filled(f, w, h, s)`. */
  ghost function FilledRow(f: Field, w: nat, h: nat, s: Cell, y: nat, k: nat): (r: seq<CellInfo>)
    requires Shaped(f, w, h) && y < h && k <= w
    ensures |r| == k
    ensures forall x :: 0 <= x < k ==>
              r[x] == f[y][x].(isOpened := f[y][x].isOpened || Reachable(f, w, h, s, Cell(x, y)))
  {
    if k == 0 then []
    else
      var x := k - 1;
      FilledRow(f, w, h, s, y, x) + [f[y][x].(isOpened := f[y][x].isOpened || Reachable(f, w, h, s, Cell(x, y)))]
  }

  /** An eligible start cell is reached by the one-cell path. */
  lemma ReachStart(f: Field, w: nat, h: nat, s: Cell)
    requires Shaped(f, w, h) && Eligible(f, w, h, s)
    ensures Reachable(f, w, h, s, s)
  {
    assert IsFillPath(f, w, h, s, [s]);
  }

  /** The fill expands from a reached zero-count cell into every eligible
      neighbour. */
  lemma ReachExtend(f: Field, w: nat, h: nat, s: Cell, c: Cell, n: Cell)
    requires Shaped(f, w, h)
    requires Reachable(f, w, h, s, c) && InGrid(w, h, c) && At(f, c).minesQtyNearby == 0
    requires Adjacent(c, n) && Eligible(f, w, h, n)
    ensures Reachable(f, w, h, s, n)
  {
    var p :| IsFillPath(f, w, h, s, p) && p[|p| - 1] == c;
    assert IsFillPath(f, w, h, s, p + [n]);
  }

  /** The fill only reaches eligible cells: never a flagged cell, never a
      cell that was already open. */
  lemma ReachEligible(f: Field, w: nat, h: nat, s: Cell, c: Cell)
    requires Shaped(f, w, h) && Reachable(f, w, h, s, c)
    ensures Eligible(f, w, h, c)
  {
    var p :| IsFillPath(f, w, h, s, p) && p[|p| - 1] == c;
    assert Eligible(f, w, h, p[|p| - 1]);
  }

  /** Every reached cell other than the start was reached from a reached
      neighbour with a zero count: numbered cells are opened but never
      expanded. */
  lemma ReachThroughZero(f: Field, w: nat, h: nat, s: Cell, c: Cell)
    requires Shaped(f, w, h) && Reachable(f, w, h, s, c) && c != s
    ensures exists d :: Reachable(f, w, h, s, d) && InGrid(w, h, d) && Adjacent(d, c)
                        && At(f, d).minesQtyNearby == 0
  {
    var p :| IsFillPath(f, w, h, s, p) && p[|p| - 1] == c;
    var k := |p| - 2;
    var d := p[k];
    assert IsFillPath(f, w, h, s, p[..k + 1]);
    assert Eligible(f, w, h, d);
    assert Reachable(f, w, h, s, d) && Adjacent(d, c) && At(f, d).minesQtyNearby == 0;
  }

  /** A fill started on a numbered cell reaches that cell alone. */
  lemma ReachFromNumbered(f: Field, w: nat, h: nat, s: Cell, c: Cell)
    requires Shaped(f, w, h) && Eligible(f, w, h, s) && At(f, s).minesQtyNearby > 0
    ensures Reachable(f, w, h, s, c) <==> c == s
  {
    if Reachable(f, w, h, s, c) {
      var p :| IsFillPath(f, w, h, s, p) && p[|p| - 1] == c;
      assert |p| == 1;
    }
    if c == s {
      ReachStart(f, w, h, s);
    }
  }

  /** On a board whose zero-count cells have no neighbouring mine, a fill
      from a safe cell never reaches a mine. */
  lemma {:induction false} ReachNoMine(f: Field, w: nat, h: nat, s: Cell, c: Cell)
    requires Shaped(f, w, h) && SafeZeros(f, w, h)
    requires InGrid(w, h, s) && !At(f, s).isMine
    requires Reachable(f, w, h, s, c)
    ensures !At(f, c).isMine
  {
    var p :| IsFillPath(f, w, h, s, p) && p[|p| - 1] == c;
    PathNoMine(f, w, h, s, p, |p| - 1);
  }

  lemma {:induction false} PathNoMine(f: Field, w: nat, h: nat, s: Cell, p: seq<Cell>, i: nat)
    requires Shaped(f, w, h) && SafeZeros(f, w, h)
    requires InGrid(w, h, s) && !At(f, s).isMine
    requires IsFillPath(f, w, h, s, p) && i < |p|
    ensures !At(f, p[i]).isMine
  {
    if i > 0 {
      PathNoMine(f, w, h, s, p, i - 1);
      assert Eligible(f, w, h, p[i - 1]) && Eligible(f, w, h, p[i]);
      assert Adjacent(p[i - 1], p[i]) && At(f, p[i - 1]).minesQtyNearby == 0;
      assert p[i] in Neighbours(w, h, p[i - 1]);
    }
  }

  /** Every eligible neighbour of a zero-count cell that `g` opened beyond
      those already open in `f` is open in `g` or still `pending`. */
  ghost predicate ExpandedBy(f: Field, g: Field, w: nat, h: nat, pending: seq<Cell>)
    requires Shaped(f, w, h) && Shaped(g, w, h)
  {
    forall c, n {:trigger n in Neighbours(w, h, c)} ::
      && InGrid(w, h, c) && At(g, c).isOpened && !At(f, c).isOpened && At(f, c).minesQtyNearby == 0
      && n in Neighbours(w, h, c) && Eligible(f, w, h, n)
      ==> At(g, n).isOpened || n in pending
  }

  /** A board `g` that has the start open, and that has opened every
      eligible neighbour of each zero-count cell it opened beyond those
      already open in `f`, has every reachable cell open. */
  lemma ReachableOpened(f: Field, g: Field, w: nat, h: nat, s: Cell)
    requires Shaped(f, w, h) && Shaped(g, w, h) && InGrid(w, h, s) && At(g, s).isOpened
    requires ExpandedBy(f, g, w, h, [])
    ensures forall c :: InGrid(w, h, c) && Reachable(f, w, h, s, c) ==> At(g, c).isOpened
  {
    forall c | InGrid(w, h, c) && Reachable(f, w, h, s, c)
      ensures At(g, c).isOpened
    {
      var p :| IsFillPath(f, w, h, s, p) && p[|p| - 1] == c;
      PathOpened(f, g, w, h, s, p, |p| - 1);
    }
  }

  lemma {:induction false} PathOpened(f: Field, g: Field, w: nat, h: nat, s: Cell, p: seq<Cell>, i: nat)
    requires Shaped(f, w, h) && Shaped(g, w, h) && InGrid(w, h, s) && At(g, s).isOpened
    requires ExpandedBy(f, g, w, h, [])
    requires IsFillPath(f, w, h, s, p) && i < |p|
    ensures At(g, p[i]).isOpened
  {
    if i > 0 {
      PathOpened(f, g, w, h, s, p, i - 1);
      var c, n := p[i - 1], p[i];
      assert Eligible(f, w, h, c) && Eligible(f, w, h, n);
      assert Adjacent(c, n) && At(f, c).minesQtyNearby == 0;
      assert n in Neighbours(w, h, c);
    }
  }

  /** `f` is `f0` part-way through the fill from `s`: only opened bits
      differ, every cell `f0` opened is still open, and the cells opened
      beyond those are reachable. */
  ghost predicate FillProgress(f0: Field, f: Field, w: nat, h: nat, s: Cell)
    requires Shaped(f0, w, h)
  {
    && Shaped(f, w, h)
    && (forall c {:trigger At(f, c)} :: InGrid(w, h, c) ==> At(f, c) == At(f0, c).(isOpened := At(f, c).isOpened))
    && (forall c {:trigger At(f, c)} :: InGrid(w, h, c) && At(f0, c).isOpened ==> At(f, c).isOpened)
    && (forall c {:trigger At(f, c)} :: InGrid(w, h, c) && At(f, c).isOpened && !At(f0, c).isOpened ==>
          Reachable(f0, w, h, s, c))
  }

  /** The state of the queue-driven fill from `s` over the board it started
      on, `f0`: the fill has progressed to `f`, the queue holds reachable
      cells, the start is open or queued, and the neighbours of every
      zero-count cell the fill opened are open or queued. */
  ghost predicate QueueInvariant(f0: Field, f: Field, w: nat, h: nat, s: Cell, queue: seq<Cell>)
    requires Shaped(f0, w, h) && InGrid(w, h, s)
  {
    && FillProgress(f0, f, w, h, s)
    && (forall i :: 0 <= i < |queue| ==> InGrid(w, h, queue[i]) && Reachable(f0, w, h, s, queue[i]))
    && (At(f, s).isOpened || s in queue)
    && ExpandedBy(f0, f, w, h, queue)
  }

  /** The queue starts with the start cell alone. */
  lemma QueueStart(f0: Field, w: nat, h: nat, s: Cell)
    requires Shaped(f0, w, h) && Eligible(f0, w, h, s)
    ensures QueueInvariant(f0, f0, w, h, s, [s])
  {
    ReachStart(f0, w, h, s);
  }

  /** Dropping a queued cell that is already open. */
  lemma QueueSkip(f0: Field, f: Field, w: nat, h: nat, s: Cell, queue: seq<Cell>)
    requires Shaped(f0, w, h) && InGrid(w, h, s)
    requires QueueInvariant(f0, f, w, h, s, queue) && queue != [] && At(f, queue[0]).isOpened
    ensures QueueInvariant(f0, f, w, h, s, queue[1..])
  {
    var rest := queue[1..];
    assert forall n {:trigger n in queue} :: n in queue ==> n == queue[0] || n in rest;
  }

  /** Opening a closed reachable cell keeps the fill in progress. */
  lemma OpenReached(f0: Field, f: Field, g: Field, w: nat, h: nat, s: Cell, cur: Cell)
    requires Shaped(f0, w, h) && FillProgress(f0, f, w, h, s)
    requires InGrid(w, h, cur) && Reachable(f0, w, h, s, cur)
    requires g == Update(f, cur, At(f, cur).(isOpened := true))
    ensures FillProgress(f0, g, w, h, s)
  {
  }

  /** A neighbour of a reached zero-count cell that the fill has neither
      opened nor flagged is reachable too. */
  lemma ReachNeighbour(f0: Field, f: Field, w: nat, h: nat, s: Cell, cur: Cell, n: Cell)
    requires Shaped(f0, w, h) && FillProgress(f0, f, w, h, s)
    requires InGrid(w, h, cur) && Reachable(f0, w, h, s, cur) && At(f0, cur).minesQtyNearby == 0
    requires n in Neighbours(w, h, cur) && !At(f, n).isOpened && !At(f, n).flag
    ensures Reachable(f0, w, h, s, n)
  {
    ReachExtend(f0, w, h, s, cur, n);
  }

  /** Opening the closed head of the queue keeps the progress of the fill;
      the head is a reachable cell whose count is the one it started with. */
  lemma VisitHead(f0: Field, f: Field, g: Field, w: nat, h: nat, s: Cell, queue: seq<Cell>)
    requires Shaped(f0, w, h) && InGrid(w, h, s)
    requires QueueInvariant(f0, f, w, h, s, queue) && queue != [] && !At(f, queue[0]).isOpened
    requires g == Update(f, queue[0], At(f, queue[0]).(isOpened := true))
    ensures FillProgress(f0, g, w, h, s)
    ensures InGrid(w, h, queue[0]) && Reachable(f0, w, h, s, queue[0])
    ensures At(g, queue[0]).minesQtyNearby == At(f0, queue[0]).minesQtyNearby
  {
    OpenReached(f0, f, g, w, h, s, queue[0]);
  }

  /** Opening one closed cell: one more cell is open beyond those of `f0`,
      one fewer is closed. */
  lemma OpenCounted(f0: Field, f: Field, g: Field, w: nat, h: nat, cur: Cell)
    requires Shaped(f0, w, h) && Shaped(f, w, h) && InGrid(w, h, cur) && !At(f, cur).isOpened
    requires forall c {:trigger At(f, c)} :: InGrid(w, h, c) && At(f0, c).isOpened ==> At(f, c).isOpened
    requires g == Update(f, cur, At(f, cur).(isOpened := true))
    ensures |OpenedSet(g, w, h) - OpenedSet(f0, w, h)| == |OpenedSet(f, w, h) - OpenedSet(f0, w, h)| + 1
    ensures |ClosedSet(g, w, h)| < |ClosedSet(f, w, h)|
  {
    OpenOne(f, g, w, h, cur);
    var o0, o1, o2 := OpenedSet(f0, w, h), OpenedSet(f, w, h), OpenedSet(g, w, h);
    assert cur !in o0;
    assert o2 - o0 == (o1 - o0) + {cur};
  }

  /** Visiting a cell with a positive count: it is opened and dropped from
      the queue without expanding. */
  lemma VisitNumbered(f0: Field, f: Field, g: Field, w: nat, h: nat, s: Cell, queue: seq<Cell>)
    requires Shaped(f0, w, h) && InGrid(w, h, s)
    requires QueueInvariant(f0, f, w, h, s, queue) && queue != [] && !At(f, queue[0]).isOpened
    requires g == Update(f, queue[0], At(f, queue[0]).(isOpened := true))
    requires At(g, queue[0]).minesQtyNearby > 0
    ensures QueueInvariant(f0, g, w, h, s, queue[1..])
  {
    var cur, rest := queue[0], queue[1..];
    OpenReached(f0, f, g, w, h, s, cur);
    assert forall n {:trigger n in queue} :: n in queue ==> n == cur || n in rest;
    assert ExpandedBy(f0, g, w, h, rest) by {
      forall c, n {:trigger n in Neighbours(w, h, c)}
        | && InGrid(w, h, c) && At(g, c).isOpened && !At(f0, c).isOpened && At(f0, c).minesQtyNearby == 0
          && n in Neighbours(w, h, c) && Eligible(f0, w, h, n)
        ensures At(g, n).isOpened || n in rest
      {
        assert c != cur;
        assert At(f, c).isOpened;
      }
    }
  }

  /** Visiting a cell with a zero count: it is opened and the queue `grown`
      has gained every neighbour that is neither open nor flagged. */
  lemma VisitZero(f0: Field, f: Field, g: Field, w: nat, h: nat, s: Cell, queue: seq<Cell>, grown: seq<Cell>)
    requires Shaped(f0, w, h) && InGrid(w, h, s)
    requires QueueInvariant(f0, f, w, h, s, queue) && queue != [] && !At(f, queue[0]).isOpened
    requires g == Update(f, queue[0], At(f, queue[0]).(isOpened := true))
    requires At(g, queue[0]).minesQtyNearby == 0
    requires |grown| >= |queue| && grown[..|queue|] == queue
    requires forall i :: |queue| <= i < |grown| ==> InGrid(w, h, grown[i]) && Reachable(f0, w, h, s, grown[i])
    requires forall n {:trigger n in Neighbours(w, h, queue[0])} :: n in Neighbours(w, h, queue[0]) ==>
               At(g, n).isOpened || At(g, n).flag || n in grown
    ensures QueueInvariant(f0, g, w, h, s, grown[1..])
  {
    var cur, rest := queue[0], grown[1..];
    OpenReached(f0, f, g, w, h, s, cur);
    assert forall i :: 0 <= i < |rest| ==> InGrid(w, h, rest[i]) && Reachable(f0, w, h, s, rest[i]) by {
      forall i | 0 <= i < |rest|
        ensures InGrid(w, h, rest[i]) && Reachable(f0, w, h, s, rest[i])
      {
        if i + 1 < |queue| {
          assert rest[i] == queue[i + 1];
        }
      }
    }
    assert forall n {:trigger n in grown} :: n in grown ==> n == cur || n in rest;
    assert At(g, s).isOpened || s in rest by {
      if !At(g, s).isOpened {
        assert s in queue;
        assert s in grown;
      }
    }
    assert ExpandedBy(f0, g, w, h, rest) by {
      forall c, n {:trigger n in Neighbours(w, h, c)}
        | && InGrid(w, h, c) && At(g, c).isOpened && !At(f0, c).isOpened && At(f0, c).minesQtyNearby == 0
          && n in Neighbours(w, h, c) && Eligible(f0, w, h, n)
        ensures At(g, n).isOpened || n in rest
      {
        if c != cur {
          assert At(f, c).isOpened;
          if n in queue {
            assert n in grown;
          }
        }
      }
    }
  }

  /** An empty queue means the fill is complete: the board is `f0` with
      exactly the reachable cells opened as well. */
  lemma QueueDone(f0: Field, f: Field, w: nat, h: nat, s: Cell)
    requires Shaped(f0, w, h) && InGrid(w, h, s)
    requires QueueInvariant(f0, f, w, h, s, [])
    ensures f == Filled(f0, w, h, s)
  {
    ReachableOpened(f0, f, w, h, s);
    FieldsEqual(f, Filled(f0, w, h, s), w, h);
  }

  /** What the reveal from an eligible start does to the board: the start
      is opened, open cells stay open, a closed flagged cell stays closed,
      a numbered start is opened alone, and on a board whose zero-count
      cells have no neighbouring mine a safe start opens no mine. */
  lemma FilledBehaviour(f: Field, w: nat, h: nat, s: Cell)
    requires Shaped(f, w, h) && Eligible(f, w, h, s)
    ensures At(Filled(f, w, h, s), s).isOpened
    ensures forall c {:trigger At(Filled(f, w, h, s), c)} :: InGrid(w, h, c) && At(f, c).isOpened ==>
              At(Filled(f, w, h, s), c).isOpened
    ensures forall c {:trigger At(Filled(f, w, h, s), c)} :: InGrid(w, h, c) && !At(f, c).isOpened && At(f, c).flag ==>
              !At(Filled(f, w, h, s), c).isOpened
    ensures At(f, s).minesQtyNearby > 0 ==>
              forall c {:trigger At(Filled(f, w, h, s), c)} :: InGrid(w, h, c) && c != s ==>
                At(Filled(f, w, h, s), c) == At(f, c)
    ensures SafeZeros(f, w, h) && !At(f, s).isMine ==>
              forall c {:trigger At(Filled(f, w, h, s), c)} :: InGrid(w, h, c) && At(f, c).isMine ==>
                At(Filled(f, w, h, s), c).isOpened == At(f, c).isOpened
  {
    var g := Filled(f, w, h, s);
    ReachStart(f, w, h, s);
    forall c | InGrid(w, h, c) && !At(f, c).isOpened && At(f, c).flag
      ensures !At(g, c).isOpened
    {
      if Reachable(f, w, h, s, c) {
        ReachEligible(f, w, h, s, c);
      }
    }
    if At(f, s).minesQtyNearby > 0 {
      forall c | InGrid(w, h, c) && c != s
        ensures At(g, c) == At(f, c)
      {
        ReachFromNumbered(f, w, h, s, c);
      }
    }
    if SafeZeros(f, w, h) && !At(f, s).isMine {
      forall c | InGrid(w, h, c) && At(f, c).isMine
        ensures At(g, c).isOpened == At(f, c).isOpened
      {
        if Reachable(f, w, h, s, c) {
          ReachNoMine(f, w, h, s, c);
        }
      }
    }
  }
}
