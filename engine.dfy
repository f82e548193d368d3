/** The Minesweeper board engine: a board of cell records, the game status,
    the opened-cell counter, the safe-cell target and the start and end
    times, updated in place by the setup, by opening and by flagging cells.

    The wall clock is a parameter `now` of the operations that read it; the
    random shuffle of the cell indices is a parameter `ids` of the random
    setup. */
module Engine {
  import opened Grid
  import opened Layout
  import opened Fill
  import Render

  /** The board `ResetField` builds: `h` rows of `w` default records, every
      one of which keeps the default coordinate (0, 0). */
  function ResetGrid(w: nat, h: nat): (f: Field)
    ensures Shaped(f, w, h)
    ensures forall c :: InGrid(w, h, c) ==> At(f, c) == DefaultCellInfo
  {
    seq(h, _ => seq(w, _ => DefaultCellInfo))
  }

  /** A board rebuilt by `ResetField` is not numbered: the record at the
      centre of a 3 by 3 corner reports coordinate (0, 0), so the neighbour
      list the engine derives from it has the 3 entries of a corner instead
      of the 8 of the true centre. */
  lemma ResetGridForgetsCoordinates(w: nat, h: nat)
    requires w >= 3 && h >= 3
    ensures !Numbered(ResetGrid(w, h), w, h)
    ensures var info := At(ResetGrid(w, h), Cell(1, 1));
            |Neighbours(w, h, Cell(info.x, info.y))| == 3 && |Neighbours(w, h, Cell(1, 1))| == 8
  {
    var f := ResetGrid(w, h);
    assert At(f, Cell(1, 1)).x != 1;
    CornerNeighbours(w, h);
    InteriorNeighbours(w, h, Cell(1, 1));
  }

  /** `f` with every cell opened. */
  function AllOpened(f: Field, w: nat, h: nat): (g: Field)
    requires Shaped(f, w, h)
    ensures Shaped(g, w, h)
  {
    seq(h, y requires 0 <= y < h => seq(w, x requires 0 <= x < w => f[y][x].(isOpened := true)))
  }

  /** Opening every cell changes nothing but the opened bits, and leaves no
      cell closed. */
  lemma AllOpenedLayout(f: Field, w: nat, h: nat)
    requires Shaped(f, w, h)
    ensures forall c {:trigger At(AllOpened(f, w, h), c)} :: InGrid(w, h, c) ==>
              At(AllOpened(f, w, h), c) == At(f, c).(isOpened := true)
    ensures SameLayout(f, AllOpened(f, w, h), w, h)
    ensures OpenedSet(AllOpened(f, w, h), w, h) == AllCells(w, h)
  {
    var g := AllOpened(f, w, h);
    assert forall c {:trigger At(g, c)} :: InGrid(w, h, c) ==> At(g, c) == At(f, c).(isOpened := true);
    assert OpenedSet(g, w, h) == AllCells(w, h);
  }

  /** `f` with the flag of the cell at `c` inverted. */
  function ToggledFlag(f: Field, c: Cell): (g: Field)
    requires c.y < |f| && c.x < |f[c.y]|
  {
    Update(f, c, At(f, c).(flag := !At(f, c).flag))
  }

  /** Flagging a cell twice restores the board, and flagging changes no
      other cell and nothing of the cell but its flag. */
  lemma ToggleTwice(f: Field, w: nat, h: nat, c: Cell)
    requires Shaped(f, w, h) && InGrid(w, h, c)
    ensures Shaped(ToggledFlag(f, c), w, h)
    ensures ToggledFlag(ToggledFlag(f, c), c) == f
    ensures forall d :: InGrid(w, h, d) && d != c ==> At(ToggledFlag(f, c), d) == At(f, d)
    ensures At(ToggledFlag(f, c), c) == At(f, c).(flag := !At(f, c).flag)
  {
    var g := ToggledFlag(ToggledFlag(f, c), c);
    FieldsEqual(g, f, w, h);
  }

  /** A status change the engine allows: it never returns to `NotStarted`,
      and `Victory` and `Defeat` are final. */
  predicate StatusAdvances(before: GameStatus, after: GameStatus) {
    after != NotStarted && (before == Victory || before == Defeat ==> after == before)
  }

  /** The engine's invariant over the values of its state. The board has
      its dimensions and every record its own coordinate; zero-count cells
      have no neighbouring mine; before the start nothing is open; until a
      defeat the counter counts the opened cells and no mine is open; a
      victory has reached the safe-cell target; a defeat has opened every
      cell. */
  ghost predicate GameInvariant(f: Field, w: nat, h: nat, status: GameStatus, openedQty: nat, nonMines: nat) {
    && Shaped(f, w, h)
    && Numbered(f, w, h)
    && SafeZeros(f, w, h)
    && (status == NotStarted ==> openedQty == 0 && OpenedSet(f, w, h) == {})
    && (status != Defeat ==> openedQty == |OpenedSet(f, w, h)| && OpenedSet(f, w, h) !! MineSet(f, w, h))
    && (status == Victory ==> openedQty == nonMines)
    && (status == Defeat ==> OpenedSet(f, w, h) == AllCells(w, h))
  }

  /** Every count is exact and the safe-cell target is the number of cells
      without a mine. */
  ghost predicate Settled(f: Field, w: nat, h: nat, nonMines: nat)
    requires Shaped(f, w, h)
  {
    CountsExact(f, w, h) && nonMines == |SafeSet(f, w, h)|
  }

  class Minesweeper {
    var fieldWidth: nat
    var fieldHeight: nat
    var gameStatus: GameStatus
    var gameStartTime: int
    var gameEndTime: int
    var field: Field
    var openedCellsQty: nat
    var nonMinesQty: nat

    /** The engine's invariant, `GameInvariant` of the current state. */
    ghost predicate Valid()
      reads this
    {
      GameInvariant(field, fieldWidth, fieldHeight, gameStatus, openedCellsQty, nonMinesQty)
    }

    /** The setup was given distinct mines: every count is exact and the
        safe-cell target is the number of cells without a mine. */
    ghost predicate Consistent()
      reads this
      requires Valid()
    {
      Settled(field, fieldWidth, fieldHeight, nonMinesQty)
    }

    /** A fresh game on a `width` by `height` board without mines. */
    constructor (width: nat, height: nat)
      ensures Valid() && Consistent()
      ensures fieldWidth == width && fieldHeight == height
      ensures Laid(field, width, height, [])
      ensures gameStatus == NotStarted && gameStartTime == 0 && gameEndTime == 0
      ensures openedCellsQty == 0 && nonMinesQty == width * height
    {
      fieldWidth, fieldHeight := width, height;
      field := ResetGrid(width, height);
      gameStatus := NotStarted;
      gameStartTime, gameEndTime := 0, 0;
      openedCellsQty := 0;
      nonMinesQty := width * height;
      new;
      NumberCells();
      assert Valid() && Consistent() by {
        SettleLayout([]);
      }
    }

    /** A fresh game with `minesCount` mines on the cells named by the first
        `minesCount` entries of the shuffled index list `ids`. */
    constructor Random(width: nat, height: nat, minesCount: nat, ids: seq<nat>)
      requires minesCount <= width * height && IsPermutation(ids, width * height)
      ensures Valid() && Consistent()
      ensures fieldWidth == width && fieldHeight == height
      ensures width > 0 || minesCount == 0
      ensures Laid(field, width, height, MinesFromIds(width, ids[..minesCount]))
      ensures |MineSet(field, width, height)| == minesCount
      ensures gameStatus == NotStarted && gameStartTime == 0 && gameEndTime == 0
      ensures openedCellsQty == 0 && nonMinesQty == width * height - minesCount
    {
      fieldWidth, fieldHeight := width, height;
      field := ResetGrid(width, height);
      gameStatus := NotStarted;
      gameStartTime, gameEndTime := 0, 0;
      openedCellsQty := 0;
      nonMinesQty := width * height;
      new;
      NumberCells();
      nonMinesQty := width * height - minesCount;
      SetMinesRandomly(minesCount, ids);
      assert Valid() && Consistent() && |MineSet(field, width, height)| == minesCount by {
        RandomMinesDistinct(width, height, ids, minesCount);
        SettleLayout(MinesFromIds(width, ids[..minesCount]));
      }
    }

    /** A fresh game with a mine on each listed cell. */
    constructor WithList(width: nat, height: nat, cellsWithMines: seq<Cell>)
      requires AllInGrid(width, height, cellsWithMines) && |cellsWithMines| <= width * height
      ensures Valid() && (Distinct(cellsWithMines) ==> Consistent())
      ensures fieldWidth == width && fieldHeight == height
      ensures Laid(field, width, height, cellsWithMines)
      ensures gameStatus == NotStarted && gameStartTime == 0 && gameEndTime == 0
      ensures openedCellsQty == 0 && nonMinesQty == width * height - |cellsWithMines|
    {
      fieldWidth, fieldHeight := width, height;
      field := ResetGrid(width, height);
      gameStatus := NotStarted;
      gameStartTime, gameEndTime := 0, 0;
      openedCellsQty := 0;
      nonMinesQty := width * height;
      new;
      NumberCells();
      nonMinesQty := width * height - |cellsWithMines|;
      SetMinesByList(cellsWithMines);
      assert Valid() && (Distinct(cellsWithMines) ==> Consistent()) by {
        SettleLayout(cellsWithMines);
      }
    }

    /** Starts over on a `width` by `height` board with `minesCount` mines
        taken from the shuffled index list `ids`. */
    method NewGameRandom(width: nat, height: nat, minesCount: nat, ids: seq<nat>)
      requires minesCount <= width * height && IsPermutation(ids, width * height)
      modifies this
      ensures Valid() && Consistent()
      ensures fieldWidth == width && fieldHeight == height
      ensures width > 0 || minesCount == 0
      ensures Laid(field, width, height, MinesFromIds(width, ids[..minesCount]))
      ensures |MineSet(field, width, height)| == minesCount
      ensures gameStatus == NotStarted && gameStartTime == 0 && gameEndTime == 0
      ensures openedCellsQty == 0 && nonMinesQty == width * height - minesCount
    {
      ResetField(width, height);
      NumberCells();
      nonMinesQty := width * height - minesCount;
      SetMinesRandomly(minesCount, ids);
      assert Valid() && Consistent() && |MineSet(field, width, height)| == minesCount by {
        RandomMinesDistinct(width, height, ids, minesCount);
        SettleLayout(MinesFromIds(width, ids[..minesCount]));
      }
    }

    /** Starts over on a `width` by `height` board with a mine on each
        listed cell. */
    method NewGameWithList(width: nat, height: nat, cellsWithMines: seq<Cell>)
      requires AllInGrid(width, height, cellsWithMines) && |cellsWithMines| <= width * height
      modifies this
      ensures Valid() && (Distinct(cellsWithMines) ==> Consistent())
      ensures fieldWidth == width && fieldHeight == height
      ensures Laid(field, width, height, cellsWithMines)
      ensures gameStatus == NotStarted && gameStartTime == 0 && gameEndTime == 0
      ensures openedCellsQty == 0 && nonMinesQty == width * height - |cellsWithMines|
    {
      ResetField(width, height);
      NumberCells();
      nonMinesQty := width * height - |cellsWithMines|;
      SetMinesByList(cellsWithMines);
      assert Valid() && (Distinct(cellsWithMines) ==> Consistent()) by {
        SettleLayout(cellsWithMines);
      }
    }

    /** The facts `Valid` and `Consistent` need from a freshly laid board. */
    lemma SettleLayout(mines: seq<Cell>)
      requires Laid(field, fieldWidth, fieldHeight, mines) && AllInGrid(fieldWidth, fieldHeight, mines)
      requires gameStatus == NotStarted && openedCellsQty == 0
      requires nonMinesQty == fieldWidth * fieldHeight - |mines|
      ensures Valid()
      ensures Distinct(mines) ==> Consistent() && |MineSet(field, fieldWidth, fieldHeight)| == |mines|
    {
      var f, w, h := field, fieldWidth, fieldHeight;
      LaidSafeZeros(f, w, h, mines);
      assert OpenedSet(f, w, h) == {};
      if Distinct(mines) {
        LaidCountsExact(f, w, h, mines);
        LaidMines(f, w, h, mines);
      }
    }

    /** Empties the board and resets the status, the times and the counter. */
    method ResetField(width: nat, height: nat)
      modifies this
      ensures fieldWidth == width && fieldHeight == height
      ensures field == ResetGrid(width, height)
      ensures gameStatus == NotStarted && gameStartTime == 0 && gameEndTime == 0
      ensures openedCellsQty == 0 && nonMinesQty == old(nonMinesQty)
    {
      fieldWidth, fieldHeight := width, height;
      field := ResetGrid(width, height);
      gameStatus := NotStarted;
      gameStartTime := 0;
      gameEndTime := 0;
      openedCellsQty := 0;
    }

    /** Stores in every record of an empty board its own coordinate. */
    method NumberCells()
      requires field == ResetGrid(fieldWidth, fieldHeight)
      modifies this`field
      ensures Laid(field, fieldWidth, fieldHeight, [])
    {
      var i := 0;
      while i < fieldHeight
        invariant 0 <= i <= fieldHeight
        invariant Shaped(field, fieldWidth, fieldHeight)
        invariant forall c {:trigger At(field, c)} :: InGrid(fieldWidth, fieldHeight, c) ==>
                    At(field, c) == if c.y < i then LaidCell(c, []) else DefaultCellInfo
      {
        var j := 0;
        while j < fieldWidth
          invariant 0 <= j <= fieldWidth
          invariant Shaped(field, fieldWidth, fieldHeight)
          invariant forall c {:trigger At(field, c)} :: InGrid(fieldWidth, fieldHeight, c) ==>
                      At(field, c) == if c.y < i || (c.y == i && c.x < j) then LaidCell(c, []) else DefaultCellInfo
        {
          field := Update(field, Cell(j, i), At(field, Cell(j, i)).(x := j, y := i));
          j := j + 1;
        }
        i := i + 1;
      }
    }

    /** Adds one to the count of every neighbour of the cell whose record
        is `info`, locating the cell by the coordinate the record stores. */
    method UpdateMinesQtyNearbyForNeighbours(info: CellInfo)
      requires Shaped(field, fieldWidth, fieldHeight) && InGrid(fieldWidth, fieldHeight, Cell(info.x, info.y))
      modifies this`field
      ensures Shaped(field, fieldWidth, fieldHeight)
      ensures forall c {:trigger At(field, c)} :: InGrid(fieldWidth, fieldHeight, c) ==>
                At(field, c) == At(old(field), c).(minesQtyNearby := At(old(field), c).minesQtyNearby
                                                     + if Adjacent(c, Cell(info.x, info.y)) then 1 else 0)
    {
      var w, h := fieldWidth, fieldHeight;
      var neighbours := Neighbours(w, h, Cell(info.x, info.y));
      ghost var f0 := field;
      for k := 0 to |neighbours|
        invariant Shaped(field, w, h)
        invariant Bumped(f0, field, w, h, neighbours[..k])
      {
        var n := neighbours[k];
        assert n in neighbours;
        assert n.y < |field| && n.x < |field[n.y]|;
        ghost var before := field;
        field := Update(field, n, At(field, n).(minesQtyNearby := At(field, n).minesQtyNearby + 1));
        BumpOne(f0, before, field, w, h, neighbours, k);
      }
      assert neighbours[..|neighbours|] == neighbours;
      assert forall c {:trigger At(field, c)} :: InGrid(w, h, c) ==>
                At(field, c) == At(f0, c).(minesQtyNearby := At(f0, c).minesQtyNearby
                                             + if Adjacent(c, Cell(info.x, info.y)) then 1 else 0) by {
        forall c | InGrid(w, h, c)
          ensures c in neighbours <==> Adjacent(c, Cell(info.x, info.y))
        {
        }
      }
    }

    /** Lays a mine on each listed cell of a fresh board. */
    method SetMinesByList(cellsWithMines: seq<Cell>)
      requires Laid(field, fieldWidth, fieldHeight, []) && AllInGrid(fieldWidth, fieldHeight, cellsWithMines)
      modifies this`field
      ensures Laid(field, fieldWidth, fieldHeight, cellsWithMines)
    {
      for k := 0 to |cellsWithMines|
        invariant Laid(field, fieldWidth, fieldHeight, cellsWithMines[..k])
      {
        var mine := cellsWithMines[k];
        assert cellsWithMines[..k + 1] == cellsWithMines[..k] + [mine];
        PlaceMine(mine, cellsWithMines[..k]);
      }
      assert cellsWithMines[..|cellsWithMines|] == cellsWithMines;
    }

    /** Lays a mine on each of the cells named by the first `minesCount`
        indices of `ids`: index `id` names column `id % width`, row
        `id / width`. */
    method SetMinesRandomly(minesCount: nat, ids: seq<nat>)
      requires Laid(field, fieldWidth, fieldHeight, [])
      requires minesCount <= fieldWidth * fieldHeight && IsPermutation(ids, fieldWidth * fieldHeight)
      modifies this`field
      ensures fieldWidth > 0 || minesCount == 0
      ensures Laid(field, fieldWidth, fieldHeight, MinesFromIds(fieldWidth, ids[..minesCount]))
    {
      for i := 0 to minesCount
        invariant fieldWidth > 0 || i == 0
        invariant Laid(field, fieldWidth, fieldHeight, MinesFromIds(fieldWidth, ids[..i]))
      {
        CellOfIdInGrid(fieldWidth, fieldHeight, ids[i]);
        var x := ids[i] % fieldWidth;
        var y := ids[i] / fieldWidth;
        assert ids[..i + 1][..i] == ids[..i];
        PlaceMine(Cell(x, y), MinesFromIds(fieldWidth, ids[..i]));
      }
      if minesCount == 0 {
        assert minesCount <= fieldWidth * fieldHeight;
      }
    }

    /** One step of either setup loop: marks the mine and counts it at
        its neighbours. */
    method PlaceMine(mine: Cell, ghost placed: seq<Cell>)
      requires Laid(field, fieldWidth, fieldHeight, placed) && InGrid(fieldWidth, fieldHeight, mine)
      modifies this`field
      ensures Laid(field, fieldWidth, fieldHeight, placed + [mine])
    {
      field := Update(field, mine, At(field, mine).(isMine := true));
      UpdateMinesQtyNearbyForNeighbours(At(field, mine));
      assert (placed + [mine])[..|placed|] == placed;
    }

    /** Switches the game to `InProgress`, started at `now`. */
    method StartGame(now: int)
      requires Valid() && gameStatus == NotStarted
      modifies this`gameStatus, this`gameStartTime
      ensures Valid() && (old(Consistent()) ==> Consistent())
      ensures gameStatus == InProgress && gameStartTime == now
    {
      gameStartTime := now;
      gameStatus := InProgress;
    }

    /** Opens the cell at `cell` at time `now`: a mine loses the game and
        opens the whole board; a closed, unflagged safe cell starts the
        flood fill, after which reaching the safe-cell target wins. */
    method OpenCell(cell: Cell, now: int)
      requires Valid() && InGrid(fieldWidth, fieldHeight, cell)
      modifies this`field, this`openedCellsQty, this`gameStatus, this`gameStartTime, this`gameEndTime
      ensures Valid() && (old(Consistent()) ==> Consistent())
      ensures StatusAdvances(old(gameStatus), gameStatus)
      ensures old(gameStatus) == Victory || old(gameStatus) == Defeat ==>
                && field == old(field) && openedCellsQty == old(openedCellsQty)
                && gameStartTime == old(gameStartTime) && gameEndTime == old(gameEndTime)
      ensures old(gameStatus) == NotStarted ==> gameStartTime == now
      ensures old(gameStatus) == InProgress ==> gameStartTime == old(gameStartTime)
      ensures (old(gameStatus) == NotStarted || old(gameStatus) == InProgress) && At(old(field), cell).isMine ==>
                && gameStatus == Defeat && gameEndTime == now
                && field == AllOpened(old(field), fieldWidth, fieldHeight)
                && openedCellsQty == old(openedCellsQty) + fieldWidth * fieldHeight
      ensures (old(gameStatus) == NotStarted || old(gameStatus) == InProgress) && !At(old(field), cell).isMine
              && !At(old(field), cell).isOpened && !At(old(field), cell).flag ==>
                && field == Filled(old(field), fieldWidth, fieldHeight, cell)
                && openedCellsQty == old(openedCellsQty)
                     + |OpenedSet(field, fieldWidth, fieldHeight) - OpenedSet(old(field), fieldWidth, fieldHeight)|
                && (openedCellsQty == nonMinesQty ==> gameStatus == Victory && gameEndTime == now)
                && (openedCellsQty != nonMinesQty ==> gameStatus == InProgress && gameEndTime == old(gameEndTime))
      ensures (old(gameStatus) == NotStarted || old(gameStatus) == InProgress) && !At(old(field), cell).isMine
              && (At(old(field), cell).isOpened || At(old(field), cell).flag) ==>
                && gameStatus == InProgress && field == old(field)
                && openedCellsQty == old(openedCellsQty) && gameEndTime == old(gameEndTime)
    {
      // A game that was not started is in progress once started, so the
      // source's two consecutive status tests become one test per status.
      if gameStatus == NotStarted {
        StartGame(now);
        assert field == old(field) && openedCellsQty == old(openedCellsQty) && gameEndTime == old(gameEndTime);
        Play(cell, now);
      } else if gameStatus == InProgress {
        Play(cell, now);
      }
    }

    /** The body of `OpenCell` once the game is in progress. */
    method Play(cell: Cell, now: int)
      requires Valid() && gameStatus == InProgress && InGrid(fieldWidth, fieldHeight, cell)
      modifies this`field, this`openedCellsQty, this`gameStatus, this`gameEndTime
      ensures Valid() && (old(Consistent()) ==> Consistent())
      ensures At(old(field), cell).isMine ==>
                && gameStatus == Defeat && gameEndTime == now
                && field == AllOpened(old(field), fieldWidth, fieldHeight)
                && openedCellsQty == old(openedCellsQty) + fieldWidth * fieldHeight
      ensures !At(old(field), cell).isMine && !At(old(field), cell).isOpened && !At(old(field), cell).flag ==>
                && field == Filled(old(field), fieldWidth, fieldHeight, cell)
                && openedCellsQty == old(openedCellsQty)
                     + |OpenedSet(field, fieldWidth, fieldHeight) - OpenedSet(old(field), fieldWidth, fieldHeight)|
                && (openedCellsQty == nonMinesQty ==> gameStatus == Victory && gameEndTime == now)
                && (openedCellsQty != nonMinesQty ==> gameStatus == InProgress && gameEndTime == old(gameEndTime))
      ensures !At(old(field), cell).isMine && (At(old(field), cell).isOpened || At(old(field), cell).flag) ==>
                && gameStatus == InProgress && field == old(field)
                && openedCellsQty == old(openedCellsQty) && gameEndTime == old(gameEndTime)
    {
      var cellInfo := At(field, cell);

      if cellInfo.isMine {
        Lose(now);
      } else if !cellInfo.isOpened && !cellInfo.flag {
        Reveal(cell, now);
      }
    }

    /** The defeat branch of `OpenCell`: the game is lost at `now` and the
        whole board is opened. */
    method Lose(now: int)
      requires Valid() && gameStatus == InProgress
      modifies this`field, this`openedCellsQty, this`gameStatus, this`gameEndTime
      ensures Valid() && (old(Consistent()) ==> Consistent())
      ensures gameStatus == Defeat && gameEndTime == now
      ensures field == AllOpened(old(field), fieldWidth, fieldHeight)
      ensures openedCellsQty == old(openedCellsQty) + fieldWidth * fieldHeight
    {
      gameEndTime := now;
      gameStatus := Defeat;
      OpenAllCells();
      DefeatKeepsInvariant(old(field));
    }

    /** The safe-cell branch of `OpenCell`: the flood fill from `cell`,
        then the victory test at time `now`. */
    method Reveal(cell: Cell, now: int)
      requires Valid() && gameStatus == InProgress && InGrid(fieldWidth, fieldHeight, cell)
      requires !At(field, cell).isMine && !At(field, cell).isOpened && !At(field, cell).flag
      modifies this`field, this`openedCellsQty, this`gameStatus, this`gameEndTime
      ensures Valid() && (old(Consistent()) ==> Consistent())
      ensures field == Filled(old(field), fieldWidth, fieldHeight, cell)
      ensures openedCellsQty == old(openedCellsQty)
                + |OpenedSet(field, fieldWidth, fieldHeight) - OpenedSet(old(field), fieldWidth, fieldHeight)|
      ensures openedCellsQty == nonMinesQty ==> gameStatus == Victory && gameEndTime == now
      ensures openedCellsQty != nonMinesQty ==> gameStatus == InProgress && gameEndTime == old(gameEndTime)
    {
      ghost var f0, q0 := field, openedCellsQty;
      assert && Shaped(f0, fieldWidth, fieldHeight) && Numbered(f0, fieldWidth, fieldHeight)
             && SafeZeros(f0, fieldWidth, fieldHeight) && q0 == |OpenedSet(f0, fieldWidth, fieldHeight)|
             && OpenedSet(f0, fieldWidth, fieldHeight) !! MineSet(f0, fieldWidth, fieldHeight);
      var cellInfo := At(field, cell);
      assert Cell(cellInfo.x, cellInfo.y) == cell;
      Bfs(cellInfo);
      RevealKeepsValid(f0, q0, cell);
      CheckVictory(now);
    }

    /** The victory test after a fill: the game is won at `now` once the
        counter reaches the safe-cell target. */
    method CheckVictory(now: int)
      requires Valid() && gameStatus == InProgress
      modifies this`gameStatus, this`gameEndTime
      ensures Valid() && (old(Consistent()) ==> Consistent())
      ensures openedCellsQty == nonMinesQty ==> gameStatus == Victory && gameEndTime == now
      ensures openedCellsQty != nonMinesQty ==> gameStatus == InProgress && gameEndTime == old(gameEndTime)
    {
      if openedCellsQty == nonMinesQty {
        gameEndTime := now;
        gameStatus := Victory;
      }
    }

    /** After a fill from a safe cell the counter still counts the opened
        cells and no mine is open. */
    lemma FillKeepsInvariant(before: Field, s: Cell)
      requires Shaped(before, fieldWidth, fieldHeight) && Numbered(before, fieldWidth, fieldHeight)
      requires SafeZeros(before, fieldWidth, fieldHeight)
      requires InGrid(fieldWidth, fieldHeight, s) && !At(before, s).isMine
      requires field == Filled(before, fieldWidth, fieldHeight, s)
      requires openedCellsQty == |OpenedSet(before, fieldWidth, fieldHeight)|
                 + |OpenedSet(field, fieldWidth, fieldHeight) - OpenedSet(before, fieldWidth, fieldHeight)|
      requires OpenedSet(before, fieldWidth, fieldHeight) !! MineSet(before, fieldWidth, fieldHeight)
      ensures Shaped(field, fieldWidth, fieldHeight) && Numbered(field, fieldWidth, fieldHeight)
      ensures SafeZeros(field, fieldWidth, fieldHeight)
      ensures openedCellsQty == |OpenedSet(field, fieldWidth, fieldHeight)|
      ensures OpenedSet(field, fieldWidth, fieldHeight) !! MineSet(field, fieldWidth, fieldHeight)
      ensures MineSet(field, fieldWidth, fieldHeight) == MineSet(before, fieldWidth, fieldHeight)
      ensures SafeSet(field, fieldWidth, fieldHeight) == SafeSet(before, fieldWidth, fieldHeight)
      ensures CountsExact(before, fieldWidth, fieldHeight) ==> CountsExact(field, fieldWidth, fieldHeight)
    {
      var w, h := fieldWidth, fieldHeight;
      SameLayoutKeeps(before, field, w, h);
      var o0, o1 := OpenedSet(before, w, h), OpenedSet(field, w, h);
      assert o0 <= o1;
      assert o1 == o0 + (o1 - o0);
      forall c | c in o1
        ensures c !in MineSet(field, w, h)
      {
        if c !in o0 {
          ReachNoMine(before, w, h, s, c);
        }
      }
    }

    /** The state a reveal leaves behind is valid, and consistent when the
        board it started from was. */
    lemma RevealKeepsValid(before: Field, beforeQty: int, s: Cell)
      requires gameStatus == InProgress
      requires Shaped(before, fieldWidth, fieldHeight) && Numbered(before, fieldWidth, fieldHeight)
      requires SafeZeros(before, fieldWidth, fieldHeight)
      requires beforeQty == |OpenedSet(before, fieldWidth, fieldHeight)|
      requires OpenedSet(before, fieldWidth, fieldHeight) !! MineSet(before, fieldWidth, fieldHeight)
      requires InGrid(fieldWidth, fieldHeight, s) && !At(before, s).isMine
      requires field == Filled(before, fieldWidth, fieldHeight, s)
      requires openedCellsQty == beforeQty
                 + |OpenedSet(field, fieldWidth, fieldHeight) - OpenedSet(before, fieldWidth, fieldHeight)|
      ensures Valid()
      ensures CountsExact(before, fieldWidth, fieldHeight) && nonMinesQty == |SafeSet(before, fieldWidth, fieldHeight)|
              ==> Consistent()
    {
      FillKeepsInvariant(before, s);
    }

    /** Opening the whole board keeps the layout invariants and leaves
        every cell open. */
    lemma DefeatKeepsInvariant(before: Field)
      requires Shaped(before, fieldWidth, fieldHeight) && Numbered(before, fieldWidth, fieldHeight)
      requires SafeZeros(before, fieldWidth, fieldHeight)
      requires field == AllOpened(before, fieldWidth, fieldHeight)
      ensures Shaped(field, fieldWidth, fieldHeight) && Numbered(field, fieldWidth, fieldHeight)
      ensures SafeZeros(field, fieldWidth, fieldHeight)
      ensures OpenedSet(field, fieldWidth, fieldHeight) == AllCells(fieldWidth, fieldHeight)
      ensures SafeSet(field, fieldWidth, fieldHeight) == SafeSet(before, fieldWidth, fieldHeight)
      ensures CountsExact(before, fieldWidth, fieldHeight) ==> CountsExact(field, fieldWidth, fieldHeight)
    {
      AllOpenedLayout(before, fieldWidth, fieldHeight);
      SameLayoutKeeps(before, field, fieldWidth, fieldHeight);
    }

    /** The defeat branch of `OpenCell`: opens every cell, counting each. */
    method OpenAllCells()
      requires Shaped(field, fieldWidth, fieldHeight)
      modifies this`field, this`openedCellsQty
      ensures field == AllOpened(old(field), fieldWidth, fieldHeight)
      ensures openedCellsQty == old(openedCellsQty) + fieldWidth * fieldHeight
    {
      ghost var f0 := field;
      var i := 0;
      while i < fieldHeight
        invariant 0 <= i <= fieldHeight
        invariant Shaped(field, fieldWidth, fieldHeight)
        invariant forall c {:trigger At(field, c)} :: InGrid(fieldWidth, fieldHeight, c) ==>
                    At(field, c) == At(f0, c).(isOpened := c.y < i || At(f0, c).isOpened)
        invariant openedCellsQty == old(openedCellsQty) + i * fieldWidth
      {
        var j := 0;
        while j < fieldWidth
          invariant 0 <= j <= fieldWidth
          invariant Shaped(field, fieldWidth, fieldHeight)
          invariant forall c {:trigger At(field, c)} :: InGrid(fieldWidth, fieldHeight, c) ==>
                      At(field, c) == At(f0, c).(isOpened := c.y < i || (c.y == i && c.x < j) || At(f0, c).isOpened)
          invariant openedCellsQty == old(openedCellsQty) + i * fieldWidth + j
        {
          field := Update(field, Cell(j, i), At(field, Cell(j, i)).(isOpened := true));
          openedCellsQty := openedCellsQty + 1;
          j := j + 1;
        }
        i := i + 1;
      }
      AllOpenedLayout(f0, fieldWidth, fieldHeight);
      FieldsEqual(field, AllOpened(f0, fieldWidth, fieldHeight), fieldWidth, fieldHeight);
    }

    /** The breadth-first reveal from the cell whose record is `start`,
        locating it by the coordinate the record stores. A work queue of
        coordinates holds the cells still to visit: a visited closed cell is
        opened and counted, and if it has no neighbouring mine every
        neighbour that is neither open nor flagged is queued. */
    method Bfs(start: CellInfo)
      requires Shaped(field, fieldWidth, fieldHeight)
      requires InGrid(fieldWidth, fieldHeight, Cell(start.x, start.y))
      requires Eligible(field, fieldWidth, fieldHeight, Cell(start.x, start.y))
      modifies this`field, this`openedCellsQty
      ensures field == Filled(old(field), fieldWidth, fieldHeight, Cell(start.x, start.y))
      ensures openedCellsQty == old(openedCellsQty)
                + |OpenedSet(field, fieldWidth, fieldHeight) - OpenedSet(old(field), fieldWidth, fieldHeight)|
    {
      var w, h := fieldWidth, fieldHeight;
      ghost var f0 := field;
      var s := Cell(start.x, start.y);
      var queue: seq<Cell> := [s];
      QueueStart(f0, w, h, s);

      while queue != []
        invariant Shaped(field, w, h)
        invariant QueueInvariant(f0, field, w, h, s, queue)
        invariant openedCellsQty == old(openedCellsQty) + |OpenedSet(field, w, h) - OpenedSet(f0, w, h)|
        decreases |ClosedSet(field, w, h)|, |queue|
      {
        queue := Visit(f0, s, queue);
      }

      QueueDone(f0, field, w, h, s);
    }

    /** One round of the reveal's loop: the head of the queue is popped and,
        unless already open, opened and counted; a zero-count head also
        queues its eligible neighbours. Either a cell is opened or the
        board stays as it was and the queue shrinks. */
    method Visit(ghost f0: Field, s: Cell, queue: seq<Cell>) returns (rest: seq<Cell>)
      requires Shaped(f0, fieldWidth, fieldHeight) && InGrid(fieldWidth, fieldHeight, s)
      requires QueueInvariant(f0, field, fieldWidth, fieldHeight, s, queue) && queue != []
      modifies this`field, this`openedCellsQty
      ensures Shaped(field, fieldWidth, fieldHeight)
      ensures QueueInvariant(f0, field, fieldWidth, fieldHeight, s, rest)
      ensures openedCellsQty - |OpenedSet(field, fieldWidth, fieldHeight) - OpenedSet(f0, fieldWidth, fieldHeight)|
              == old(openedCellsQty) - |OpenedSet(old(field), fieldWidth, fieldHeight) - OpenedSet(f0, fieldWidth, fieldHeight)|
      ensures || |ClosedSet(field, fieldWidth, fieldHeight)| < |ClosedSet(old(field), fieldWidth, fieldHeight)|
              || (field == old(field) && |rest| < |queue|)
    {
      var current := queue[0];
      assert InGrid(fieldWidth, fieldHeight, current);

      if At(field, current).isOpened {
        QueueSkip(f0, field, fieldWidth, fieldHeight, s, queue);
        rest := queue[1..];
        return;
      }

      ghost var before := field;
      field := Update(field, current, At(field, current).(isOpened := true));
      openedCellsQty := openedCellsQty + 1;
      OpenCounted(f0, before, field, fieldWidth, fieldHeight, current);

      if At(field, current).minesQtyNearby > 0 {
        VisitNumbered(f0, before, field, fieldWidth, fieldHeight, s, queue);
        rest := queue[1..];
      } else {
        rest := ExpandZero(f0, before, s, queue);
      }
    }

    /** The visit of a zero-count cell that the reveal has just opened: its
        eligible neighbours are queued and the head is popped. */
    method ExpandZero(ghost f0: Field, ghost before: Field, s: Cell, queue: seq<Cell>) returns (rest: seq<Cell>)
      requires Shaped(f0, fieldWidth, fieldHeight) && InGrid(fieldWidth, fieldHeight, s)
      requires QueueInvariant(f0, before, fieldWidth, fieldHeight, s, queue)
      requires queue != [] && !At(before, queue[0]).isOpened
      requires field == Update(before, queue[0], At(before, queue[0]).(isOpened := true))
      requires At(field, queue[0]).minesQtyNearby == 0
      ensures QueueInvariant(f0, field, fieldWidth, fieldHeight, s, rest)
    {
      VisitHead(f0, before, field, fieldWidth, fieldHeight, s, queue);
      var grown := EnqueueNeighbours(f0, s, queue[0], queue);
      VisitZero(f0, before, field, fieldWidth, fieldHeight, s, queue, grown);
      rest := grown[1..];
    }

    /** The inner loop of the reveal: every neighbour of `current` that is
        neither open nor flagged is appended to the queue. */
    method EnqueueNeighbours(ghost f0: Field, ghost s: Cell, current: Cell, queue: seq<Cell>) returns (grown: seq<Cell>)
      requires Shaped(f0, fieldWidth, fieldHeight) && Shaped(field, fieldWidth, fieldHeight)
      requires FillProgress(f0, field, fieldWidth, fieldHeight, s)
      requires InGrid(fieldWidth, fieldHeight, current) && Reachable(f0, fieldWidth, fieldHeight, s, current)
      requires At(f0, current).minesQtyNearby == 0
      ensures |grown| >= |queue| && grown[..|queue|] == queue
      ensures forall i :: |queue| <= i < |grown| ==>
                InGrid(fieldWidth, fieldHeight, grown[i]) && Reachable(f0, fieldWidth, fieldHeight, s, grown[i])
      ensures forall n {:trigger n in Neighbours(fieldWidth, fieldHeight, current)} ::
                n in Neighbours(fieldWidth, fieldHeight, current) ==>
                  At(field, n).isOpened || At(field, n).flag || n in grown
    {
      var w, h := fieldWidth, fieldHeight;
      var neighbours := Neighbours(w, h, current);
      grown := queue;
      for k := 0 to |neighbours|
        invariant |grown| >= |queue| && grown[..|queue|] == queue
        invariant forall i :: |queue| <= i < |grown| ==> InGrid(w, h, grown[i]) && Reachable(f0, w, h, s, grown[i])
        invariant forall i :: 0 <= i < k ==>
                    InGrid(w, h, neighbours[i])
                    && (At(field, neighbours[i]).isOpened || At(field, neighbours[i]).flag || neighbours[i] in grown)
      {
        var neighbour := neighbours[k];
        assert neighbour in neighbours;
        if !(At(field, neighbour).isOpened || At(field, neighbour).flag) {
          ReachNeighbour(f0, field, w, h, s, current, neighbour);
          grown := grown + [neighbour];
        }
      }
    }

    /** Marks or unmarks the cell at `cell` at time `now`; the flag flips
        even on an opened cell. */
    method MarkCell(cell: Cell, now: int)
      requires Valid() && InGrid(fieldWidth, fieldHeight, cell)
      modifies this`field, this`gameStatus, this`gameStartTime
      ensures Valid() && (old(Consistent()) ==> Consistent())
      ensures StatusAdvances(old(gameStatus), gameStatus)
      ensures old(gameStatus) == Victory || old(gameStatus) == Defeat ==>
                field == old(field) && gameStartTime == old(gameStartTime)
      ensures old(gameStatus) == NotStarted ==> gameStartTime == now
      ensures old(gameStatus) == InProgress ==> gameStartTime == old(gameStartTime)
      ensures old(gameStatus) == NotStarted || old(gameStatus) == InProgress ==>
                gameStatus == InProgress && field == ToggledFlag(old(field), cell)
    {
      if gameStatus == NotStarted {
        StartGame(now);
      }

      if gameStatus == InProgress {
        ghost var before := field;
        field := ToggledFlag(field, cell);
        ToggleTwice(before, fieldWidth, fieldHeight, cell);
        SameLayoutKeeps(before, field, fieldWidth, fieldHeight);
        assert OpenedSet(field, fieldWidth, fieldHeight) == OpenedSet(before, fieldWidth, fieldHeight);
      }
    }

    /** The current status. A reported victory has reached the safe-cell
        target, a reported defeat has opened the board, and before the start
        nothing is open. */
    function GetGameStatus(): (r: GameStatus)
      reads this
      requires Valid()
      ensures r == Victory ==> openedCellsQty == nonMinesQty
      ensures r == Defeat ==> OpenedSet(field, fieldWidth, fieldHeight) == AllCells(fieldWidth, fieldHeight)
      ensures r == NotStarted ==> OpenedSet(field, fieldWidth, fieldHeight) == {} && openedCellsQty == 0
    {
      gameStatus
    }

    /** The game time in seconds at time `now`: zero before the start, the
        running time while in progress, the final time once over. */
    function GetGameTime(now: int): int
      reads this
    {
      if gameStatus == InProgress then now - gameStartTime
      else if gameStatus == NotStarted then 0
      else gameEndTime - gameStartTime
    }

    /** The game time is zero before the start, grows with the clock while
        the game runs, and is frozen once the game is over. */
    lemma GameTimeBehaviour(now: int, later: int)
      requires now <= later
      ensures gameStatus == NotStarted ==> GetGameTime(now) == 0
      ensures gameStatus == InProgress ==> GetGameTime(now) <= GetGameTime(later)
      ensures gameStatus == Victory || gameStatus == Defeat ==> GetGameTime(now) == GetGameTime(later)
    {
    }

    /** The text dump of the board: one string per row; when the counts are
        exact, one legend character per cell. */
    function RenderField(): (r: RenderedField)
      reads this
      requires Valid()
      ensures |r| == fieldHeight
      ensures Consistent() ==>
                && (forall y :: 0 <= y < fieldHeight ==> |r[y]| == fieldWidth)
                && (forall c {:trigger At(field, c)} :: InGrid(fieldWidth, fieldHeight, c) ==>
                      At(field, c).minesQtyNearby <= 8 && r[c.y][c.x] == Render.Glyph(At(field, c)))
    {
      RenderShape(field, fieldWidth, fieldHeight);
      Render.RenderField(field)
    }

    /** With distinct mines, a victory means every safe cell is open and
        no mine is. */
    lemma VictoryOpensAllSafeCells()
      requires Valid() && Consistent() && gameStatus == Victory
      ensures OpenedSet(field, fieldWidth, fieldHeight) == SafeSet(field, fieldWidth, fieldHeight)
    {
      var w, h := fieldWidth, fieldHeight;
      var o, safe := OpenedSet(field, w, h), SafeSet(field, w, h);
      assert o <= safe;
      SubsetSameCard(o, safe);
    }

    /** With distinct mines, until a defeat the counter never exceeds the
        safe-cell target. */
    lemma OpenedWithinTarget()
      requires Valid() && Consistent() && gameStatus != Defeat
      ensures openedCellsQty <= nonMinesQty
    {
      var w, h := fieldWidth, fieldHeight;
      var o, safe := OpenedSet(field, w, h), SafeSet(field, w, h);
      assert o <= safe;
      SubsetCard(o, safe);
    }
  }

  /** `f` is `f0` with one added to the count of each cell of `cells`. */
  ghost predicate Bumped(f0: Field, f: Field, w: nat, h: nat, cells: seq<Cell>)
    requires Shaped(f0, w, h) && Shaped(f, w, h)
  {
    forall c {:trigger At(f, c)} :: InGrid(w, h, c) ==>
      At(f, c) == At(f0, c).(minesQtyNearby := At(f0, c).minesQtyNearby + if c in cells then 1 else 0)
  }

  /** Counting one more neighbour of the increment loop. */
  lemma BumpOne(f0: Field, before: Field, after: Field, w: nat, h: nat, ns: seq<Cell>, k: nat)
    requires Shaped(f0, w, h) && Shaped(before, w, h) && Distinct(ns) && k < |ns| && InGrid(w, h, ns[k])
    requires Bumped(f0, before, w, h, ns[..k])
    requires after == Update(before, ns[k], At(before, ns[k]).(minesQtyNearby := At(before, ns[k]).minesQtyNearby + 1))
    ensures Shaped(after, w, h) && Bumped(f0, after, w, h, ns[..k + 1])
  {
    assert ns[..k + 1] == ns[..k] + [ns[k]];
    forall c | InGrid(w, h, c)
      ensures At(after, c) == At(f0, c).(minesQtyNearby := At(f0, c).minesQtyNearby + if c in ns[..k + 1] then 1 else 0)
    {
      assert At(before, c) == At(f0, c).(minesQtyNearby := At(f0, c).minesQtyNearby + if c in ns[..k] then 1 else 0);
      if c == ns[k] {
        assert c !in ns[..k];
      }
    }
  }

  /** The dump of a board, when its counts are exact, has one legend
      character per cell. */
  lemma RenderShape(f: Field, w: nat, h: nat)
    requires Shaped(f, w, h)
    ensures |Render.RenderField(f)| == h
    ensures CountsExact(f, w, h) ==>
              && (forall y :: 0 <= y < h ==> |Render.RenderField(f)[y]| == w)
              && (forall c {:trigger At(f, c)} :: InGrid(w, h, c) ==>
                    At(f, c).minesQtyNearby <= 8 && Render.RenderField(f)[c.y][c.x] == Render.Glyph(At(f, c)))
  {
    if CountsExact(f, w, h) {
      Render.RenderFieldShape(f, w, h);
    }
  }
}
