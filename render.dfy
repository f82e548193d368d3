/** The text dump of a board: one string per row, built cell by cell. */
module Render {
  import opened Grid
  import opened Layout

  function Digit(d: nat): (c: char)
    requires d < 10
    ensures '0' <= c <= '9'
  {
    ('0' as int + d) as char
  }

  /** The decimal digits of `n`, most significant first, as the standard
      library's integer-to-string conversion writes them. */
  function DecimalString(n: nat): (s: string)
    ensures 1 <= |s|
    ensures forall i :: 0 <= i < |s| ==> '0' <= s[i] <= '9'
    ensures n < 10 ==> s == [Digit(n)]
    ensures n >= 10 ==> |s| >= 2
  {
    if n < 10 then [Digit(n)] else DecimalString(n / 10) + [Digit(n % 10)]
  }

  /** The text one cell contributes to its row. */
  function CellText(c: CellInfo): string {
    if c.isOpened then
      if c.isMine then "*"
      else if c.minesQtyNearby > 0 then DecimalString(c.minesQtyNearby)
      else "."
    else if c.flag then "?"
    else "-"
  }

  /** The row string: the texts of its cells, left to right. */
  function RenderRow(row: seq<CellInfo>): string {
    if row == [] then "" else RenderRow(row[..|row| - 1]) + CellText(row[|row| - 1])
  }

  /** The rendered board: one string per row, top to bottom. */
  function RenderField(f: Field): (r: RenderedField)
    ensures |r| == |f|
  {
    if f == [] then [] else RenderField(f[..|f| - 1]) + [RenderRow(f[|f| - 1])]
  }

  /** The one-character legend: `*` an opened mine, a digit the count of an
      opened numbered cell, `.` an opened cell with no mine nearby, `?` a
      closed flagged cell, `-` a closed unflagged cell. */
  function Glyph(c: CellInfo): char
    requires c.minesQtyNearby < 10
  {
    if c.isOpened then
      if c.isMine then '*'
      else if c.minesQtyNearby > 0 then Digit(c.minesQtyNearby)
      else '.'
    else if c.flag then '?'
    else '-'
  }

  predicate LegendChar(ch: char) {
    ch == '*' || ch == '.' || ch == '?' || ch == '-' || '1' <= ch <= '9'
  }

  /** A cell with a one-digit count renders as its legend character, which
      is never `0`. */
  lemma CellTextGlyph(c: CellInfo)
    requires c.minesQtyNearby < 10
    ensures CellText(c) == [Glyph(c)]
    ensures LegendChar(Glyph(c))
  {
  }

  /** A row whose counts are single digits renders to one legend character
      per cell. */
  lemma {:induction false} RenderRowGlyphs(row: seq<CellInfo>)
    requires forall x :: 0 <= x < |row| ==> row[x].minesQtyNearby < 10
    ensures |RenderRow(row)| == |row|
    ensures forall x :: 0 <= x < |row| ==> RenderRow(row)[x] == Glyph(row[x])
  {
    if row != [] {
      var init := row[..|row| - 1];
      RenderRowGlyphs(init);
      CellTextGlyph(row[|row| - 1]);
    }
  }

  lemma {:induction false} RenderFieldRows(f: Field, y: nat)
    requires y < |f|
    ensures RenderField(f)[y] == RenderRow(f[y])
  {
    if y < |f| - 1 {
      RenderFieldRows(f[..|f| - 1], y);
    }
  }

  /** Row `y` of the dump of a board with exact neighbour counts. */
  lemma RenderedRow(f: Field, w: nat, h: nat, y: nat)
    requires Shaped(f, w, h) && CountsExact(f, w, h) && y < h
    ensures |RenderField(f)[y]| == w
    ensures forall x :: 0 <= x < w ==>
              f[y][x].minesQtyNearby <= 8 && RenderField(f)[y][x] == Glyph(f[y][x])
  {
    forall x | 0 <= x < w
      ensures f[y][x].minesQtyNearby <= 8
    {
      CountsAtMostEight(f, w, h, Cell(x, y));
    }
    RenderFieldRows(f, y);
    RenderRowGlyphs(f[y]);
  }

  /** On a board with exact neighbour counts the dump has one string per
      row, one character per cell, each the cell's legend character, and
      never the digit `0`. */
  lemma RenderFieldShape(f: Field, w: nat, h: nat)
    requires Shaped(f, w, h) && CountsExact(f, w, h)
    ensures |RenderField(f)| == h
    ensures forall y :: 0 <= y < h ==> |RenderField(f)[y]| == w
    ensures forall c {:trigger At(f, c)} :: InGrid(w, h, c) ==>
              At(f, c).minesQtyNearby <= 8 && RenderField(f)[c.y][c.x] == Glyph(At(f, c))
    ensures forall y, x :: 0 <= y < h && 0 <= x < w ==>
              LegendChar(RenderField(f)[y][x]) && RenderField(f)[y][x] != '0'
  {
    forall y | 0 <= y < h
      ensures |RenderField(f)[y]| == w
      ensures forall x :: 0 <= x < w ==>
                f[y][x].minesQtyNearby <= 8 && RenderField(f)[y][x] == Glyph(f[y][x])
                && LegendChar(RenderField(f)[y][x])
    {
      RenderedRow(f, w, h, y);
      forall x | 0 <= x < w
        ensures LegendChar(Glyph(f[y][x]))
      {
        CellTextGlyph(f[y][x]);
      }
    }
  }
}
