/** The layout that `convertToExcalidraw` computes, stated cell by cell:
    column widths and row heights as maxima over the cells, positions as
    prefix sums of them, and the rectangle and bound text of every cell.
    All sizes are whole numbers: 20 * 0.6 = 12, 20 * 1.2 = 24, 10 / 2 = 5,
    and every row height is even, so half of it is exact. */
module TableLayout {
  import opened Strings
  import opened ExcalidrawFormat
  import MarkdownTable

  type Grid = MarkdownTable.Grid

  const CELL_WIDTH := 200
  const CELL_HEIGHT := 60
  const PADDING := 10
  const FONT_SIZE := 20
  const FONT_FAMILY := 1

  function Max(a: int, b: int): int {
    if a < b then b else a
  }

  /** The width a cell asks for: its whole length, newlines included, at
      `FONT_SIZE * 0.6` = 12 per character. */
  function TextWidth(cell: string): int {
    |cell| * 12 + PADDING * 2
  }

  /** The number of lines of a cell, `cell.split('\n').length`. */
  function LineCount(cell: string): (n: nat)
    ensures n == Count(cell, '\n') + 1
  {
    |Split(cell, '\n')|
  }

  /** The height of a cell's lines, at `FONT_SIZE * 1.2` = 24 per line. */
  function TextHeight(cell: string): int {
    LineCount(cell) * 24
  }

  /** The height a cell asks of its row: its text height plus padding when
      that text is taller than a bare cell, a bare cell otherwise. */
  function CellHeight(cell: string): int {
    if TextHeight(cell) > CELL_HEIGHT then TextHeight(cell) + PADDING * 2 else CELL_HEIGHT
  }

  /** The height of a row: the tallest of its cells, and never less than
      a bare cell. */
  function RowHeight(row: seq<string>): int {
    if row == [] then CELL_HEIGHT
    else Max(RowHeight(row[..|row| - 1]), CellHeight(row[|row| - 1]))
  }

  /** The width of column `c` over `rows`: the widest of the cells the rows
      have at `c`, and never less than a bare cell. Rows too short to have
      a cell at `c` do not take part. */
  function ColumnWidth(rows: Grid, c: nat): int {
    if rows == [] then CELL_WIDTH
    else
      var last := rows[|rows| - 1];
      Max(ColumnWidth(rows[..|rows| - 1], c),
          if c < |last| then TextWidth(last[c]) else CELL_WIDTH)
  }

  /** The left edge of column `c`: the widths of the columns before it. */
  function ColumnX(data: Grid, c: nat): int {
    if c == 0 then 0 else ColumnX(data, c - 1) + ColumnWidth(data, c - 1)
  }

  /** The top edge of row `r`: the heights of the rows above it. */
  function RowY(data: Grid, r: nat): int
    requires r <= |data|
  {
    if r == 0 then 0 else RowY(data, r - 1) + RowHeight(data[r - 1])
  }

  /** The number of cells in the rows above row `r`. */
  function CellsBefore(data: Grid, r: nat): nat
    requires r <= |data|
  {
    if r == 0 then 0 else CellsBefore(data, r - 1) + |data[r - 1]|
  }

  function CellCount(data: Grid): nat {
    CellsBefore(data, |data|)
  }

  lemma {:induction false} CellsBeforeMonotone(data: Grid, r: nat, r': nat)
    requires r <= r' <= |data|
    ensures CellsBefore(data, r) <= CellsBefore(data, r')
    decreases r' - r
  {
    if r < r' {
      CellsBeforeMonotone(data, r, r' - 1);
    }
  }

  /** The position of cell (r, c) in row-major order. */
  function CellIndex(data: Grid, r: nat, c: nat): (k: nat)
    requires r < |data| && c < |data[r]|
    ensures k < CellCount(data)
  {
    CellsBeforeMonotone(data, r + 1, |data|);
    CellsBefore(data, r) + c
  }

  predicate IsCell(data: Grid, r: int, c: int) {
    0 <= r < |data| && 0 <= c < |data[r]|
  }

  /** The counter's value when row `r` starts: two ids are drawn per cell
      of the rows above it. */
  function RowFirstId(data: Grid, r: nat, firstId: Id): Id
    requires r <= |data|
  {
    firstId + 2 * CellsBefore(data, r)
  }

  /** The rectangle drawn for cell (r, c) when the counter stood at
      `rowId` as row `r` started: it takes id `rowId + 2c`, and its text
      the next id. */
  function CellRectangle(data: Grid, r: nat, c: nat, rowId: Id): Element
    requires IsCell(data, r, c)
  {
    var id := rowId + 2 * c;
    BoundRectangle(id, ColumnX(data, c), RowY(data, r), ColumnWidth(data, c),
                   RowHeight(data[r]), id + 1)
  }

  /** A rectangle whose only bound element is the text with id `textId`. */
  function BoundRectangle(id: Id, x: int, y: int, width: int, height: int, textId: Id): Element {
    Rectangle(id, x, y, width, height, [BoundElement("text", textId)])
  }

  /** The text element bound into `container`: inset by half the padding on
      each side, its block of lines centred vertically, `content` as both
      the shown and the original text. */
  function BoundText(container: Element, content: string, id: Id): Element
    requires container.Rectangle?
  {
    Text(id,
         container.x + PADDING / 2,
         container.y + container.height / 2 - LineCount(content) * 10,  // lines * FONT_SIZE / 2
         container.width - PADDING,
         container.height - PADDING,
         content, content, container.id,
         FONT_SIZE, FONT_FAMILY, "center", "middle")
  }

  /** The text of cell (r, c), bound into its rectangle. */
  function CellText(data: Grid, r: nat, c: nat, rowId: Id): Element
    requires IsCell(data, r, c)
  {
    BoundText(CellRectangle(data, r, c, rowId), data[r][c], rowId + 2 * c + 1)
  }

  // Column widths and row heights

  /** A column is as wide as its widest cell needs and at least a bare
      cell, and no wider: its width is the bare width or some cell's. */
  lemma {:induction false} ColumnWidthIsMax(rows: Grid, c: nat)
    ensures ColumnWidth(rows, c) >= CELL_WIDTH
    ensures forall r | 0 <= r < |rows| && c < |rows[r]| :: ColumnWidth(rows, c) >= TextWidth(rows[r][c])
    ensures ColumnWidth(rows, c) == CELL_WIDTH
            || exists r | 0 <= r < |rows| && c < |rows[r]| :: ColumnWidth(rows, c) == TextWidth(rows[r][c])
  {
    if rows != [] {
      var init := rows[..|rows| - 1];
      ColumnWidthIsMax(init, c);
      assert forall r | 0 <= r < |init| :: init[r] == rows[r];
    }
  }

  /** A row is as tall as its tallest cell needs and at least a bare cell,
      and no taller: its height is the bare height or that of a cell whose
      lines are taller than a bare cell. */
  lemma RowHeightIsMax(row: seq<string>)
    ensures RowHeight(row) >= CELL_HEIGHT
    ensures forall j | 0 <= j < |row| :: RowHeight(row) >= CellHeight(row[j])
    ensures RowHeight(row) == CELL_HEIGHT
            || exists j | 0 <= j < |row| :: TextHeight(row[j]) > CELL_HEIGHT
                                           && RowHeight(row) == TextHeight(row[j]) + PADDING * 2
  {
    RowHeightBounds(row);
    RowHeightAttained(row);
  }

  lemma {:induction false} RowHeightBounds(row: seq<string>)
    ensures RowHeight(row) >= CELL_HEIGHT
    ensures forall j | 0 <= j < |row| :: RowHeight(row) >= CellHeight(row[j])
  {
    if row != [] {
      var init := row[..|row| - 1];
      RowHeightBounds(init);
      assert forall j | 0 <= j < |init| :: init[j] == row[j];
    }
  }

  lemma {:induction false} RowHeightAttained(row: seq<string>)
    ensures RowHeight(row) == CELL_HEIGHT
            || exists j | 0 <= j < |row| :: TextHeight(row[j]) > CELL_HEIGHT
                                           && RowHeight(row) == TextHeight(row[j]) + PADDING * 2
  {
    if row != [] {
      var init, last := row[..|row| - 1], |row| - 1;
      RowHeightAttained(init);
      if RowHeight(init) < CellHeight(row[last]) {
        assert TextHeight(row[last]) > CELL_HEIGHT;
      } else if RowHeight(init) != CELL_HEIGHT {
        var j :| 0 <= j < |init| && TextHeight(init[j]) > CELL_HEIGHT
                 && RowHeight(init) == TextHeight(init[j]) + PADDING * 2;
        assert row[j] == init[j];
      }
    }
  }

  /** A row is taller than the block of lines of any of its cells. */
  lemma RowHeightFitsLines(row: seq<string>, j: nat)
    requires j < |row|
    ensures RowHeight(row) > LineCount(row[j]) * 20
  {
    RowHeightIsMax(row);
    assert RowHeight(row) >= CellHeight(row[j]);
  }

  /** Every row height is even, so the half height the text is centred on
      is a whole number. */
  lemma {:induction false} RowHeightEven(row: seq<string>)
    ensures RowHeight(row) % 2 == 0
  {
    if row != [] {
      RowHeightEven(row[..|row| - 1]);
      HeightsEven(LineCount(row[|row| - 1]));
    }
  }

  /** The two heights a cell can ask for are even, whatever its number of
      lines. */
  lemma HeightsEven(lines: nat)
    ensures CELL_HEIGHT % 2 == 0 && (lines * 24 + PADDING * 2) % 2 == 0
  {
    var half := lines * 12 + PADDING;
    assert lines * 24 + PADDING * 2 == 2 * half;
  }

  // Positions

  /** Column edges are prefix sums of the widths: each column starts
      where every earlier one has ended. */
  lemma {:induction false} ColumnXAfter(data: Grid, c: nat, c': nat)
    requires c < c'
    ensures ColumnX(data, c') >= ColumnX(data, c) + ColumnWidth(data, c)
    decreases c' - c
  {
    if c + 1 < c' {
      ColumnXAfter(data, c, c' - 1);
      ColumnWidthIsMax(data, c' - 1);
    }
  }

  /** Row edges are prefix sums of the heights: each row starts where
      every row above it has ended. */
  lemma {:induction false} RowYAfter(data: Grid, r: nat, r': nat)
    requires r < r' <= |data|
    ensures RowY(data, r') >= RowY(data, r) + RowHeight(data[r])
    decreases r' - r
  {
    if r + 1 < r' {
      RowYAfter(data, r, r' - 1);
      RowHeightIsMax(data[r' - 1]);
    }
  }

  // The cells

  /** Cells are numbered in row-major order: a cell in an earlier row, or
      further left in the same row, comes first. */
  lemma CellIndexRowMajor(data: Grid, r: nat, c: nat, r': nat, c': nat)
    requires IsCell(data, r, c) && IsCell(data, r', c')
    requires r < r' || (r == r' && c < c')
    ensures CellIndex(data, r, c) < CellIndex(data, r', c')
  {
    if r < r' {
      CellsBeforeMonotone(data, r + 1, r');
    }
  }

  /** Every position below the cell count is the position of some cell, so
      the cells number the element pairs without a gap. */
  lemma CellIndexOnto(data: Grid, k: nat)
    requires k < CellCount(data)
    ensures exists r, c | IsCell(data, r, c) :: CellIndex(data, r, c) == k
  {
    var r, c := CellAt(data, k, |data|);
  }

  /** The cell at row-major position `k`, found among the rows above row
      `r`. */
  lemma {:induction false} CellAt(data: Grid, k: nat, r: nat) returns (r0: nat, c: nat)
    requires r <= |data| && k < CellsBefore(data, r)
    ensures IsCell(data, r0, c) && r0 < r && CellIndex(data, r0, c) == k
  {
    if CellsBefore(data, r - 1) <= k {
      r0, c := r - 1, k - CellsBefore(data, r - 1);
    } else {
      r0, c := CellAt(data, k, r - 1);
    }
  }

  /** Ids follow the cells in row-major order: with the counter starting
      at `firstId`, the rectangle of the cell at row-major position k gets
      `firstId + 2k` and its text `firstId + 2k + 1`. */
  lemma CellIds(data: Grid, r: nat, c: nat, firstId: Id)
    requires IsCell(data, r, c)
    ensures CellRectangle(data, r, c, RowFirstId(data, r, firstId)).id == firstId + 2 * CellIndex(data, r, c)
    ensures CellText(data, r, c, RowFirstId(data, r, firstId)).id == firstId + 2 * CellIndex(data, r, c) + 1
  {
  }

  /** Each rectangle lists exactly its own text as bound element, that text
      names the rectangle as its container, and both the shown and the
      original text are the cell's content. */
  lemma CellBinding(data: Grid, r: nat, c: nat, rowId: Id)
    requires IsCell(data, r, c)
    ensures var rect := CellRectangle(data, r, c, rowId);
            var text := CellText(data, r, c, rowId);
            rect.Rectangle? && text.Text?
            && rect.boundElements == [BoundElement("text", text.id)]
            && text.containerId == rect.id
            && text.text == data[r][c] && text.originalText == data[r][c]
  {
  }

  /** The text of a cell sits inside its rectangle: inset by 5 on the left
      and the right, its block of lines (FONT_SIZE each) centred on the
      rectangle's middle and strictly within its top and bottom edges. */
  lemma CellTextInsideRectangle(data: Grid, r: nat, c: nat, rowId: Id)
    requires IsCell(data, r, c)
    ensures var rect := CellRectangle(data, r, c, rowId);
            var text := CellText(data, r, c, rowId);
            var block := LineCount(data[r][c]) * 20;
            text.x == rect.x + PADDING / 2
            && text.x + text.width + PADDING / 2 == rect.x + rect.width
            && 2 * text.y + block == 2 * rect.y + rect.height
            && rect.y < text.y && text.y + block < rect.y + rect.height
  {
    RowHeightFitsLines(data[r], c);
    RowHeightEven(data[r]);
  }

  /** Rectangles of two different cells do not overlap. */
  lemma CellRectanglesDisjoint(data: Grid, r: nat, c: nat, r': nat, c': nat, rowId: Id, rowId': Id)
    requires IsCell(data, r, c) && IsCell(data, r', c') && (r, c) != (r', c')
    ensures var a := CellRectangle(data, r, c, rowId);
            var b := CellRectangle(data, r', c', rowId');
            a.x + a.width <= b.x || b.x + b.width <= a.x
            || a.y + a.height <= b.y || b.y + b.height <= a.y
  {
    if r < r' {
      RowYAfter(data, r, r');
    } else if r' < r {
      RowYAfter(data, r', r);
    } else if c < c' {
      ColumnXAfter(data, c, c');
    } else {
      ColumnXAfter(data, c', c);
    }
  }
}
