/** `convertToExcalidraw`: the two-pass layout of a grid. The first pass
    fills the column widths in place; the second walks the rows with a
    running `y`, works out each row's height, and walks its cells with a
    running `x`, pushing a rectangle and its bound text per cell. Element
    ids are drawn from a counter that starts at `firstId`. */
module ExcalidrawConvert {
  import opened Sequences
  import opened ExcalidrawFormat
  import opened TableLayout

  /** `data.map(row => row.length)`. */
  function RowLengths(data: Grid): (lengths: seq<int>)
    ensures |lengths| == |data|
    ensures forall r | 0 <= r < |data| :: lengths[r] == |data[r]|
  {
    seq(|data|, r requires 0 <= r < |data| => |data[r]|)
  }

  /** The first pass: `columnWidths` starts at the bare cell width and is
      raised, cell by cell, to any wider cell's text width. */
  method ComputeColumnWidths(data: Grid, columnCount: nat) returns (widths: seq<int>)
    requires forall r | 0 <= r < |data| :: |data[r]| <= columnCount
    ensures |widths| == columnCount
    ensures forall c | 0 <= c < columnCount :: widths[c] == ColumnWidth(data, c)
  {
    var columnWidths := new int[columnCount](_ => CELL_WIDTH);
    for r := 0 to |data|
      invariant forall c | 0 <= c < columnCount :: columnWidths[c] == ColumnWidth(data[..r], c)
    {
      var row := data[r];
      assert data[..r + 1][..r] == data[..r];
      for c := 0 to |row|
        invariant forall j | 0 <= j < c :: columnWidths[j] == ColumnWidth(data[..r + 1], j)
        invariant forall j | c <= j < columnCount :: columnWidths[j] == ColumnWidth(data[..r], j)
      {
        var textWidth := TextWidth(row[c]);
        if textWidth > columnWidths[c] {
          columnWidths[c] := textWidth;
        }
      }
      forall j | |row| <= j < columnCount
        ensures ColumnWidth(data[..r + 1], j) == ColumnWidth(data[..r], j)
      {
        ColumnWidthIsMax(data[..r], j);
      }
    }
    assert data[..|data|] == data;
    widths := columnWidths[..];
  }

  /** A row's height: `rowHeights` starts at the bare cell height in every
      column, a cell whose lines are taller raises its own column's entry
      to that height plus padding, and the row takes the largest entry. */
  method MaxRowHeight(row: seq<string>, columnCount: nat) returns (maxRowHeight: int)
    requires 0 < columnCount && |row| <= columnCount
    ensures maxRowHeight == RowHeight(row)
  {
    var rowHeights := new int[columnCount](_ => CELL_HEIGHT);
    for c := 0 to |row|
      invariant forall j | 0 <= j < c :: rowHeights[j] == CellHeight(row[j])
      invariant forall j | c <= j < columnCount :: rowHeights[j] == CELL_HEIGHT
    {
      var textHeight := TextHeight(row[c]);
      if textHeight > rowHeights[c] {
        rowHeights[c] := textHeight + PADDING * 2;
      }
    }
    var heights := rowHeights[..];
    maxRowHeight := MaxOf(heights);
    RowHeightIsMax(row);
    assert heights[0] >= CELL_HEIGHT;
    if RowHeight(row) != CELL_HEIGHT {
      var j :| 0 <= j < |row| && TextHeight(row[j]) > CELL_HEIGHT
               && RowHeight(row) == TextHeight(row[j]) + PADDING * 2;
      assert heights[j] == RowHeight(row);
    }
  }

  lemma {:induction false} NoCellsInEmptyRows(data: Grid, r: nat)
    requires r <= |data|
    requires forall i | 0 <= i < |data| :: |data[i]| == 0
    ensures CellsBefore(data, r) == 0
  {
    if r > 0 {
      NoCellsInEmptyRows(data, r - 1);
    }
  }

  /** One row of the second pass: walks the row's cells with a running `x`
      from the left edge, and for each cell draws two ids from the counter,
      which stands at `next` when the row starts, and emits a rectangle of
      the column's width and the row's height at (x, y), then the text
      bound into it. */
  method LayOutRow(data: Grid, r: nat, columnWidths: seq<int>, y: int, maxRowHeight: int,
                   next: Id) returns (cells: seq<Element>, nextId: Id)
    requires r < |data| && |data[r]| <= |columnWidths|
    requires forall c | 0 <= c < |data[r]| :: columnWidths[c] == ColumnWidth(data, c)
    requires y == RowY(data, r) && maxRowHeight == RowHeight(data[r])
    ensures |cells| == 2 * |data[r]|
    ensures forall c | 0 <= c < |data[r]| ::
              cells[2 * c] == CellRectangle(data, r, c, next)
              && cells[2 * c + 1] == CellText(data, r, c, next)
    ensures nextId == next + 2 * |data[r]|
  {
    var row := data[r];
    cells := [];
    var x := 0;
    var id := next;
    for c := 0 to |row|
      invariant x == ColumnX(data, c)
      invariant id == next + 2 * c
      invariant |cells| == 2 * c
      invariant forall c' | 0 <= c' < c ::
                  cells[2 * c'] == CellRectangle(data, r, c', next)
                  && cells[2 * c' + 1] == CellText(data, r, c', next)
    {
      ExtendRow(data, r, c, next, cells);
      x, id, cells := PlaceCell(data, r, c, columnWidths[c], y, maxRowHeight, x, next, id, cells);
    }
    nextId := id;
  }

  /** Appending cell c's two elements to the elements of cells 0 to c - 1
      gives the elements of cells 0 to c. */
  lemma ExtendRow(data: Grid, r: nat, c: nat, next: Id, cells: seq<Element>)
    requires IsCell(data, r, c) && |cells| == 2 * c
    requires forall c' | 0 <= c' < c ::
               cells[2 * c'] == CellRectangle(data, r, c', next)
               && cells[2 * c' + 1] == CellText(data, r, c', next)
    ensures var cells' := cells + [CellRectangle(data, r, c, next), CellText(data, r, c, next)];
            |cells'| == 2 * (c + 1)
            && forall c' | 0 <= c' < c + 1 ::
                 cells'[2 * c'] == CellRectangle(data, r, c', next)
                 && cells'[2 * c' + 1] == CellText(data, r, c', next)
  {
  }

  /** The body of the walk over a row's cells, for cell (r, c): draws two
      ids from the counter, pushes a rectangle of the column's width and
      the row's height at (x, y) and the text bound into it, and moves `x`
      right by the column's width. */
  method PlaceCell(data: Grid, r: nat, c: nat, cellWidth: int, y: int, maxRowHeight: int,
                   x: int, next: Id, id: Id, cells: seq<Element>)
    returns (x': int, id': Id, cells': seq<Element>)
    requires IsCell(data, r, c) && cellWidth == ColumnWidth(data, c)
    requires x == ColumnX(data, c) && y == RowY(data, r) && maxRowHeight == RowHeight(data[r])
    requires id == next + 2 * c
    ensures x' == ColumnX(data, c + 1) && id' == id + 2
    ensures cells' == cells + [CellRectangle(data, r, c, next), CellText(data, r, c, next)]
  {
    var rectangleId := id;
    var textId := id + 1;
    id' := id + 2;
    var rectangle := BoundRectangle(rectangleId, x, y, cellWidth, maxRowHeight, textId);
    var text := BoundText(rectangle, data[r][c], textId);
    cells' := cells + [rectangle, text];
    x' := x + cellWidth;
  }

  /** The elements of the rows above row `r` are all in place. */
  ghost predicate RowsPlaced(data: Grid, elements: seq<Element>, firstId: Id, r: nat)
    requires r <= |data|
  {
    |elements| == 2 * CellsBefore(data, r)
    && forall r', c | IsCell(data, r', c) && r' < r ::
         2 * CellIndex(data, r', c) + 1 < |elements|
         && elements[2 * CellIndex(data, r', c)] == CellRectangle(data, r', c, RowFirstId(data, r', firstId))
         && elements[2 * CellIndex(data, r', c) + 1] == CellText(data, r', c, RowFirstId(data, r', firstId))
  }

  lemma AppendRow(data: Grid, before: seq<Element>, cells: seq<Element>, firstId: Id, r: nat)
    requires r < |data| && RowsPlaced(data, before, firstId, r)
    requires |cells| == 2 * |data[r]|
    requires forall c | 0 <= c < |data[r]| ::
               cells[2 * c] == CellRectangle(data, r, c, RowFirstId(data, r, firstId))
               && cells[2 * c + 1] == CellText(data, r, c, RowFirstId(data, r, firstId))
    ensures RowsPlaced(data, before + cells, firstId, r + 1)
  {
    var elements := before + cells;
    forall r', c | IsCell(data, r', c) && r' <= r
      ensures 2 * CellIndex(data, r', c) + 1 < |elements|
              && elements[2 * CellIndex(data, r', c)] == CellRectangle(data, r', c, RowFirstId(data, r', firstId))
              && elements[2 * CellIndex(data, r', c) + 1] == CellText(data, r', c, RowFirstId(data, r', firstId))
    {
      if r' == r {
        assert elements[2 * CellIndex(data, r, c)] == cells[2 * c];
        assert elements[2 * CellIndex(data, r, c) + 1] == cells[2 * c + 1];
      }
    }
  }

  /** An empty grid gives the empty envelope. Otherwise the document holds
      two elements per cell: for the cell at (r, c), its rectangle at
      position 2k and its bound text at 2k + 1, where k counts the cells
      before it in row-major order, both laid out as `CellRectangle` and
      `CellText` say with the counter's value at the start of row r. The
      counter ends two ids per cell further on. */
  method ConvertToExcalidraw(data: Grid, firstId: Id) returns (doc: Document, nextId: Id)
    ensures |data| == 0 ==> doc == EmptyDocument
    ensures |data| > 0 ==> doc.kind == "excalidraw" && doc.version == 2
                           && doc.source == "https://excalidraw.com"
                           && doc.appState == AppState(None, "#F9FAFB", "light")
    ensures |doc.elements| == 2 * CellCount(data)
    ensures forall r, c | IsCell(data, r, c) ::
              doc.elements[2 * CellIndex(data, r, c)] == CellRectangle(data, r, c, RowFirstId(data, r, firstId))
              && doc.elements[2 * CellIndex(data, r, c) + 1] == CellText(data, r, c, RowFirstId(data, r, firstId))
    ensures nextId == firstId + 2 * CellCount(data)
  {
    if |data| == 0 {
      return EmptyDocument, firstId;
    }
    var columnCount := MaxOf(RowLengths(data));
    if columnCount == 0 {
      // Every row is empty: nothing is pushed.
      NoCellsInEmptyRows(data, |data|);
      return TableDocument([]), firstId;
    }
    var columnWidths := ComputeColumnWidths(data, columnCount);
    var elements: seq<Element> := [];
    var next := firstId;
    var y := 0;
    for r := 0 to |data|
      invariant y == RowY(data, r)
      invariant next == RowFirstId(data, r, firstId)
      invariant RowsPlaced(data, elements, firstId, r)
    {
      var maxRowHeight := MaxRowHeight(data[r], columnCount);
      var cells, rowEnd := LayOutRow(data, r, columnWidths, y, maxRowHeight, next);
      AppendRow(data, elements, cells, firstId, r);
      elements := elements + cells;
      next := rowEnd;
      y := y + maxRowHeight;
    }
    doc := TableDocument(elements);
    nextId := next;
  }

  /** What `ConvertToExcalidraw` promises, read off the flat list: it
      alternates rectangle, text, and every rectangle is bound to exactly
      the text right after it, which names that rectangle as its container
      and shows its original text. */
  lemma DocumentBindings(data: Grid, elements: seq<Element>, firstId: Id)
    requires |elements| == 2 * CellCount(data)
    requires forall r, c | IsCell(data, r, c) ::
               elements[2 * CellIndex(data, r, c)] == CellRectangle(data, r, c, RowFirstId(data, r, firstId))
               && elements[2 * CellIndex(data, r, c) + 1] == CellText(data, r, c, RowFirstId(data, r, firstId))
    ensures forall k | 0 <= k < CellCount(data) :: IsBoundPair(elements[2 * k], elements[2 * k + 1])
  {
    forall k | 0 <= k < CellCount(data)
      ensures IsBoundPair(elements[2 * k], elements[2 * k + 1])
    {
      BoundPairAt(data, elements, firstId, k);
    }
  }

  lemma BoundPairAt(data: Grid, elements: seq<Element>, firstId: Id, k: nat)
    requires |elements| == 2 * CellCount(data) && k < CellCount(data)
    requires forall r, c | IsCell(data, r, c) ::
               elements[2 * CellIndex(data, r, c)] == CellRectangle(data, r, c, RowFirstId(data, r, firstId))
               && elements[2 * CellIndex(data, r, c) + 1] == CellText(data, r, c, RowFirstId(data, r, firstId))
    ensures IsBoundPair(elements[2 * k], elements[2 * k + 1])
  {
    var r, c := CellAt(data, k, |data|);
    var rowId := RowFirstId(data, r, firstId);
    assert elements[2 * k] == CellRectangle(data, r, c, rowId);
    assert elements[2 * k + 1] == CellText(data, r, c, rowId);
    CellBinding(data, r, c, rowId);
  }

  /** A rectangle and the text bound into it. */
  predicate IsBoundPair(rect: Element, text: Element) {
    rect.Rectangle? && text.Text?
    && rect.boundElements == [BoundElement("text", text.id)]
    && text.containerId == rect.id
    && text.text == text.originalText
  }
}
