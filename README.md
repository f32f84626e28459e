# Excalidraw table maker: the table-to-Excalidraw core in Dafny

This project models the core of a small web tool that turns a table into an
Excalidraw drawing. The core is `src/lib/table-utils.ts`, which has two parts.

- `parseMarkdownTable` turns pipe-table text into a grid of cell strings. It
  trims the input and splits it into lines. It trims each line and keeps the
  lines that contain a pipe. It returns the empty grid when fewer than two
  such lines are left. It then drops the separator lines and cuts every other
  line at its pipes. Each piece is trimmed, and the first and last pieces
  are dropped.
- `convertToExcalidraw` lays out a grid in two passes. The first pass fills
  an array of column widths in place. The second pass walks the rows with a
  running `y`. For each row it fills an array of per-column heights and takes
  their maximum. It then walks the row's cells with a running `x` and pushes
  one rectangle and one bound text element per cell. The element list is
  wrapped in a fixed document envelope.

The model follows the code, not what a Markdown parser is usually expected to
do:
- no emphasis marker is stripped;
- a line that gives no cell still gives a row (`[]`);
- the first and last pieces of a line are dropped even when they are not
  empty;
- a column's width comes from the whole length of each cell, newlines
  included, not from its longest line.

All geometry is in whole numbers. `FONT_SIZE * 0.6` is 12, `FONT_SIZE * 1.2`
is 24 and `PADDING / 2` is 5. Every row height is even (lemma
`RowHeightEven`), so half a row height is exact.

Modules, one per file:
- `Strings` (`strings.dfy`): the JavaScript built-ins `trim`, `split` on one
  character, and `replace(/x/g, '')`. `includes` is Dafny's `in`.
- `Sequences` (`sequences.dfy`): `filter`, and `Math.max(...xs)` on a
  non-empty list.
- `MarkdownTable` (`markdown_table.dfy`): `parseMarkdownTable` as functions,
  with lemmas about its result.
- `ExcalidrawFormat` (`excalidraw_format.dfy`): elements, the bound-element
  entry and the document envelope.
- `TableLayout` (`table_layout.dfy`): the layout stated cell by cell. Column
  widths and row heights are maxima, and positions are prefix sums of them.
  It also gives the rectangle and the bound text of every cell, with lemmas
  about them.
- `ExcalidrawConvert` (`convert.dfy`): `convertToExcalidraw` as methods with
  arrays and loops. They are proved against `TableLayout`.
- `ConverterInput` (`converter_input.dfy`): the "Convert" action's choice
  among the Markdown, HTML and CSV parsers.

Element ids come from a counter that the caller passes in as `firstId`. The
rectangle of the k-th cell in row-major order gets `firstId + 2k`, and its
text gets the next number.

## Model

| member | source | states |
|---|---|---|
| `Strings.Trim` | src/lib/table-utils.ts:5-6 | `trim` gives a string no longer than the input whose first and last characters are not whitespace |
| `Strings.TrimIsInfix` | src/lib/table-utils.ts:5-6 | what `trim` leaves is the infix of the input at the returned offset, with only whitespace before and after it |
| `Strings.Split` | src/lib/table-utils.ts:6 | `split` on one character gives one more piece than there are separators, and no piece holds the separator |
| `Strings.JoinSplit` | src/lib/table-utils.ts:14 | joining the pieces of a split with the separator gives back the original string |
| `Strings.SplitJoin` | src/lib/table-utils.ts:14 | splitting a join of separator-free pieces gives back the pieces |
| `Strings.RemoveAll` | src/lib/table-utils.ts:10 | `replace(/:/g, '')` removes every colon and keeps every other character, so the length drops by the number of colons |
| `Strings.TrimChars` | src/lib/table-utils.ts:15 | a trimmed string holds only characters of the original |
| `Sequences.Filter` | src/lib/table-utils.ts:6-10 | `filter`: keeps the elements that pass the test, in order, so the result is no longer than the input and every element of it passes |
| `Sequences.FilterIsSubsequence` | src/lib/table-utils.ts:6 | `filter` keeps exactly the elements that pass, in their original order, at ascending original positions |
| `Sequences.FilterEmpty` | src/lib/table-utils.ts:10 | `filter` gives the empty list exactly when no element passes |
| `Sequences.MaxOf` | src/lib/table-utils.ts:59 | `Math.max(...xs)` on a non-empty list is an element of the list and at least every element |
| `MarkdownTable.TrimmedLines` | src/lib/table-utils.ts:6 | the trimmed input gives one line more than it has newlines |
| `MarkdownTable.Interior` | src/lib/table-utils.ts:16 | `slice(1, -1)` drops exactly the first and last elements, and gives nothing for fewer than two |
| `MarkdownTable.PipeLinesShape` | src/lib/table-utils.ts:6 | the kept lines are exactly the trimmed input lines that contain a pipe, in input order |
| `MarkdownTable.PipeLinesClean` | src/lib/table-utils.ts:6 | each kept line holds a pipe, is not whitespace at either end, and has no newline |
| `MarkdownTable.IsSeparatorLine` | src/lib/table-utils.ts:10 | the separator regex applied to `line.replace(/:/g, '')`: with the colons removed, the line is non-empty and made only of pipes, spaces and dashes |
| `MarkdownTable.SeparatorLineChars` | src/lib/table-utils.ts:10 | the separator test holds exactly when the line has a character other than a colon and all of its characters are pipes, spaces, dashes or colons |
| `MarkdownTable.RowCells` | src/lib/table-utils.ts:12-17 | the cells of one line: split at every pipe, each piece trimmed, then `slice(1, -1)`; its shape is stated by `RowCellsShape` |
| `MarkdownTable.TableRows` | src/lib/table-utils.ts:7-17 | the parser once the pipe lines are known: fewer than two give the empty grid, otherwise each non-separator line gives the row of its cells; never more rows than lines |
| `MarkdownTable.ParseViaPipeLines` | src/lib/table-utils.ts:5-7 | the early return for blank input changes no result: parsing always equals the line-count check and row building applied to the pipe lines |
| `MarkdownTable.RowCellsShape` | src/lib/table-utils.ts:12-17 | a line with k pipes gives k - 1 cells (none for k = 0); cell j is the trimmed piece after pipe j, holds no pipe and is trimmed |
| `MarkdownTable.ParseMarkdownTableRows` | src/lib/table-utils.ts:10-17 | with at least two pipe lines, the grid has one row per non-separator line, in input order, even when that row is empty; no separator line gives a row |
| `MarkdownTable.BlankHasNoPipeLines` | src/lib/table-utils.ts:5 | blank input has no line that contains a pipe |
| `MarkdownTable.ParseMarkdownTableEmpty` | src/lib/table-utils.ts:5-10 | the grid is empty exactly when fewer than two lines contain a pipe or all of them are separators; blank input gives the empty grid |
| `MarkdownTable.ParseMarkdownTable` | src/lib/table-utils.ts:4-18 | the grid never has more rows than there are lines with a pipe |
| `TableLayout.LineCount` | src/lib/table-utils.ts:77 | a cell has one more line than it has newlines |
| `TableLayout.CellIndex` | src/lib/table-utils.ts:148 | a cell's row-major position is below the number of cells |
| `TableLayout.TextWidth` | src/lib/table-utils.ts:64 | the width a cell asks for: its length times 12 (`FONT_SIZE * 0.6`), plus twice the padding |
| `TableLayout.ColumnWidth` | src/lib/table-utils.ts:60-69 | the fold over the rows that the in-place width pass performs for one column: start at 200, take the larger of that and each present cell's `TextWidth`; its value is stated by `ColumnWidthIsMax` |
| `TableLayout.CellHeight` | src/lib/table-utils.ts:77-81 | the height a cell asks of its row: `24n + 20` for n lines when `24n` exceeds 60, and 60 otherwise |
| `TableLayout.RowHeight` | src/lib/table-utils.ts:74-84 | the height of a row: the fold of `Math.max` over 60 and its cells' `CellHeight`; its value is stated by `RowHeightIsMax` |
| `TableLayout.ColumnX` | src/lib/table-utils.ts:73-149 | the left edge of column c: 0 at line 73, increased by each earlier column's width as at line 149 |
| `TableLayout.RowY` | src/lib/table-utils.ts:71-152 | the top edge of row r: 0 at line 71, increased by each earlier row's height as at line 152 |
| `TableLayout.ColumnWidthIsMax` | src/lib/table-utils.ts:60-69 | a column's width is at least 200 and at least `len * 12 + 20` of every cell in it; it equals 200 or one of those |
| `TableLayout.RowHeightIsMax` | src/lib/table-utils.ts:74-84 | a row's height is at least 60 and at least every cell's height; it is 60 or `24n + 20` for a cell of n lines with `24n > 60` |
| `TableLayout.RowHeightFitsLines` | src/lib/table-utils.ts:78-84 | a row is taller than `20n` for each of its cells of n lines |
| `TableLayout.RowHeightEven` | src/lib/table-utils.ts:120 | every row height is even, so the half height used for the text is exact |
| `TableLayout.ColumnXAfter` | src/lib/table-utils.ts:73-149 | a column starts at or after the right edge of every earlier column (prefix sums of positive widths) |
| `TableLayout.RowYAfter` | src/lib/table-utils.ts:71-152 | a row starts at or below the bottom edge of every row above it (prefix sums of positive heights) |
| `TableLayout.CellIndexRowMajor` | src/lib/table-utils.ts:72-148 | cells are numbered row by row (the row loop at line 72) and left to right within a row (the cell loop at line 86), the order of the pushes at line 148 |
| `TableLayout.CellIndexOnto` | src/lib/table-utils.ts:148 | every position below the cell count is some cell's position |
| `TableLayout.CellAt` | src/lib/table-utils.ts:72-148 | each position below the number of cells in the first r rows belongs to a returned cell in one of those rows |
| `TableLayout.CellIds` | src/lib/table-utils.ts:88-89 | with the counter starting at `firstId`, the cell at row-major position k gets `firstId + 2k` for its rectangle and `firstId + 2k + 1` for its text |
| `TableLayout.CellRectangle` | src/lib/table-utils.ts:88-114 | cell (r, c)'s rectangle: id `rowId + 2c`, at (`ColumnX`, `RowY`), the column's width and the row's height, bound to the text with the next id |
| `TableLayout.BoundText` | src/lib/table-utils.ts:116-146 | the text bound into a rectangle: 5 in from the left, its lines centred vertically, 10 narrower and lower than the rectangle, the content as text and original text, font size 20, family 1, centred, the rectangle as container |
| `TableLayout.CellText` | src/lib/table-utils.ts:89-146 | cell (r, c)'s text: `BoundText` of its rectangle with the cell content and id `rowId + 2c + 1` |
| `TableLayout.CellBinding` | src/lib/table-utils.ts:88-145 | a cell's rectangle lists exactly its text as `{type: 'text', id}`; the text's container is that rectangle; the text and the original text are both the cell content |
| `TableLayout.CellTextInsideRectangle` | src/lib/table-utils.ts:119-122 | the text sits 5 in from each side; its n lines of 20 are centred on the rectangle's middle, strictly inside its top and bottom |
| `TableLayout.CellRectanglesDisjoint` | src/lib/table-utils.ts:91-97 | the rectangles of two different cells do not overlap |
| `ExcalidrawConvert.RowLengths` | src/lib/table-utils.ts:59 | `data.map(row => row.length)` lists each row's length |
| `ExcalidrawConvert.ComputeColumnWidths` | src/lib/table-utils.ts:60-69 | the in-place pass leaves every column's width equal to `ColumnWidth`, the maximum above |
| `ExcalidrawConvert.MaxRowHeight` | src/lib/table-utils.ts:74-84 | the per-column heights array and its maximum give `RowHeight`, the maximum above |
| `ExcalidrawConvert.LayOutRow` | src/lib/table-utils.ts:86-150 | a row gives two elements per cell, rectangle then text, each equal to that cell's `CellRectangle` and `CellText` for the counter's value at the row's start, with `x` the prefix sum of the widths; the counter ends two ids per cell further on |
| `ExcalidrawConvert.PlaceCell` | src/lib/table-utils.ts:87-149 | one cell pushes exactly its `CellRectangle` and `CellText`, advances the counter by two and moves `x` to the next column's left edge |
| `ExcalidrawConvert.NoCellsInEmptyRows` | src/lib/table-utils.ts:59 | a grid whose rows are all empty has no cells |
| `ExcalidrawConvert.ConvertToExcalidraw` | src/lib/table-utils.ts:49-166 | an empty grid gives the empty envelope; otherwise the fixed envelope, exactly two elements per cell, and the cell at row-major position k gives element 2k (its rectangle) and 2k + 1 (its text), laid out as `CellRectangle`/`CellText` with the counter's value at the start of its row; the counter ends two ids per cell further on |
| `ExcalidrawConvert.DocumentBindings` | src/lib/table-utils.ts:110-148 | in such a list, each even position is a rectangle bound to exactly the text after it, which names the rectangle as its container |
| `ConverterInput.SelectGrid` | src/components/excalidraw-converter.tsx:72-94 | blank input is refused; otherwise the first non-empty grid of Markdown, HTML and CSV is taken, and it is a parse failure exactly when all three are empty |
| `ConverterInput.HandleConvert` | src/components/excalidraw-converter.tsx:71-100 | the action fails exactly when the grid choice fails, with the same error; otherwise it yields a document with two elements per cell of the chosen grid |

## Left out

- `parseHtmlTable` (src/lib/table-utils.ts:21-37) is a wrapper over the browser's `DOMParser`. It is not modelled; its grid is a parameter of `SelectGrid`.
- `parseCsvTable` is imported by src/components/excalidraw-converter.tsx but its code is not part of this model. Its grid is a parameter of `SelectGrid`.
- Random ids: `randomId` is replaced by a counter passed in as `firstId`. The model's ids are distinct, but the source's random ids are not guaranteed to be, so no uniqueness is claimed.
- Nondeterministic and cosmetic element fields are not kept: `seed`, `versionNonce`, `updated`, `angle`, `strokeColor`, `backgroundColor`, `fillStyle`, `strokeWidth`, `strokeStyle`, `roughness`, `opacity`, `version`, `isDeleted`, `link`, `locked`, and the text's `boundElements: null`. `DARK_MODE_STROKE_COLOR` is unused in the source.
- The `!data` guard (line 56) is not modelled: a Dafny sequence cannot be null.
- When the grid has rows but all of them are empty, `Math.max()` of an empty list makes each row's height `-Infinity`. The running `y` then becomes `-Infinity`, but no element is pushed. The model returns the non-empty envelope with no elements at once, which is the same document.
- `.length` in the source counts UTF-16 code units; the model counts Dafny characters. The two agree on text inside the Basic Multilingual Plane.
- Numbers are JavaScript doubles in the source. Every value computed here is a whole number well inside the exact range, so the model uses unbounded integers.
- HandleConvert: its contract gives the envelope source and the element count only, not the per-cell layout; that layout is stated by `ConvertToExcalidraw`.
- The rest of src/components/excalidraw-converter.tsx is not modelled: React state, toasts, file upload, clipboard, and `JSON.stringify` of the document. Neither are the AI flows under src/ai/flows (prompt templates around an external model service), nor the page markup and analytics under src/app and src/components/analytics.tsx.
