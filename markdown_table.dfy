/** `parseMarkdownTable`: pipe-table text to a grid of cell strings.
    It trims the input, splits it into lines, keeps the trimmed lines that
    contain a pipe, drops the separator lines and cuts each remaining line
    at its pipes, dropping the first and the last piece. No emphasis marker
    is stripped, and a line that yields no cell still yields a row. */
module MarkdownTable {
  import opened Strings
  import opened Sequences

  /** Rows of cells; rows may differ in length. */
  type Grid = seq<seq<string>>

  predicate HasPipe(line: string) {
    '|' in line
  }

  /** Every line of the trimmed input, itself trimmed. */
  function TrimmedLines(markdown: string): (lines: seq<string>)
    ensures |lines| == Count(Trim(markdown), '\n') + 1
  {
    var raw := Split(Trim(markdown), '\n');
    seq(|raw|, i requires 0 <= i < |raw| => Trim(raw[i]))
  }

  /** The trimmed lines that contain a pipe, in input order. */
  function PipeLines(markdown: string): seq<string> {
    Filter(HasPipe, TrimmedLines(markdown))
  }

  /** A line made only of pipes, spaces and dashes once its colons are
      removed (`/^[| -]+$/` on `line.replace(/:/g, '')`). */
  predicate IsSeparatorLine(line: string) {
    var t := RemoveAll(line, ':');
    |t| > 0 && forall i | 0 <= i < |t| :: t[i] == '|' || t[i] == ' ' || t[i] == '-'
  }

  /** The separator test read on the line itself: it holds some character
      other than a colon, and every character is a pipe, a space, a dash
      or a colon. */
  lemma SeparatorLineChars(line: string)
    ensures IsSeparatorLine(line) <==>
              Count(line, ':') < |line|
              && forall i | 0 <= i < |line| ::
                   line[i] == '|' || line[i] == ' ' || line[i] == '-' || line[i] == ':'
  {
    var t := RemoveAll(line, ':');
    if IsSeparatorLine(line) {
      forall i | 0 <= i < |line|
        ensures line[i] == '|' || line[i] == ' ' || line[i] == '-' || line[i] == ':'
      {
        if line[i] != ':' {
          assert line[i] in t;
          var k :| 0 <= k < |t| && t[k] == line[i];
        }
      }
    }
    if Count(line, ':') < |line|
       && forall i | 0 <= i < |line| ::
            line[i] == '|' || line[i] == ' ' || line[i] == '-' || line[i] == ':'
    {
      forall k | 0 <= k < |t| ensures t[k] == '|' || t[k] == ' ' || t[k] == '-' {
        assert t[k] in line;
        var i :| 0 <= i < |line| && line[i] == t[k];
      }
    }
  }

  predicate IsContentLine(line: string) {
    !IsSeparatorLine(line)
  }

  /** `s.slice(1, -1)`: everything but the first and the last element. */
  function Interior<T>(s: seq<T>): (r: seq<T>)
    ensures |r| == if |s| < 2 then 0 else |s| - 2
    ensures forall j | 0 <= j < |r| :: r[j] == s[j + 1]
  {
    if |s| < 2 then [] else s[1..|s| - 1]
  }

  /** The cells of one line: its pipe-separated pieces, trimmed, without
      the first and the last. */
  function RowCells(line: string): seq<string> {
    var pieces := Split(line, '|');
    Interior(seq(|pieces|, i requires 0 <= i < |pieces| => Trim(pieces[i])))
  }

  function ParseMarkdownTable(markdown: string): (grid: Grid)
    ensures |grid| <= |PipeLines(markdown)|
  {
    if Trim(markdown) == [] then [] else TableRows(PipeLines(markdown))
  }

  /** The parser once the lines with a pipe are known: fewer than two give
      the empty grid; otherwise every line that is not a separator gives
      the row of its cells. */
  function TableRows(lines: seq<string>): (grid: Grid)
    ensures |grid| <= |lines|
  {
    if |lines| < 2 then []
    else
      var content := Filter(IsContentLine, lines);
      seq(|content|, i requires 0 <= i < |content| => RowCells(content[i]))
  }

  /** The early return for blank input changes nothing: blank input has
      no line with a pipe, which the line count check already turns into
      the empty grid. */
  lemma ParseViaPipeLines(markdown: string)
    ensures ParseMarkdownTable(markdown) == TableRows(PipeLines(markdown))
  {
    if Trim(markdown) == [] {
      BlankHasNoPipeLines(markdown);
    }
  }

  /** The kept lines are exactly the trimmed input lines that contain a
      pipe, in input order. */
  lemma PipeLinesShape(markdown: string)
    ensures var all := TrimmedLines(markdown);
            var ix := Indices(HasPipe, all);
            var lines := PipeLines(markdown);
            |lines| == |ix|
            && (forall j | 0 <= j < |lines| :: lines[j] == all[ix[j]])
            && (forall i | 0 <= i < |all| :: '|' in all[i] <==> i in ix)
  {
    FilterIsSubsequence(HasPipe, TrimmedLines(markdown));
  }

  /** Every kept line holds a pipe, is not whitespace at either end, and
      holds no newline. */
  lemma PipeLinesClean(markdown: string)
    ensures forall j | 0 <= j < |PipeLines(markdown)| ::
              var line := PipeLines(markdown)[j];
              '|' in line && IsTrimmed(line) && '\n' !in line
  {
    var all := TrimmedLines(markdown);
    var lines := PipeLines(markdown);
    forall j | 0 <= j < |lines|
      ensures '|' in lines[j] && IsTrimmed(lines[j]) && '\n' !in lines[j]
    {
      FilterIsSubsequence(HasPipe, all);
      TrimmedLineShape(markdown, Indices(HasPipe, all)[j]);
    }
  }

  /** Each trimmed input line is trimmed and holds no newline. */
  lemma TrimmedLineShape(markdown: string, i: nat)
    requires i < |TrimmedLines(markdown)|
    ensures IsTrimmed(TrimmedLines(markdown)[i]) && '\n' !in TrimmedLines(markdown)[i]
  {
    var raw := Split(Trim(markdown), '\n');
    assert TrimmedLines(markdown)[i] == Trim(raw[i]);
    if '\n' in Trim(raw[i]) {
      TrimChars(raw[i], '\n');
    }
  }

  /** A line with k pipes gives k - 1 cells; cell j is the trimmed piece
      between pipe j and pipe j + 1, so it holds no pipe and does not start
      or end with whitespace. A line with no pipe gives no cell. */
  lemma RowCellsShape(line: string)
    ensures var cells := RowCells(line);
            var k := Count(line, '|');
            |cells| == (if k == 0 then 0 else k - 1)
            && forall j | 0 <= j < |cells| ::
                 cells[j] == Trim(Split(line, '|')[j + 1])
                 && IsTrimmed(cells[j]) && '|' !in cells[j]
  {
    var cells := RowCells(line);
    RowCellsLength(line);
    forall j | 0 <= j < |cells|
      ensures cells[j] == Trim(Split(line, '|')[j + 1]) && IsTrimmed(cells[j]) && '|' !in cells[j]
    {
      RowCellAt(line, j);
      PieceHasNoPipe(Split(line, '|')[j + 1]);
    }
  }

  lemma RowCellsLength(line: string)
    ensures var k := Count(line, '|');
            |RowCells(line)| == (if k == 0 then 0 else k - 1)
  {
    var pieces := Split(line, '|');
    assert |pieces| == Count(line, '|') + 1;
  }

  /** Cell j is the trimmed piece after pipe j. */
  lemma RowCellAt(line: string, j: nat)
    requires j < |RowCells(line)|
    ensures j + 1 < |Split(line, '|')|
    ensures RowCells(line)[j] == Trim(Split(line, '|')[j + 1])
  {
    var pieces := Split(line, '|');
    var trimmed := seq(|pieces|, i requires 0 <= i < |pieces| => Trim(pieces[i]));
    assert RowCells(line) == Interior(trimmed);
  }

  lemma PieceHasNoPipe(piece: string)
    requires '|' !in piece
    ensures '|' !in Trim(piece)
  {
    if '|' in Trim(piece) {
      TrimChars(piece, '|');
    }
  }

  /** Once at least two lines hold a pipe, the grid has one row per kept
      line that is not a separator, in input order: row j is the cells of
      the j-th such line, and no separator line gives a row. */
  lemma ParseMarkdownTableRows(markdown: string)
    requires |PipeLines(markdown)| >= 2
    ensures var lines := PipeLines(markdown);
            var ix := Indices(IsContentLine, lines);
            var grid := ParseMarkdownTable(markdown);
            |grid| == |ix|
            && (forall j | 0 <= j < |grid| :: grid[j] == RowCells(lines[ix[j]]))
            && (forall i | 0 <= i < |lines| :: !IsSeparatorLine(lines[i]) <==> i in ix)
  {
    ParseViaPipeLines(markdown);
    FilterIsSubsequence(IsContentLine, PipeLines(markdown));
  }

  /** Blank input holds no line with a pipe. */
  lemma BlankHasNoPipeLines(markdown: string)
    requires Trim(markdown) == []
    ensures PipeLines(markdown) == []
  {
    assert Split(Trim(markdown), '\n') == [""];
    assert TrimmedLines(markdown) == [""];
  }

  /** The grid is empty exactly when fewer than two lines hold a pipe or
      every such line is a separator; in particular blank input gives the
      empty grid. */
  lemma ParseMarkdownTableEmpty(markdown: string)
    ensures ParseMarkdownTable(markdown) == [] <==>
              |PipeLines(markdown)| < 2
              || forall i | 0 <= i < |PipeLines(markdown)| :: IsSeparatorLine(PipeLines(markdown)[i])
    ensures Trim(markdown) == [] ==> ParseMarkdownTable(markdown) == []
  {
    var lines := PipeLines(markdown);
    ParseViaPipeLines(markdown);
    if Trim(markdown) == [] {
      BlankHasNoPipeLines(markdown);
    }
    if |lines| >= 2 {
      FilterEmpty(IsContentLine, lines);
      assert (forall i | 0 <= i < |lines| :: IsSeparatorLine(lines[i]))
             <==> Filter(IsContentLine, lines) == [];
    }
  }
}
