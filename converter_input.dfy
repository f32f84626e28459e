/** The converter's "Convert" action: refuse blank input, try the Markdown
    parser, then the HTML parser, then the CSV parser, and lay out the
    first non-empty grid. The HTML parser needs a browser document parser
    and the CSV parser's code is not part of this model, so their grids
    for the same input are given as parameters. */
module ConverterInput {
  import opened Strings
  import opened MarkdownTable
  import opened ExcalidrawFormat
  import TableLayout
  import ExcalidrawConvert

  datatype ConvertError = EmptyInput | ParsingFailed

  datatype Result<T> = Ok(value: T) | Err(error: ConvertError)

  /** The grid the action lays out: the first non-empty one of the
      Markdown, HTML and CSV grids; an error for blank input or when all
      three are empty. */
  function SelectGrid(input: string, htmlGrid: Grid, csvGrid: Grid): (r: Result<Grid>)
    ensures r == Err(EmptyInput) <==> Trim(input) == []
    ensures r == Err(ParsingFailed) <==>
              Trim(input) != [] && ParseMarkdownTable(input) == [] && htmlGrid == [] && csvGrid == []
    ensures r.Ok? ==>
              r.value != []
              && (r.value == ParseMarkdownTable(input)
                  || (ParseMarkdownTable(input) == []
                      && (r.value == htmlGrid || (htmlGrid == [] && r.value == csvGrid))))
  {
    if Trim(input) == [] then Err(EmptyInput)
    else
      var markdownGrid := ParseMarkdownTable(input);
      if markdownGrid != [] then Ok(markdownGrid)
      else if htmlGrid != [] then Ok(htmlGrid)
      else if csvGrid != [] then Ok(csvGrid)
      else Err(ParsingFailed)
  }

  /** The whole action: the selected grid's document, or the error. */
  method HandleConvert(input: string, htmlGrid: Grid, csvGrid: Grid, firstId: Id)
    returns (outcome: Result<Document>)
    ensures outcome.Err? <==> SelectGrid(input, htmlGrid, csvGrid).Err?
    ensures outcome.Err? ==> outcome.error == SelectGrid(input, htmlGrid, csvGrid).error
    ensures outcome.Ok? ==>
              var grid := SelectGrid(input, htmlGrid, csvGrid).value;
              outcome.value.source == "https://excalidraw.com"
              && |outcome.value.elements| == 2 * TableLayout.CellCount(grid)
  {
    var selected := SelectGrid(input, htmlGrid, csvGrid);
    if selected.Err? {
      return Err(selected.error);
    }
    var doc, _ := ExcalidrawConvert.ConvertToExcalidraw(selected.value, firstId);
    return Ok(doc);
  }
}
