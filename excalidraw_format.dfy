/** The part of the Excalidraw document format that the table converter
    writes: rectangles, the text bound into each of them, and the envelope
    around the element list. Cosmetic and randomised fields are not kept. */
module ExcalidrawFormat {

  /** Element identifiers come from an injected counter. */
  type Id = nat

  datatype Option<T> = None | Some(value: T)

  /** One entry of a rectangle's `boundElements` list: `{type, id}`. */
  datatype BoundElement = BoundElement(kind: string, id: Id)

  datatype Element =
    | Rectangle(id: Id, x: int, y: int, width: int, height: int,
                boundElements: seq<BoundElement>)
    | Text(id: Id, x: int, y: int, width: int, height: int,
           text: string, originalText: string, containerId: Id,
           fontSize: int, fontFamily: int, textAlign: string, verticalAlign: string)

  datatype AppState =
    | EmptyAppState
    | AppState(gridSize: Option<int>, viewBackgroundColor: string, theme: string)

  /** `kind` is the document's `type` field. */
  datatype Document = Document(kind: string, version: int, source: string,
                               elements: seq<Element>, appState: AppState)

  /** What an empty grid converts to. */
  const EmptyDocument: Document :=
    Document("excalidraw", 2, "excalidraw-converter", [], EmptyAppState)

  /** The envelope around the elements of a non-empty grid. */
  function TableDocument(elements: seq<Element>): Document {
    Document("excalidraw", 2, "https://excalidraw.com", elements,
             AppState(None, "#F9FAFB", "light"))
  }
}
