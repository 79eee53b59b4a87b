/**
 * The value types of the `document` package (document/PatternMatch.go,
 * document/FileIndexMatch.go, document/DocumentIndex.go) and the operations of
 * document/Document.go.
 */
module Documents {

  /** One match of a pattern in a document: its captures, start offset and matched text (Go field `Match`). */
  datatype PatternMatch = PatternMatch(captures: seq<string>, location: int, matchText: string)

  /** A match as the scanner produces it, together with the key it is filed under. */
  datatype FileIndexMatch = FileIndexMatch(captures: seq<string>, key: string, location: int, matchText: string)

  /** A document (a file, by name) and the matches found in it, in order. */
  datatype Document = Document(documentName: string, matches: seq<PatternMatch>)

  /** One file's scan result: for each key, the document that holds its matches. */
  type DocumentIndex = map<string, Document>

  /**
   * `Document.HasMatchIndex`: some match of the document starts at `indexToFind`.
   * Only the location is compared; match text and captures play no part.
   */
  function HasMatchIndex(doc: Document, indexToFind: int): (r: bool)
    ensures r <==> exists j | 0 <= j < |doc.matches| :: doc.matches[j].location == indexToFind
    decreases |doc.matches|
  {
    if |doc.matches| == 0 then false
    else if doc.matches[0].location == indexToFind then true
    else
      var rest := doc.(matches := doc.matches[1..]);
      assert forall j | 0 <= j < |rest.matches| :: rest.matches[j] == doc.matches[j + 1];
      HasMatchIndex(rest, indexToFind)
  }

  /** `NewDocument`: a document with the given name and no matches. */
  function NewDocument(documentName: string): (doc: Document)
    ensures doc.documentName == documentName
    ensures forall i: int :: !HasMatchIndex(doc, i)
  {
    Document(documentName, [])
  }
}
