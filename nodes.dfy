/**
 * tree/Node.go. A node holds a term and three pointers. The tree keeps its
 * nodes in one store (see Trees), so a pointer is the index of a node in that
 * store, and `None` is nil.
 */
module Nodes {
  import opened Wrappers
  import opened Documents
  import opened Terms

  datatype Node = Node(value: Term, left: Option<nat>, right: Option<nat>, parent: Option<nat>)

  /** `NewNode`: a node holding `term`, with nil left, right and parent pointers. */
  function NewNode(term: Term): (node: Node)
    ensures node.value == term
    ensures node.left.None? && node.right.None? && node.parent.None?
  {
    Node(term, None, None, None)
  }

  /**
   * `Node.FindDocument`, which scans `node.Value.Documents`: the position of the
   * first document whose name is exactly `documentName` (case-sensitive), or
   * None when no document has that name.
   */
  function FindDocument(documents: seq<Document>, documentName: string): (r: Option<nat>)
    ensures r.Some? ==> r.value < |documents| && documents[r.value].documentName == documentName
    ensures r.Some? ==> forall j | 0 <= j < r.value :: documents[j].documentName != documentName
    ensures r.None? <==> forall j | 0 <= j < |documents| :: documents[j].documentName != documentName
  {
    if |documents| == 0 then None
    else if documents[0].documentName == documentName then Some(0)
    else
      match FindDocument(documents[1..], documentName)
      case None => None
      case Some(j) => Some(j + 1)
  }
}
