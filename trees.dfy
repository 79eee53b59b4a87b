/**
 * tree/Tree.go: the unbalanced binary search tree of terms. The nodes live in
 * the store `nodes` and point at each other by index (see TreeShape); nodes
 * are appended and never removed.
 */
module Trees {
  import opened Wrappers
  import opened Terms
  import opened Nodes
  import opened TreeShape
  import GoStrings

  class Tree {
    var root: Option<nat>
    var nodes: seq<Node>

    /** The tree invariant: consistent pointers, binary-search-tree order, no two equal keys. */
    ghost predicate Valid()
      reads this
    {
      ValidTree(root, nodes)
    }

    /** The terms of the tree, in the order their nodes were added. */
    ghost function Terms(): seq<Term>
      reads this
    {
      TermsOf(nodes)
    }

    /** The indices of the nodes `Search(searchTerm)` returns, in pre-order. */
    ghost function SearchResult(searchTerm: string): (result: seq<nat>)
      reads this
      requires Valid()
      ensures InStore(nodes, result)
    {
      Matching(nodes, PreOrderFrom(nodes, root), searchTerm)
    }

    /** `NewTree`: a tree whose only node, the root, holds `rootTerm`. */
    constructor NewTree(rootTerm: Term)
      ensures Valid()
      ensures root == Some(0) && nodes == [NewNode(rootTerm)]
      ensures Terms() == [rootTerm]
    {
      root := Some(0);
      nodes := [NewNode(rootTerm)];
      new;
      SingletonValid(rootTerm);
    }

    /** `Tree.Find`: a node whose key equals `term`'s ignoring case; None exactly when no node's key does. */
    method Find(term: Term) returns (r: Option<nat>)
      requires Valid()
      ensures r.Some? ==> r.value < |nodes| && Equal(term, nodes[r.value].value)
      ensures r.None? <==> !HasKey(nodes, term)
    {
      var currentNode := root;
      if currentNode.Some? {
        KeyBelowRoot(nodes, term);
      }
      while currentNode.Some?
        invariant currentNode.Some? ==> currentNode.value < |nodes|
        invariant KeyBelow(nodes, term, currentNode)
        decreases if currentNode.Some? then |nodes| - currentNode.value else 0
      {
        var c := currentNode.value;
        assert ChildLinked(nodes, c, nodes[c].left) && ChildLinked(nodes, c, nodes[c].right);
        var compare := Compare(term, nodes[c].value);
        if compare < 0 {
          DescendKeepsKey(nodes, c, term);
          currentNode := nodes[c].left;
        } else if compare > 0 {
          DescendKeepsKey(nodes, c, term);
          currentNode := nodes[c].right;
        } else {
          return currentNode;
        }
      }
      return None;
    }

    /**
     * `Tree.findLast`: where `term` attaches. None for an empty tree; otherwise
     * the node whose key equals `term`'s if there is one, or else the last node
     * of `term`'s search path, whose child slot on `term`'s side is nil.
     */
    method FindLast(term: Term) returns (r: Option<nat>)
      requires Valid()
      ensures r.None? <==> root.None?
      ensures r.Some? ==> r.value < |nodes| && AttachPoint(nodes, r.value, term)
    {
      var currentNode := root;
      var previousNode: Option<nat> := None;
      if currentNode.Some? {
        KeyBelowRoot(nodes, term);
        OnPathRoot(nodes, term);
      }
      while currentNode.Some?
        invariant currentNode.Some? ==> currentNode.value < |nodes| && OnPath(nodes, currentNode.value, term)
        invariant KeyBelow(nodes, term, currentNode)
        invariant previousNode.None? ==> currentNode == root
        invariant previousNode.Some? ==>
          && previousNode.value < |nodes|
          && OnPath(nodes, previousNode.value, term)
          && !Equal(term, nodes[previousNode.value].value)
          && currentNode == Toward(nodes, previousNode.value, term)
        decreases if currentNode.Some? then |nodes| - currentNode.value else 0
      {
        var c := currentNode.value;
        assert ChildLinked(nodes, c, nodes[c].left) && ChildLinked(nodes, c, nodes[c].right);
        previousNode := currentNode;
        var compare := Compare(term, nodes[c].value);
        if compare == 0 {
          return currentNode;
        }
        DescendKeepsKey(nodes, c, term);
        if Toward(nodes, c, term).Some? {
          OnPathStep(nodes, c, term);
        }
        if compare < 0 {
          currentNode := nodes[c].left;
        } else {
          currentNode := nodes[c].right;
        }
      }
      return previousNode;
    }

    /**
     * `Tree.Add`. When some node's key equals `term`'s, nothing changes and None
     * is returned. Otherwise a new node holding `term` becomes the root of an
     * empty tree, or fills the nil child slot, on `term`'s side, of the node
     * `FindLast` returns, with its parent pointer set to that node; the index
     * of the new node is returned and the order of the tree is kept.
     */
    method Add(term: Term) returns (r: Option<nat>)
      requires Valid()
      modifies this
      ensures Valid()
      ensures old(HasKey(nodes, term)) ==> r.None? && nodes == old(nodes) && root == old(root)
      ensures !old(HasKey(nodes, term)) ==> r == Some(|old(nodes)|) && Terms() == old(Terms()) + [term]
      ensures !old(HasKey(nodes, term)) && old(root).None? ==> root == Some(0) && nodes == [NewNode(term)]
      ensures !old(HasKey(nodes, term)) && old(root).Some? ==>
        && root == old(root)
        && nodes[|old(nodes)|].parent.Some?
        && var p := nodes[|old(nodes)|].parent.value;
           && p < |old(nodes)|
           && AttachPoint(old(nodes), p, term)
           && nodes == Attach(old(nodes), p, term)
      ensures r.Some? ==> forall i | 0 <= i < |nodes| :: Equal(term, nodes[i].value) <==> i == r.value
    {
      var newNode := NewNode(term);
      var parent := FindLast(term);
      if parent.None? {
        root := Some(|nodes|);
        nodes := nodes + [newNode];
        SingletonValid(term);
        return root;
      }
      var p := parent.value;
      var n := |nodes|;
      var compare := Compare(term, nodes[p].value);
      if compare < 0 {
        nodes := nodes[p := nodes[p].(left := Some(n))];
      } else if compare > 0 {
        nodes := nodes[p := nodes[p].(right := Some(n))];
      } else {
        return None;
      }
      nodes := nodes + [newNode.(parent := Some(p))];
      AttachValid(old(nodes), p, term);
      AttachTerms(old(nodes), p, term);
      r := Some(n);
    }

    /**
     * `inOrder` of tree/Tree.go together with the consumer of its channel: walks
     * the subtree at `node` in pre-order (node, left subtree, right subtree) and
     * appends to `results` every node whose key contains `searchTerm`, ignoring case.
     */
    method Walk(node: Option<nat>, searchTerm: string, results: seq<nat>) returns (r: seq<nat>)
      requires Valid() && (node.Some? ==> node.value < |nodes|)
      ensures r == results + Matching(nodes, PreOrderFrom(nodes, node), searchTerm)
      decreases if node.Some? then |nodes| - node.value else 0
    {
      if node.None? {
        return results;
      }
      var i := node.value;
      PreOrderMatching(nodes, i, searchTerm);
      var head := if KeyContains(nodes[i].value, searchTerm) then [i] else [];
      ghost var fromLeft := Matching(nodes, PreOrderFrom(nodes, nodes[i].left), searchTerm);
      ghost var fromRight := Matching(nodes, PreOrderFrom(nodes, nodes[i].right), searchTerm);
      r := results + head;
      r := Walk(nodes[i].left, searchTerm, r);
      assert r == results + head + fromLeft;
      r := Walk(nodes[i].right, searchTerm, r);
      assert r == results + head + fromLeft + fromRight;
      AppendRegroup(results, head, fromLeft, fromRight);
    }

    /**
     * A node `Find(term)` returns, one whose key equals `term`'s ignoring case,
     * is among the nodes a search for `term`'s key, or any slice of it, reports.
     */
    lemma FoundIsSearched(term: Term, i: nat, lo: nat, hi: nat)
      requires Valid() && i < |nodes| && Equal(term, nodes[i].value)
      requires lo <= hi <= |term.key|
      ensures i in SearchResult(term.key[lo..hi])
    {
      EqualKeyContainsSlice(term, nodes[i].value, lo, hi);
      AllBelowRoot(nodes, i);
      PreOrderMembers(nodes, 0);
      MatchingMembers(nodes, PreOrderFrom(nodes, root), term.key[lo..hi]);
    }

    /**
     * `Tree.Search`: every node whose lower-cased key contains the lower-cased
     * `searchTerm`, each once, in pre-order; empty (Go's nil) when none does.
     */
    method Search(searchTerm: string) returns (results: seq<nat>)
      requires Valid()
      ensures results == SearchResult(searchTerm)
      ensures forall i: nat :: i in results <==> i < |nodes| && KeyContains(nodes[i].value, searchTerm)
      ensures NoDuplicates(results)
      ensures searchTerm == "" ==> forall i: nat | i < |nodes| :: i in results
    {
      results := Walk(root, searchTerm, []);
      if searchTerm == "" {
        forall i: nat | i < |nodes|
          ensures KeyContains(nodes[i].value, searchTerm)
        {
          GoStrings.ContainsSlice(LowerKey(nodes[i].value), 0, 0);
        }
      }
      MatchingMembers(nodes, PreOrderFrom(nodes, root), searchTerm);
      if root.Some? {
        PreOrderMembers(nodes, 0);
        PreOrderNoDuplicates(nodes, 0);
        forall i: nat | i < |nodes|
          ensures i in PreOrderFrom(nodes, root)
        {
          AllBelowRoot(nodes, i);
        }
      }
    }
  }
}
