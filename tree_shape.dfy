/**
 * The shape of the term tree of tree/Tree.go, stated over the tree's node
 * store: which pointers are consistent, which nodes lie below which, the
 * binary-search-tree order, where a new key attaches, and the pre-order walk.
 *
 * Nodes are only ever appended to the store, and a node is attached below a
 * node that is already there, so every child has a larger index than its
 * parent. That is what makes the store acyclic and the recursion below
 * terminate.
 */
module TreeShape {
  import opened Wrappers
  import opened Terms
  import opened Nodes
  import GoStrings

  /** Child pointer `c` of node `i`, if set, points to a later node whose parent pointer is `i`. */
  ghost predicate ChildLinked(nodes: seq<Node>, i: nat, c: Option<nat>)
  {
    c.Some? ==> i < c.value < |nodes| && nodes[c.value].parent == Some(i)
  }

  /** Node `i` has an earlier parent, and that parent points back at it. */
  ghost predicate ParentLinked(nodes: seq<Node>, i: nat)
    requires i < |nodes|
  {
    nodes[i].parent.Some? && nodes[i].parent.value < i &&
    (nodes[nodes[i].parent.value].left == Some(i) || nodes[nodes[i].parent.value].right == Some(i))
  }

  /** Left, Right and Parent pointers agree, node 0 is the root, and no node is both children of another. */
  ghost predicate Linked(nodes: seq<Node>)
  {
    && (|nodes| > 0 ==> nodes[0].parent.None?)
    && (forall i | 0 < i < |nodes| :: ParentLinked(nodes, i))
    && (forall i | 0 <= i < |nodes| ::
          ChildLinked(nodes, i, nodes[i].left) && ChildLinked(nodes, i, nodes[i].right))
    && (forall i | 0 <= i < |nodes| :: nodes[i].left.Some? ==> nodes[i].left != nodes[i].right)
  }

  /** Node `j` is node `a` or lies below it: following parent pointers from `j` reaches `a`. */
  ghost predicate InSubtree(nodes: seq<Node>, j: nat, a: nat)
    decreases j
  {
    j < |nodes| &&
    (j == a ||
     (nodes[j].parent.Some? && nodes[j].parent.value < j && InSubtree(nodes, nodes[j].parent.value, a)))
  }

  /** Node `j` lies in the left subtree of node `i`. */
  ghost predicate InLeft(nodes: seq<Node>, j: nat, i: nat)
  {
    i < |nodes| && nodes[i].left.Some? && InSubtree(nodes, j, nodes[i].left.value)
  }

  /** Node `j` lies in the right subtree of node `i`. */
  ghost predicate InRight(nodes: seq<Node>, j: nat, i: nat)
  {
    i < |nodes| && nodes[i].right.Some? && InSubtree(nodes, j, nodes[i].right.value)
  }

  /** The binary-search-tree order: left subtrees hold smaller keys, right subtrees larger ones. */
  ghost predicate Ordered(nodes: seq<Node>)
  {
    && (forall i: nat, j: nat | InLeft(nodes, j, i) :: j < |nodes| && Compare(nodes[j].value, nodes[i].value) < 0)
    && (forall i: nat, j: nat | InRight(nodes, j, i) :: j < |nodes| && Compare(nodes[i].value, nodes[j].value) < 0)
  }

  /** No two nodes hold keys that are equal ignoring case. */
  ghost predicate DistinctKeys(nodes: seq<Node>)
  {
    forall i, j | 0 <= i < j < |nodes| :: !Equal(nodes[i].value, nodes[j].value)
  }

  /** The tree invariant: the root is node 0 when there is one, and the store is linked, ordered and duplicate-free. */
  ghost predicate ValidTree(root: Option<nat>, nodes: seq<Node>)
  {
    && root == (if |nodes| == 0 then None else Some(0))
    && Linked(nodes)
    && Ordered(nodes)
    && DistinctKeys(nodes)
  }

  /** Some node holds a key equal to `term`'s, ignoring case. */
  ghost predicate HasKey(nodes: seq<Node>, term: Term)
  {
    exists i | 0 <= i < |nodes| :: Equal(term, nodes[i].value)
  }

  /** The terms held by the nodes, in store order. */
  function TermsOf(nodes: seq<Node>): (terms: seq<Term>)
    ensures |terms| == |nodes|
    ensures forall i | 0 <= i < |nodes| :: terms[i] == nodes[i].value
  {
    seq(|nodes|, i requires 0 <= i < |nodes| => nodes[i].value)
  }

  // ---------------------------------------------------------------------------
  // Subtrees

  lemma {:induction false} InSubtreeBelow(nodes: seq<Node>, j: nat, a: nat)
    requires InSubtree(nodes, j, a)
    ensures a <= j < |nodes|
    decreases j
  {
    if j != a {
      InSubtreeBelow(nodes, nodes[j].parent.value, a);
    }
  }

  /** In a linked store every node lies below node 0. */
  lemma {:induction false} AllBelowRoot(nodes: seq<Node>, j: nat)
    requires Linked(nodes) && j < |nodes|
    ensures InSubtree(nodes, j, 0)
    decreases j
  {
    if j > 0 {
      assert ParentLinked(nodes, j);
      AllBelowRoot(nodes, nodes[j].parent.value);
    }
  }

  /** A node strictly below `a` is in the left or in the right subtree of `a`. */
  lemma {:induction false} SplitBelow(nodes: seq<Node>, j: nat, a: nat)
    requires Linked(nodes) && InSubtree(nodes, j, a) && j != a
    ensures InLeft(nodes, j, a) || InRight(nodes, j, a)
    decreases j
  {
    var p := nodes[j].parent.value;
    assert j > 0;
    assert ParentLinked(nodes, j);
    if p != a {
      SplitBelow(nodes, p, a);
    }
  }

  /** What lies below a child lies below its parent. */
  lemma {:induction false} BelowChild(nodes: seq<Node>, j: nat, c: nat, i: nat)
    requires InSubtree(nodes, j, c) && c < |nodes| && nodes[c].parent == Some(i) && i < c
    ensures InSubtree(nodes, j, i)
    decreases j
  {
    if j != c {
      BelowChild(nodes, nodes[j].parent.value, c, i);
    }
  }

  /** The ancestors of a node form a chain: of two ancestors, one lies below the other. */
  lemma {:induction false} AncestorsNested(nodes: seq<Node>, j: nat, a: nat, b: nat)
    requires InSubtree(nodes, j, a) && InSubtree(nodes, j, b)
    ensures InSubtree(nodes, a, b) || InSubtree(nodes, b, a)
    decreases j
  {
    if j != a && j != b {
      AncestorsNested(nodes, nodes[j].parent.value, a, b);
    }
  }

  /** The left and the right subtree of a node share no node. */
  lemma SubtreesDisjoint(nodes: seq<Node>, i: nat, x: nat)
    requires Linked(nodes) && i < |nodes|
    ensures !(InLeft(nodes, x, i) && InRight(nodes, x, i))
  {
    if InLeft(nodes, x, i) && InRight(nodes, x, i) {
      var l, r := nodes[i].left.value, nodes[i].right.value;
      AncestorsNested(nodes, x, l, r);
      if InSubtree(nodes, l, r) {
        InSubtreeBelow(nodes, i, r);
      } else {
        InSubtreeBelow(nodes, i, l);
      }
    }
  }

  /** Parent pointers alone decide which node lies below which. */
  lemma {:induction false} SameParentsSameSubtrees(a: seq<Node>, b: seq<Node>, j: nat, x: nat)
    requires |a| <= |b| && forall i | 0 <= i < |a| :: b[i].parent == a[i].parent
    requires j < |a|
    ensures InSubtree(a, j, x) <==> InSubtree(b, j, x)
    decreases j
  {
    if j != x && a[j].parent.Some? && a[j].parent.value < j {
      SameParentsSameSubtrees(a, b, a[j].parent.value, x);
    }
  }

  // ---------------------------------------------------------------------------
  // Searching down the tree

  /** The child of node `c` on the side where `term` sorts. */
  function Toward(nodes: seq<Node>, c: nat, term: Term): Option<nat>
    requires c < |nodes|
  {
    if Compare(term, nodes[c].value) < 0 then nodes[c].left else nodes[c].right
  }

  /** Every node whose key equals `term`'s lies below `at` (so when `at` is nil there is none). */
  ghost predicate KeyBelow(nodes: seq<Node>, term: Term, at: Option<nat>)
  {
    forall j | 0 <= j < |nodes| && Equal(term, nodes[j].value) :: at.Some? && InSubtree(nodes, j, at.value)
  }

  /** `term` sorts on the side of every ancestor of `p` on which `p` lies. */
  ghost predicate OnPath(nodes: seq<Node>, p: nat, term: Term)
  {
    && (forall i: nat | InLeft(nodes, p, i) :: i < |nodes| && Compare(term, nodes[i].value) < 0)
    && (forall i: nat | InRight(nodes, p, i) :: i < |nodes| && Compare(term, nodes[i].value) > 0)
  }

  /**
   * Node `p` is where `term` belongs: its key equals `term`'s, or the key is
   * absent, `term` sorts like `p` below every ancestor of `p`, and the child slot
   * of `p` on `term`'s side is nil.
   */
  ghost predicate AttachPoint(nodes: seq<Node>, p: nat, term: Term)
    requires p < |nodes|
  {
    || Equal(term, nodes[p].value)
    || (!HasKey(nodes, term) && OnPath(nodes, p, term) && Toward(nodes, p, term).None?)
  }

  /** At the root every equal key lies below the root. */
  lemma KeyBelowRoot(nodes: seq<Node>, term: Term)
    requires Linked(nodes) && |nodes| > 0
    ensures KeyBelow(nodes, term, Some(0))
  {
    forall j | 0 <= j < |nodes| && Equal(term, nodes[j].value)
      ensures InSubtree(nodes, j, 0)
    {
      AllBelowRoot(nodes, j);
    }
  }

  /** Stepping from a node whose key differs from `term`'s toward `term` keeps every equal key below. */
  lemma DescendKeepsKey(nodes: seq<Node>, c: nat, term: Term)
    requires Linked(nodes) && Ordered(nodes) && c < |nodes|
    requires !Equal(term, nodes[c].value) && KeyBelow(nodes, term, Some(c))
    ensures KeyBelow(nodes, term, Toward(nodes, c, term))
  {
    var next := Toward(nodes, c, term);
    forall j | 0 <= j < |nodes| && Equal(term, nodes[j].value)
      ensures next.Some? && InSubtree(nodes, j, next.value)
    {
      SplitBelow(nodes, j, c);
      CompareAntisymmetric(term, nodes[c].value);
      assert Compare(nodes[j].value, nodes[c].value) == Compare(term, nodes[c].value);
      assert Compare(nodes[c].value, nodes[j].value) == Compare(nodes[c].value, term);
    }
  }

  /** The root is on the path of every key. */
  lemma OnPathRoot(nodes: seq<Node>, term: Term)
    requires Linked(nodes) && |nodes| > 0
    ensures OnPath(nodes, 0, term)
  {
    forall i: nat | InLeft(nodes, 0, i)
      ensures false
    {
      InSubtreeBelow(nodes, 0, nodes[i].left.value);
    }
    forall i: nat | InRight(nodes, 0, i)
      ensures false
    {
      InSubtreeBelow(nodes, 0, nodes[i].right.value);
    }
  }

  /** Stepping toward `term` stays on its path. */
  lemma OnPathStep(nodes: seq<Node>, c: nat, term: Term)
    requires Linked(nodes) && c < |nodes| && OnPath(nodes, c, term)
    requires Compare(term, nodes[c].value) != 0 && Toward(nodes, c, term).Some?
    ensures OnPath(nodes, Toward(nodes, c, term).value, term)
  {
    var n := Toward(nodes, c, term).value;
    assert nodes[n].parent == Some(c);
    forall i: nat | InLeft(nodes, n, i)
      ensures i < |nodes| && Compare(term, nodes[i].value) < 0
    {
      if nodes[i].left.value != n {
        assert InLeft(nodes, c, i);
      }
    }
    forall i: nat | InRight(nodes, n, i)
      ensures i < |nodes| && Compare(term, nodes[i].value) > 0
    {
      if nodes[i].right.value != n {
        assert InRight(nodes, c, i);
      }
    }
  }

  // ---------------------------------------------------------------------------
  // Attaching a new node

  /** The store after `term` is attached as a new node below `p`, on `term`'s side. */
  function Attach(nodes: seq<Node>, p: nat, term: Term): seq<Node>
    requires p < |nodes|
  {
    var n := |nodes|;
    var parent :=
      if Compare(term, nodes[p].value) < 0 then nodes[p].(left := Some(n))
      else nodes[p].(right := Some(n));
    nodes[p := parent] + [NewNode(term).(parent := Some(p))]
  }

  /** Attaching an absent key appends it to the terms; the new node hangs below `p` and is the only one holding that key. */
  lemma AttachTerms(nodes: seq<Node>, p: nat, term: Term)
    requires p < |nodes| && !HasKey(nodes, term)
    ensures TermsOf(Attach(nodes, p, term)) == TermsOf(nodes) + [term]
    ensures Attach(nodes, p, term)[|nodes|].parent == Some(p)
    ensures forall i | 0 <= i < |nodes| + 1 :: Equal(term, Attach(nodes, p, term)[i].value) <==> i == |nodes|
  {
    var b := Attach(nodes, p, term);
    assert forall i | 0 <= i < |nodes| :: b[i].value == nodes[i].value;
    assert TermsOf(b) == TermsOf(nodes) + [term];
  }

  /** Below the new node lies only itself; above it, exactly what lay above `p`. */
  lemma AttachSubtrees(nodes: seq<Node>, p: nat, term: Term)
    requires p < |nodes|
    ensures forall j: nat, x: nat | j < |nodes| :: InSubtree(nodes, j, x) <==> InSubtree(Attach(nodes, p, term), j, x)
    ensures forall x: nat :: InSubtree(Attach(nodes, p, term), |nodes|, x) <==> x == |nodes| || InSubtree(nodes, p, x)
  {
    var b := Attach(nodes, p, term);
    forall j: nat, x: nat | j < |nodes|
      ensures InSubtree(nodes, j, x) <==> InSubtree(b, j, x)
    {
      SameParentsSameSubtrees(nodes, b, j, x);
    }
  }

  lemma AttachLinked(nodes: seq<Node>, p: nat, term: Term)
    requires Linked(nodes) && p < |nodes| && !Equal(term, nodes[p].value)
    requires Toward(nodes, p, term).None?
    ensures Linked(Attach(nodes, p, term))
  {
    var b := Attach(nodes, p, term);
    forall i | 0 < i < |b|
      ensures ParentLinked(b, i)
    {
      AttachParentLinked(nodes, p, term, i);
    }
    forall i | 0 <= i < |b|
      ensures ChildLinked(b, i, b[i].left) && ChildLinked(b, i, b[i].right)
    {
      AttachChildLinked(nodes, p, term, i);
    }
  }

  lemma AttachParentLinked(nodes: seq<Node>, p: nat, term: Term, i: nat)
    requires Linked(nodes) && p < |nodes|
    requires Toward(nodes, p, term).None?
    requires 0 < i <= |nodes|
    ensures ParentLinked(Attach(nodes, p, term), i)
  {
    if i < |nodes| {
      assert ParentLinked(nodes, i);
    }
  }

  lemma AttachChildLinked(nodes: seq<Node>, p: nat, term: Term, i: nat)
    requires Linked(nodes) && p < |nodes|
    requires Toward(nodes, p, term).None?
    requires i <= |nodes|
    ensures ChildLinked(Attach(nodes, p, term), i, Attach(nodes, p, term)[i].left)
    ensures ChildLinked(Attach(nodes, p, term), i, Attach(nodes, p, term)[i].right)
  {
    if i < |nodes| {
      assert ChildLinked(nodes, i, nodes[i].left) && ChildLinked(nodes, i, nodes[i].right);
    }
  }

  /** One pair of nodes of the attached store, the second in the left subtree of the first, is in order. */
  lemma AttachOrderedLeft(nodes: seq<Node>, p: nat, term: Term, i: nat, j: nat)
    requires Linked(nodes) && Ordered(nodes) && p < |nodes| && !Equal(term, nodes[p].value)
    requires OnPath(nodes, p, term) && Toward(nodes, p, term).None?
    requires InLeft(Attach(nodes, p, term), j, i)
    ensures j < |Attach(nodes, p, term)|
    ensures Compare(Attach(nodes, p, term)[j].value, Attach(nodes, p, term)[i].value) < 0
  {
    var b := Attach(nodes, p, term);
    var n := |nodes|;
    var l := b[i].left.value;
    InSubtreeBelow(b, j, l);
    assert i < n;
    AttachSubtrees(nodes, p, term);
    if j < n {
      assert InLeft(nodes, j, i);
      assert b[j].value == nodes[j].value && b[i].value == nodes[i].value;
    } else if l != n {
      assert InLeft(nodes, p, i);
      assert b[j].value == term && b[i].value == nodes[i].value;
    }
  }

  /** One pair of nodes of the attached store, the second in the right subtree of the first, is in order. */
  lemma AttachOrderedRight(nodes: seq<Node>, p: nat, term: Term, i: nat, j: nat)
    requires Linked(nodes) && Ordered(nodes) && p < |nodes| && !Equal(term, nodes[p].value)
    requires OnPath(nodes, p, term) && Toward(nodes, p, term).None?
    requires InRight(Attach(nodes, p, term), j, i)
    ensures j < |Attach(nodes, p, term)|
    ensures Compare(Attach(nodes, p, term)[i].value, Attach(nodes, p, term)[j].value) < 0
  {
    var b := Attach(nodes, p, term);
    var n := |nodes|;
    var r := b[i].right.value;
    InSubtreeBelow(b, j, r);
    assert i < n;
    AttachSubtrees(nodes, p, term);
    assert b[i].value == nodes[i].value;
    if j < n {
      assert InRight(nodes, j, i);
      assert Compare(nodes[i].value, nodes[j].value) < 0;
      assert b[j].value == nodes[j].value;
    } else if r != n {
      assert InRight(nodes, p, i);
      assert Compare(term, nodes[i].value) > 0;
      CompareAntisymmetric(term, nodes[i].value);
      assert b[j].value == term;
    } else {
      assert i == p;
      assert Compare(term, nodes[p].value) > 0;
      CompareAntisymmetric(term, nodes[p].value);
      assert b[i].value == nodes[p].value && b[j].value == term;
    }
  }

  lemma AttachOrdered(nodes: seq<Node>, p: nat, term: Term)
    requires Linked(nodes) && Ordered(nodes) && p < |nodes| && !Equal(term, nodes[p].value)
    requires OnPath(nodes, p, term) && Toward(nodes, p, term).None?
    ensures Ordered(Attach(nodes, p, term))
  {
    var b := Attach(nodes, p, term);
    forall i: nat, j: nat | InLeft(b, j, i)
      ensures j < |b| && Compare(b[j].value, b[i].value) < 0
    {
      AttachOrderedLeft(nodes, p, term, i, j);
    }
    forall i: nat, j: nat | InRight(b, j, i)
      ensures j < |b| && Compare(b[i].value, b[j].value) < 0
    {
      AttachOrderedRight(nodes, p, term, i, j);
    }
  }

  /** Attaching an absent key at its attach point keeps the tree invariant. */
  lemma AttachValid(nodes: seq<Node>, p: nat, term: Term)
    requires ValidTree(Some(0), nodes) && p < |nodes|
    requires !Equal(term, nodes[p].value) && AttachPoint(nodes, p, term)
    ensures ValidTree(Some(0), Attach(nodes, p, term))
  {
    AttachLinked(nodes, p, term);
    AttachOrdered(nodes, p, term);
  }

  /** Rewriting the documents of nodes, keeping keys and pointers, keeps the tree invariant. */
  lemma SameShapeValid(root: Option<nat>, a: seq<Node>, b: seq<Node>)
    requires ValidTree(root, a) && |a| == |b|
    requires forall i | 0 <= i < |a| ::
      b[i].left == a[i].left && b[i].right == a[i].right && b[i].parent == a[i].parent && b[i].value.key == a[i].value.key
    ensures ValidTree(root, b)
  {
    forall j: nat, x: nat | j < |a|
      ensures InSubtree(a, j, x) <==> InSubtree(b, j, x)
    {
      SameParentsSameSubtrees(a, b, j, x);
    }
    forall i | 0 < i < |b|
      ensures ParentLinked(b, i)
    {
      assert ParentLinked(a, i);
    }
    forall i | 0 <= i < |b|
      ensures ChildLinked(b, i, b[i].left) && ChildLinked(b, i, b[i].right)
    {
      assert ChildLinked(a, i, a[i].left) && ChildLinked(a, i, a[i].right);
    }
    forall i: nat, j: nat | InLeft(b, j, i)
      ensures j < |b| && Compare(b[j].value, b[i].value) < 0
    {
      assert InLeft(a, j, i);
    }
    forall i: nat, j: nat | InRight(b, j, i)
      ensures j < |b| && Compare(b[i].value, b[j].value) < 0
    {
      assert InRight(a, j, i);
    }
  }

  // ---------------------------------------------------------------------------
  // Walks

  /** No element occurs twice. */
  ghost predicate NoDuplicates(s: seq<nat>)
  {
    forall a, b | 0 <= a < b < |s| :: s[a] != s[b]
  }

  lemma NoDuplicatesConcat(x: seq<nat>, y: seq<nat>)
    requires NoDuplicates(x) && NoDuplicates(y)
    requires forall v | v in x :: v !in y
    ensures NoDuplicates(x + y)
  {
    var s := x + y;
    forall a, b | 0 <= a < b < |s|
      ensures s[a] != s[b]
    {
      if a < |x| && b >= |x| {
        assert s[a] in x && s[b] == y[b - |x|];
      } else if a >= |x| {
        assert s[a] == y[a - |x|] && s[b] == y[b - |x|];
      }
    }
  }

  /**
   * The nodes of the subtree at `i` in pre-order: the node, then its left
   * subtree, then its right subtree (the order of `inOrder` in tree/Tree.go).
   */
  ghost function PreOrder(nodes: seq<Node>, i: nat): (order: seq<nat>)
    requires Linked(nodes) && i < |nodes|
    ensures forall k | 0 <= k < |order| :: i <= order[k] < |nodes|
    decreases |nodes| - i, 0
  {
    assert ChildLinked(nodes, i, nodes[i].left) && ChildLinked(nodes, i, nodes[i].right);
    [i] + PreOrderFrom(nodes, nodes[i].left) + PreOrderFrom(nodes, nodes[i].right)
  }

  /** The pre-order of the subtree a pointer points to; nil has none. */
  ghost function PreOrderFrom(nodes: seq<Node>, at: Option<nat>): (order: seq<nat>)
    requires Linked(nodes) && (at.Some? ==> at.value < |nodes|)
    ensures forall k | 0 <= k < |order| :: at.Some? && at.value <= order[k] < |nodes|
    decreases if at.Some? then |nodes| - at.value else 0, 1
  {
    if at.None? then [] else PreOrder(nodes, at.value)
  }

  /** The pre-order of a subtree lists exactly the nodes below its root. */
  lemma {:induction false} PreOrderMembers(nodes: seq<Node>, i: nat)
    requires Linked(nodes) && i < |nodes|
    ensures forall j: nat :: j in PreOrder(nodes, i) <==> InSubtree(nodes, j, i)
    decreases |nodes| - i
  {
    assert ChildLinked(nodes, i, nodes[i].left) && ChildLinked(nodes, i, nodes[i].right);
    var left, right := nodes[i].left, nodes[i].right;
    var l, r := PreOrderFrom(nodes, left), PreOrderFrom(nodes, right);
    if left.Some? {
      PreOrderMembers(nodes, left.value);
    }
    if right.Some? {
      PreOrderMembers(nodes, right.value);
    }
    forall j: nat
      ensures j in PreOrder(nodes, i) <==> InSubtree(nodes, j, i)
    {
      if j in l {
        BelowChild(nodes, j, left.value, i);
      } else if j in r {
        BelowChild(nodes, j, right.value, i);
      } else if j != i && InSubtree(nodes, j, i) {
        SplitBelow(nodes, j, i);
      }
    }
  }

  /** The pre-order of a subtree lists no node twice. */
  lemma {:induction false} PreOrderNoDuplicates(nodes: seq<Node>, i: nat)
    requires Linked(nodes) && i < |nodes|
    ensures NoDuplicates(PreOrder(nodes, i))
    decreases |nodes| - i
  {
    assert ChildLinked(nodes, i, nodes[i].left) && ChildLinked(nodes, i, nodes[i].right);
    var left, right := nodes[i].left, nodes[i].right;
    var l, r := PreOrderFrom(nodes, left), PreOrderFrom(nodes, right);
    if left.Some? {
      PreOrderNoDuplicates(nodes, left.value);
    }
    if right.Some? {
      PreOrderNoDuplicates(nodes, right.value);
    }
    PreOrderParts(nodes, i);
    NoDuplicatesConcat(l, r);
    assert forall v | v in [i] :: v !in l + r;
    NoDuplicatesConcat([i], l + r);
    AppendAssoc([i], l, r);
  }

  /** The root of a subtree and its two child subtrees' pre-orders share no node. */
  lemma PreOrderParts(nodes: seq<Node>, i: nat)
    requires Linked(nodes) && i < |nodes|
    ensures ChildLinked(nodes, i, nodes[i].left) && ChildLinked(nodes, i, nodes[i].right)
    ensures forall v | v in PreOrderFrom(nodes, nodes[i].left) :: v !in PreOrderFrom(nodes, nodes[i].right) && v != i
    ensures i !in PreOrderFrom(nodes, nodes[i].left) + PreOrderFrom(nodes, nodes[i].right)
  {
    assert ChildLinked(nodes, i, nodes[i].left) && ChildLinked(nodes, i, nodes[i].right);
    var left, right := nodes[i].left, nodes[i].right;
    var l, r := PreOrderFrom(nodes, left), PreOrderFrom(nodes, right);
    if left.Some? {
      PreOrderMembers(nodes, left.value);
    }
    if right.Some? {
      PreOrderMembers(nodes, right.value);
    }
    forall v | v in l
      ensures v !in r && v != i
    {
      InSubtreeBelow(nodes, v, left.value);
      SubtreesDisjoint(nodes, i, v);
    }
    RootNotBelow(nodes, i);
  }

  /** A node does not occur in the pre-orders of its own subtrees. */
  lemma RootNotBelow(nodes: seq<Node>, i: nat)
    requires Linked(nodes) && i < |nodes|
    ensures ChildLinked(nodes, i, nodes[i].left) && ChildLinked(nodes, i, nodes[i].right)
    ensures i !in PreOrderFrom(nodes, nodes[i].left) + PreOrderFrom(nodes, nodes[i].right)
  {
    assert ChildLinked(nodes, i, nodes[i].left) && ChildLinked(nodes, i, nodes[i].right);
    var l, r := PreOrderFrom(nodes, nodes[i].left), PreOrderFrom(nodes, nodes[i].right);
    forall v | v in l + r
      ensures v != i
    {
      var k :| 0 <= k < |l + r| && (l + r)[k] == v;
      if k < |l| {
        assert v == l[k];
      } else {
        assert v == r[k - |l|];
      }
    }
  }

  /** `strings.Contains(strings.ToLower(key), strings.ToLower(searchTerm))`: the search test of `Tree.Search`. */
  predicate KeyContains(term: Term, searchTerm: string)
  {
    GoStrings.Contains(LowerKey(term), GoStrings.ToLower(searchTerm))
  }

  /** Every element of `order` is a node of the store. */
  ghost predicate InStore(nodes: seq<Node>, order: seq<nat>)
  {
    forall k | 0 <= k < |order| :: order[k] < |nodes|
  }

  /** The nodes of `order` whose key contains `searchTerm` ignoring case, in the same order. */
  ghost function Matching(nodes: seq<Node>, order: seq<nat>, searchTerm: string): (found: seq<nat>)
    requires InStore(nodes, order)
    ensures InStore(nodes, found)
  {
    if order == [] then []
    else
      (if KeyContains(nodes[order[0]].value, searchTerm) then [order[0]] else [])
      + Matching(nodes, order[1..], searchTerm)
  }

  /** The terms held by the nodes of `order`, in that order. */
  ghost function TermsAt(nodes: seq<Node>, order: seq<nat>): (terms: seq<Term>)
    requires InStore(nodes, order)
    ensures |terms| == |order|
    ensures forall k | 0 <= k < |order| :: terms[k] == nodes[order[k]].value
  {
    seq(|order|, k requires 0 <= k < |order| => nodes[order[k]].value)
  }

  /** A one-node store is a valid tree. */
  lemma SingletonValid(term: Term)
    ensures ValidTree(Some(0), [NewNode(term)])
  {
    var nodes := [NewNode(term)];
    forall i: nat, j: nat | InLeft(nodes, j, i) || InRight(nodes, j, i)
      ensures false
    {
    }
  }

  lemma InStoreConcat(nodes: seq<Node>, x: seq<nat>, y: seq<nat>)
    requires InStore(nodes, x) && InStore(nodes, y)
    ensures InStore(nodes, x + y)
  {
    forall k | 0 <= k < |x + y|
      ensures (x + y)[k] < |nodes|
    {
      if k >= |x| {
        assert (x + y)[k] == y[k - |x|];
      }
    }
  }

  lemma {:induction false} MatchingConcat(nodes: seq<Node>, x: seq<nat>, y: seq<nat>, searchTerm: string)
    requires InStore(nodes, x) && InStore(nodes, y)
    ensures InStore(nodes, x + y)
    ensures Matching(nodes, x + y, searchTerm) == Matching(nodes, x, searchTerm) + Matching(nodes, y, searchTerm)
  {
    InStoreConcat(nodes, x, y);
    if x == [] {
      assert x + y == y;
    } else {
      var rest := x[1..];
      assert InStore(nodes, rest);
      TailConcat(x, y);
      MatchingConcat(nodes, rest, y, searchTerm);
      var head := if KeyContains(nodes[x[0]].value, searchTerm) then [x[0]] else [];
      assert Matching(nodes, x + y, searchTerm) == head + Matching(nodes, rest + y, searchTerm);
      assert Matching(nodes, x, searchTerm) == head + Matching(nodes, rest, searchTerm);
      AppendAssoc(head, Matching(nodes, rest, searchTerm), Matching(nodes, y, searchTerm));
    }
  }

  lemma TailConcat(x: seq<nat>, y: seq<nat>)
    requires x != []
    ensures (x + y)[0] == x[0] && (x + y)[1..] == x[1..] + y
  {
  }

  lemma AppendAssoc(a: seq<nat>, b: seq<nat>, c: seq<nat>)
    ensures a + b + c == a + (b + c)
  {
  }

  lemma AppendRegroup(a: seq<nat>, b: seq<nat>, c: seq<nat>, d: seq<nat>)
    ensures a + b + c + d == a + (b + c + d)
  {
  }

  /** Filtering a subtree's pre-order: its root if it matches, then its left subtree's, then its right subtree's. */
  lemma PreOrderMatching(nodes: seq<Node>, i: nat, searchTerm: string)
    requires Linked(nodes) && i < |nodes|
    ensures ChildLinked(nodes, i, nodes[i].left) && ChildLinked(nodes, i, nodes[i].right)
    ensures Matching(nodes, PreOrder(nodes, i), searchTerm)
         == (if KeyContains(nodes[i].value, searchTerm) then [i] else [])
            + Matching(nodes, PreOrderFrom(nodes, nodes[i].left), searchTerm)
            + Matching(nodes, PreOrderFrom(nodes, nodes[i].right), searchTerm)
  {
    assert ChildLinked(nodes, i, nodes[i].left) && ChildLinked(nodes, i, nodes[i].right);
    var l, r := PreOrderFrom(nodes, nodes[i].left), PreOrderFrom(nodes, nodes[i].right);
    assert InStore(nodes, [i]);
    MatchingConcat(nodes, [i], l, searchTerm);
    MatchingConcat(nodes, [i] + l, r, searchTerm);
    assert PreOrder(nodes, i) == [i] + l + r;
    assert [i][1..] == [];
  }

  lemma {:induction false} MatchingMembers(nodes: seq<Node>, order: seq<nat>, searchTerm: string)
    requires InStore(nodes, order)
    ensures forall k | k in Matching(nodes, order, searchTerm) :: k in order && KeyContains(nodes[k].value, searchTerm)
    ensures forall k | k in order && KeyContains(nodes[k].value, searchTerm) :: k in Matching(nodes, order, searchTerm)
    ensures NoDuplicates(order) ==> NoDuplicates(Matching(nodes, order, searchTerm))
  {
    if order != [] {
      MatchingMembers(nodes, order[1..], searchTerm);
      var head := if KeyContains(nodes[order[0]].value, searchTerm) then [order[0]] else [];
      var tail := Matching(nodes, order[1..], searchTerm);
      forall k | k in order
        ensures k == order[0] || k in order[1..]
      {
      }
      if NoDuplicates(order) {
        assert NoDuplicates(order[1..]) by {
          forall a, b | 0 <= a < b < |order| - 1
            ensures order[1..][a] != order[1..][b]
          {
            assert order[1..][a] == order[a + 1] && order[1..][b] == order[b + 1];
          }
        }
        assert forall v | v in head :: v !in tail;
        NoDuplicatesConcat(head, tail);
      }
    }
  }

  /** A term whose key equals `term`'s ignoring case contains every slice of `term`'s key, ignoring case, the whole key included. */
  lemma EqualKeyContainsSlice(term: Term, other: Term, lo: nat, hi: nat)
    requires Equal(term, other) && lo <= hi <= |term.key|
    ensures KeyContains(other, term.key[lo..hi])
  {
    GoStrings.ToLowerSlice(term.key, lo, hi);
    GoStrings.ContainsSlice(LowerKey(term), lo, hi);
  }

  /** The search lower-cases the search term, so a search term and its lower-cased form find the same nodes. */
  lemma {:induction false} MatchingIgnoresCase(nodes: seq<Node>, order: seq<nat>, searchTerm: string)
    requires InStore(nodes, order)
    ensures Matching(nodes, order, GoStrings.ToLower(searchTerm)) == Matching(nodes, order, searchTerm)
  {
    if order != [] {
      GoStrings.ToLowerIdempotent(searchTerm);
      MatchingIgnoresCase(nodes, order[1..], searchTerm);
    }
  }

  /** The nodes of the subtree at `i` in key order: left subtree, the node, right subtree. */
  ghost function InOrder(nodes: seq<Node>, i: nat): seq<nat>
    requires Linked(nodes) && i < |nodes|
    decreases |nodes| - i, 0
  {
    assert ChildLinked(nodes, i, nodes[i].left) && ChildLinked(nodes, i, nodes[i].right);
    InOrderFrom(nodes, nodes[i].left) + [i] + InOrderFrom(nodes, nodes[i].right)
  }

  ghost function InOrderFrom(nodes: seq<Node>, at: Option<nat>): seq<nat>
    requires Linked(nodes) && (at.Some? ==> at.value < |nodes|)
    decreases if at.Some? then |nodes| - at.value else 0, 1
  {
    if at.None? then [] else InOrder(nodes, at.value)
  }

  /** Every pair of the list, in list order, is in strictly increasing key order. */
  ghost predicate SortedByKey(nodes: seq<Node>, s: seq<nat>)
  {
    && (forall k | k in s :: k < |nodes|)
    && (forall a, b | 0 <= a < b < |s| && s[a] < |nodes| && s[b] < |nodes| ::
          Compare(nodes[s[a]].value, nodes[s[b]].value) < 0)
  }

  lemma SortedConcat(nodes: seq<Node>, x: seq<nat>, y: seq<nat>)
    requires SortedByKey(nodes, x) && SortedByKey(nodes, y)
    requires forall u, v | u in x && v in y :: Compare(nodes[u].value, nodes[v].value) < 0
    ensures SortedByKey(nodes, x + y)
  {
    var s := x + y;
    forall a, b | 0 <= a < b < |s| && s[a] < |nodes| && s[b] < |nodes|
      ensures Compare(nodes[s[a]].value, nodes[s[b]].value) < 0
    {
      if b < |x| {
        assert s[a] == x[a] && s[b] == x[b];
      } else if a >= |x| {
        assert s[a] == y[a - |x|] && s[b] == y[b - |x|];
      } else {
        assert s[a] in x && s[b] in y;
      }
    }
  }

  /** The in-order walk of a subtree lists exactly the nodes below its root. */
  lemma {:induction false} InOrderMembers(nodes: seq<Node>, i: nat)
    requires Linked(nodes) && i < |nodes|
    ensures forall j: nat :: j in InOrder(nodes, i) <==> InSubtree(nodes, j, i)
    decreases |nodes| - i
  {
    assert ChildLinked(nodes, i, nodes[i].left) && ChildLinked(nodes, i, nodes[i].right);
    var left, right := nodes[i].left, nodes[i].right;
    var l, r := InOrderFrom(nodes, left), InOrderFrom(nodes, right);
    if left.Some? {
      InOrderMembers(nodes, left.value);
    }
    if right.Some? {
      InOrderMembers(nodes, right.value);
    }
    forall j: nat
      ensures j in InOrder(nodes, i) <==> InSubtree(nodes, j, i)
    {
      if j in l {
        BelowChild(nodes, j, left.value, i);
      } else if j in r {
        BelowChild(nodes, j, right.value, i);
      } else if j != i && InSubtree(nodes, j, i) {
        SplitBelow(nodes, j, i);
      }
    }
  }

  /** In an ordered tree the in-order walk of a subtree lists its nodes in increasing key order. */
  lemma {:induction false} InOrderSorted(nodes: seq<Node>, i: nat)
    requires Linked(nodes) && Ordered(nodes) && i < |nodes|
    ensures SortedByKey(nodes, InOrder(nodes, i))
    decreases |nodes| - i
  {
    assert ChildLinked(nodes, i, nodes[i].left) && ChildLinked(nodes, i, nodes[i].right);
    var left, right := nodes[i].left, nodes[i].right;
    var l, r := InOrderFrom(nodes, left), InOrderFrom(nodes, right);
    if left.Some? {
      InOrderSorted(nodes, left.value);
    }
    if right.Some? {
      InOrderSorted(nodes, right.value);
    }
    InOrderSides(nodes, i);
    SortedConcat(nodes, l, [i]);
    forall u, v | u in l + [i] && v in r
      ensures Compare(nodes[u].value, nodes[v].value) < 0
    {
      if u != i {
        CompareTransitive(nodes[u].value, nodes[i].value, nodes[v].value);
      }
    }
    SortedConcat(nodes, l + [i], r);
  }

  /** In an ordered tree the in-order walk of the left subtree holds smaller keys, that of the right subtree larger ones. */
  lemma InOrderSides(nodes: seq<Node>, i: nat)
    requires Linked(nodes) && Ordered(nodes) && i < |nodes|
    ensures ChildLinked(nodes, i, nodes[i].left) && ChildLinked(nodes, i, nodes[i].right)
    ensures forall u | u in InOrderFrom(nodes, nodes[i].left) :: u < |nodes| && Compare(nodes[u].value, nodes[i].value) < 0
    ensures forall v | v in InOrderFrom(nodes, nodes[i].right) :: v < |nodes| && Compare(nodes[i].value, nodes[v].value) < 0
  {
    assert ChildLinked(nodes, i, nodes[i].left) && ChildLinked(nodes, i, nodes[i].right);
    var left, right := nodes[i].left, nodes[i].right;
    if left.Some? {
      InOrderMembers(nodes, left.value);
    }
    if right.Some? {
      InOrderMembers(nodes, right.value);
    }
    forall u | u in InOrderFrom(nodes, left)
      ensures u < |nodes| && Compare(nodes[u].value, nodes[i].value) < 0
    {
      assert InLeft(nodes, u, i);
    }
    forall v | v in InOrderFrom(nodes, right)
      ensures v < |nodes| && Compare(nodes[i].value, nodes[v].value) < 0
    {
      assert InRight(nodes, v, i);
    }
  }
}
