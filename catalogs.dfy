/**
 * catalog/Catalog.go: the catalog that owns the term tree, fills it from the
 * files under the configured paths, and answers lookups and searches.
 */
module Catalogs {
  import opened Wrappers
  import opened Config
  import opened Documents
  import opened Terms
  import opened Nodes
  import opened TreeShape
  import opened Trees
  import opened PhysicalFiles
  import opened Merging
  import GoStrings

  /**
   * One path `filepath.Walk` visits: the path, whether it is a directory, the
   * contents `Read` returns for it, and what the regular-expression engine
   * reports on those contents, one list of matches per text pattern.
   */
  datatype WalkEntry = WalkEntry(path: string, isDir: bool, contents: string, scans: seq<seq<RegexMatch>>)

  /** The path contains one of the configured file patterns. */
  predicate MatchesFilePattern(path: string, filePatterns: seq<string>)
  {
    exists fp | fp in filePatterns :: GoStrings.Contains(path, fp)
  }

  /** The walk filter: a file (not a directory) whose path contains one of the configured file patterns. */
  predicate Selected(entry: WalkEntry, filePatterns: seq<string>)
  {
    !entry.isDir && MatchesFilePattern(entry.path, filePatterns)
  }

  /** The walks of all base paths, one after the other. */
  function Flatten(walk: seq<seq<WalkEntry>>): (entries: seq<WalkEntry>)
    ensures forall b, x | 0 <= b < |walk| && x in walk[b] :: x in entries
  {
    if walk == [] then []
    else
      var n := |walk| - 1;
      var prior := Flatten(walk[..n]);
      assert forall b | 0 <= b < n :: walk[..n][b] == walk[b];
      prior + walk[n]
  }

  /** The entries the filter selects, in walk order. */
  function Selection(entries: seq<WalkEntry>, filePatterns: seq<string>): seq<WalkEntry>
  {
    if entries == [] then []
    else
      var n := |entries| - 1;
      Selection(entries[..n], filePatterns) + (if Selected(entries[n], filePatterns) then [entries[n]] else [])
  }

  /** The selection holds exactly the selected entries of the walk. */
  lemma {:induction false} SelectionMembers(entries: seq<WalkEntry>, filePatterns: seq<string>)
    ensures forall x :: x in Selection(entries, filePatterns) <==> x in entries && Selected(x, filePatterns)
  {
    if entries != [] {
      var n := |entries| - 1;
      SelectionMembers(entries[..n], filePatterns);
      assert entries == entries[..n] + [entries[n]];
    }
  }

  /** The index `CreateIndex` builds for a selected file. */
  function FileIndex(entry: WalkEntry, textPatterns: seq<TextPattern>): DocumentIndex
    requires ScansFit(textPatterns, entry.scans)
  {
    IndexOf(entry.path, Produced(textPatterns, entry.scans))
  }

  /** The engine's output for every file in `entries` fits the text patterns. */
  ghost predicate AllFit(entries: seq<WalkEntry>, textPatterns: seq<TextPattern>)
  {
    forall x | x in entries :: ScansFit(textPatterns, x.scans)
  }

  /** Every entry of every file's index is covered by `terms`. */
  ghost predicate IndexesCovered(terms: seq<Term>, files: seq<WalkEntry>, textPatterns: seq<TextPattern>)
  {
    forall x, k | x in files && ScansFit(textPatterns, x.scans) && k in FileIndex(x, textPatterns) ::
      Covered(terms, k, FileIndex(x, textPatterns)[k])
  }

  /** `order` lists every entry of `index` exactly once: one of the orders a Go `range` over the map may take. */
  ghost predicate Enumerates(order: seq<Entry>, index: DocumentIndex)
  {
    && (forall j | 0 <= j < |order| :: order[j].0 in index && index[order[j].0] == order[j].1)
    && (forall k | k in index :: exists j | 0 <= j < |order| :: order[j].0 == k)
    && (forall a, b | 0 <= a < b < |order| :: order[a].0 != order[b].0)
  }

  /** Merging the indexes of several files, file after file, each in the order given. */
  ghost function MergeFiles(terms: seq<Term>, orders: seq<seq<Entry>>): seq<Term>
  {
    if orders == [] then terms
    else MergeAll(MergeFiles(terms, orders[..|orders| - 1]), orders[|orders| - 1])
  }

  /** The file filter of `Index` (catalog/Catalog.go:129-136): does the path contain one of the file patterns? */
  method IsFilePatternMatch(path: string, filePatterns: seq<string>) returns (isFilePatternMatch: bool)
    ensures isFilePatternMatch <==> MatchesFilePattern(path, filePatterns)
  {
    isFilePatternMatch := false;
    for i := 0 to |filePatterns|
      invariant forall j | 0 <= j < i :: !GoStrings.Contains(path, filePatterns[j])
    {
      if GoStrings.Contains(path, filePatterns[i]) {
        isFilePatternMatch := true;
        break;
      }
    }
  }

  /**
   * The match loop of `Index` (catalog/Catalog.go:101-109): the document's
   * matches followed by each incoming match whose location the document did
   * not hold before the loop.
   */
  method AppendNewMatches(existingDocument: Document, newMatches: seq<PatternMatch>) returns (currentMatches: seq<PatternMatch>)
    ensures currentMatches == existingDocument.matches + NewMatches(existingDocument, newMatches)
  {
    currentMatches := existingDocument.matches;
    for i := 0 to |newMatches|
      invariant currentMatches == existingDocument.matches + NewMatches(existingDocument, newMatches[..i])
    {
      var newMatch := newMatches[i];
      assert newMatches[..i + 1][..i] == newMatches[..i];
      if !HasMatchIndex(existingDocument, newMatch.location) {
        currentMatches := currentMatches + [newMatch];
      }
    }
    assert newMatches[..|newMatches|] == newMatches;
  }

  /** A tree's terms have keys distinct ignoring case. */
  lemma TermsDistinct(nodes: seq<Node>)
    requires DistinctKeys(nodes)
    ensures DistinctTermKeys(TermsOf(nodes))
  {
  }

  /** The terms read off the found nodes are `TermsAt` of them, and hold exactly the matching terms. */
  lemma SearchTerms(nodes: seq<Node>, found: seq<nat>, terms: seq<Term>, searchTerm: string)
    requires forall i: nat :: i in found <==> i < |nodes| && KeyContains(nodes[i].value, searchTerm)
    requires |terms| == |found| && InStore(nodes, found)
    requires forall k | 0 <= k < |found| :: terms[k] == nodes[found[k]].value
    ensures terms == TermsAt(nodes, found)
    ensures forall t | t in terms :: KeyContains(t, searchTerm)
    ensures forall i | 0 <= i < |nodes| && KeyContains(nodes[i].value, searchTerm) :: nodes[i].value in terms
  {
    forall t | t in terms
      ensures KeyContains(t, searchTerm)
    {
      var k :| 0 <= k < |terms| && terms[k] == t;
      assert found[k] in found;
    }
    forall i | 0 <= i < |nodes| && KeyContains(nodes[i].value, searchTerm)
      ensures nodes[i].value in terms
    {
      var k :| 0 <= k < |found| && found[k] == i;
      assert terms[k] == nodes[i].value;
    }
  }

  /** The loop of `Search` (catalog/Catalog.go:229-233): a new array holding the term of each found node, in order. */
  method CollectTerms(store: seq<Node>, nodes: seq<nat>) returns (results: array<Term>)
    requires InStore(store, nodes)
    ensures fresh(results)
    ensures results[..] == TermsAt(store, nodes)
  {
    results := new Term[|nodes|];
    for index := 0 to |nodes|
      invariant forall k | 0 <= k < index :: results[k] == store[nodes[k]].value
    {
      results[index] := store[nodes[index]].value;
    }
  }

  /**
   * Rewriting the documents of node `n`, whose term is the one `key` looks
   * up, to what `MergeDocuments` gives keeps the tree valid and turns its
   * terms into `MergeTerm` of them.
   */
  lemma MergeInPlace(root: Option<nat>, nodes: seq<Node>, n: nat, key: string, newDocument: Document)
    requires ValidTree(root, nodes) && n < |nodes|
    requires LookupTerm(TermsOf(nodes), key) == Some(n)
    ensures
      var node := nodes[n];
      var updated := nodes[n := node.(value := node.value.(documents := MergeDocuments(node.value.documents, newDocument)))];
      && ValidTree(root, updated)
      && TermsOf(updated) == MergeTerm(TermsOf(nodes), key, newDocument)
      && updated[0].value.key == nodes[0].value.key
  {
    var node := nodes[n];
    var updated := nodes[n := node.(value := node.value.(documents := MergeDocuments(node.value.documents, newDocument)))];
    SameShapeValid(root, nodes, updated);
    assert TermsOf(updated) == MergeTerm(TermsOf(nodes), key, newDocument);
  }

  /** Walking one more entry selects it exactly when the filter does. */
  lemma SelectionStep(entries: seq<WalkEntry>, x: WalkEntry, filePatterns: seq<string>)
    ensures Selection(entries + [x], filePatterns)
         == Selection(entries, filePatterns) + (if Selected(x, filePatterns) then [x] else [])
  {
    assert (entries + [x])[..|entries|] == entries;
  }

  /** A prefix one longer is the prefix and the next element. */
  lemma PrefixStep(entries: seq<WalkEntry>, e: nat)
    requires e < |entries|
    ensures entries[..e + 1] == entries[..e] + [entries[e]]
  {
  }

  /** The selection of two walks one after the other. */
  lemma {:induction false} SelectionConcat(first: seq<WalkEntry>, second: seq<WalkEntry>, filePatterns: seq<string>)
    ensures Selection(first + second, filePatterns) == Selection(first, filePatterns) + Selection(second, filePatterns)
  {
    if second == [] {
      assert first + second == first;
    } else {
      var n := |second| - 1;
      var x := second[n];
      var tail := if Selected(x, filePatterns) then [x] else [];
      calc {
        Selection(first + second, filePatterns);
        { assert first + second == (first + second[..n]) + [x]; }
        Selection((first + second[..n]) + [x], filePatterns);
        { SelectionStep(first + second[..n], x, filePatterns); }
        Selection(first + second[..n], filePatterns) + tail;
        { SelectionConcat(first, second[..n], filePatterns); }
        (Selection(first, filePatterns) + Selection(second[..n], filePatterns)) + tail;
        Selection(first, filePatterns) + (Selection(second[..n], filePatterns) + tail);
        { SelectionStep(second[..n], x, filePatterns); assert second[..n] + [x] == second; }
        Selection(first, filePatterns) + Selection(second, filePatterns);
      }
    }
  }

  /** Finishing the walk of base path `b` appends its entries. */
  lemma FlattenStep(walk: seq<seq<WalkEntry>>, b: nat)
    requires b < |walk|
    ensures Flatten(walk[..b + 1]) == Flatten(walk[..b]) + walk[b]
  {
    assert walk[..b + 1][..b] == walk[..b];
  }

  /** Merging one more file's index. */
  lemma MergeFilesStep(terms: seq<Term>, orders: seq<seq<Entry>>, order: seq<Entry>)
    ensures MergeFiles(terms, orders + [order]) == MergeAll(MergeFiles(terms, orders), order)
  {
    assert (orders + [order])[..|orders|] == orders;
  }

  /** Merging one more entry. */
  lemma MergeAllStep(terms: seq<Term>, order: seq<Entry>, e: Entry)
    ensures MergeAll(terms, order + [e]) == MergeTerm(MergeAll(terms, order), e.0, e.1)
  {
    assert (order + [e])[..|order|] == order;
  }

  /** Merging more entries keeps every file's index covered. */
  lemma IndexesStayCovered(terms: seq<Term>, files: seq<WalkEntry>, textPatterns: seq<TextPattern>, entries: seq<Entry>)
    requires IndexesCovered(terms, files, textPatterns)
    ensures IndexesCovered(MergeAll(terms, entries), files, textPatterns)
  {
    forall x, k | x in files && ScansFit(textPatterns, x.scans) && k in FileIndex(x, textPatterns)
      ensures Covered(MergeAll(terms, entries), k, FileIndex(x, textPatterns)[k])
    {
      CoveredStaysAll(terms, k, FileIndex(x, textPatterns)[k], entries);
    }
  }

  /**
   * Part way through a `range` over `index`: `remaining` holds the entries not
   * yet visited, and `order` the visited ones, each once, in visiting order.
   */
  ghost predicate Progress(index: DocumentIndex, remaining: DocumentIndex, order: seq<Entry>)
  {
    && (forall k | k in remaining :: k in index && remaining[k] == index[k])
    && (forall j | 0 <= j < |order| :: order[j].0 in index && order[j].0 !in remaining && index[order[j].0] == order[j].1)
    && (forall k | k in index && k !in remaining :: exists j | 0 <= j < |order| :: order[j].0 == k)
    && (forall a, b | 0 <= a < b < |order| :: order[a].0 != order[b].0)
  }

  lemma ProgressStep(index: DocumentIndex, remaining: DocumentIndex, order: seq<Entry>, key: string)
    requires Progress(index, remaining, order) && key in remaining
    ensures key in index && remaining[key] == index[key]
    ensures Progress(index, remaining - {key}, order + [(key, remaining[key])])
    ensures |remaining - {key}| < |remaining|
  {
    var next := order + [(key, remaining[key])];
    TakenStep(index, remaining, order, key);
    assert forall j | 0 <= j < |order| :: next[j] == order[j];
    RemoveShrinks(remaining, key);
  }

  /** After taking `key`, every entry taken so far still appears in the order. */
  lemma TakenStep(index: DocumentIndex, remaining: DocumentIndex, order: seq<Entry>, key: string)
    requires Progress(index, remaining, order) && key in remaining
    ensures forall k | k in index && k !in remaining - {key} ::
      exists j | 0 <= j < |order| + 1 :: (order + [(key, remaining[key])])[j].0 == k
  {
    var next := order + [(key, remaining[key])];
    forall k | k in index && k !in remaining - {key}
      ensures exists j | 0 <= j < |next| :: next[j].0 == k
    {
      if k == key {
        assert next[|order|].0 == k;
      } else {
        var j :| 0 <= j < |order| && order[j].0 == k;
        assert next[j].0 == k;
      }
    }
  }

  lemma RemoveShrinks(remaining: DocumentIndex, key: string)
    requires key in remaining
    ensures |remaining - {key}| < |remaining|
  {
    assert remaining.Keys == (remaining - {key}).Keys + {key};
  }

  /** A finished `range` visited every entry once. */
  lemma ProgressDone(index: DocumentIndex, order: seq<Entry>)
    requires Progress(index, map[], order)
    ensures Enumerates(order, index)
  {
  }

  /** Every entry of `index` is covered by `terms`. */
  ghost predicate IndexCovered(terms: seq<Term>, index: DocumentIndex)
  {
    forall k | k in index :: Covered(terms, k, index[k])
  }

  /** Every visited entry of `index` is covered by `terms`. */
  ghost predicate VisitedCovered(terms: seq<Term>, index: DocumentIndex, remaining: DocumentIndex)
  {
    forall k | k in index && k !in remaining :: Covered(terms, k, index[k])
  }

  lemma VisitedCoveredStep(terms: seq<Term>, index: DocumentIndex, remaining: DocumentIndex, key: string)
    requires VisitedCovered(terms, index, remaining) && key in index
    ensures VisitedCovered(MergeTerm(terms, key, index[key]), index, remaining - {key})
  {
    forall k | k in index && k !in remaining - {key}
      ensures Covered(MergeTerm(terms, key, index[key]), k, index[k])
    {
      if k == key {
        MergeTermCovers(terms, key, index[key]);
      } else {
        CoveredStays(terms, k, index[k], key, index[key]);
      }
    }
  }

  /**
   * Part way through the `range` over `index`: the entries taken so far are
   * `order`, the rest are `remaining`, `terms` is the result of merging
   * `order` into `start`, and every entry taken is covered.
   */
  ghost predicate MergedSoFar(start: seq<Term>, index: DocumentIndex, remaining: DocumentIndex, order: seq<Entry>, terms: seq<Term>)
  {
    && Progress(index, remaining, order)
    && terms == MergeAll(start, order)
    && VisitedCovered(terms, index, remaining)
  }

  /** One round of the `range` over `index`: merging `key` keeps the loop's bookkeeping. */
  lemma MergeIndexStep(start: seq<Term>, index: DocumentIndex, remaining: DocumentIndex, order: seq<Entry>,
                       terms: seq<Term>, key: string, after: seq<Term>)
    requires MergedSoFar(start, index, remaining, order, terms) && key in remaining
    requires after == MergeTerm(terms, key, remaining[key])
    ensures MergedSoFar(start, index, remaining - {key}, order + [(key, remaining[key])], after)
    ensures |remaining - {key}| < |remaining|
    ensures |after| == |terms| + (if LookupTerm(terms, key).None? then 1 else 0)
    ensures key in index && remaining[key] == index[key]
  {
    ProgressStep(index, remaining, order, key);
    VisitedCoveredStep(terms, index, remaining, key);
    MergeTermEffect(terms, key, remaining[key]);
    MergeAllStep(start, order, (key, remaining[key]));
  }

  /** Before the `range`, nothing has been taken. */
  lemma MergeIndexStart(start: seq<Term>, index: DocumentIndex)
    ensures MergedSoFar(start, index, index, [], start)
  {
  }

  /** After the `range`, every entry was taken once and is covered. */
  lemma MergeIndexDone(start: seq<Term>, index: DocumentIndex, order: seq<Entry>, terms: seq<Term>)
    requires MergedSoFar(start, index, map[], order, terms)
    ensures Enumerates(order, index)
    ensures terms == MergeAll(start, order)
    ensures IndexCovered(terms, index)
  {
  }

  /**
   * After indexing `files` from `start`: each file's index was merged in
   * the order `orders` gives for it, the terms are the result, and every
   * entry of every file's index is covered by them.
   */
  ghost predicate Indexed(start: seq<Term>, files: seq<WalkEntry>, orders: seq<seq<Entry>>, terms: seq<Term>, textPatterns: seq<TextPattern>)
  {
    && AllFit(files, textPatterns)
    && |orders| == |files|
    && (forall f | 0 <= f < |files| :: Enumerates(orders[f], FileIndex(files[f], textPatterns)))
    && terms == MergeFiles(start, orders)
    && IndexesCovered(terms, files, textPatterns)
  }

  lemma IndexedStart(start: seq<Term>, textPatterns: seq<TextPattern>)
    ensures Indexed(start, [], [], start, textPatterns)
  {
  }

  lemma IndexedStep(start: seq<Term>, files: seq<WalkEntry>, orders: seq<seq<Entry>>, terms: seq<Term>,
                    textPatterns: seq<TextPattern>, entry: WalkEntry, order: seq<Entry>)
    requires Indexed(start, files, orders, terms, textPatterns)
    requires ScansFit(textPatterns, entry.scans)
    requires Enumerates(order, FileIndex(entry, textPatterns))
    ensures Indexed(start, files + [entry], orders + [order], MergeAll(terms, order), textPatterns)
  {
    var after := MergeAll(terms, order);
    MergeFilesStep(start, orders, order);
    IndexesStayCovered(terms, files, textPatterns, order);
    EnumeratedCovered(terms, order, FileIndex(entry, textPatterns));
    CoveredAppend(after, files, entry, textPatterns);
    EnumeratesAppend(files, orders, entry, order, textPatterns);
  }

  /** Merging an enumeration of an index covers every entry of the index. */
  lemma EnumeratedCovered(terms: seq<Term>, order: seq<Entry>, index: DocumentIndex)
    requires Enumerates(order, index)
    ensures IndexCovered(MergeAll(terms, order), index)
  {
    MergeAllCovers(terms, order);
    forall k | k in index
      ensures Covered(MergeAll(terms, order), k, index[k])
    {
      var j :| 0 <= j < |order| && order[j].0 == k;
      assert order[j] in order;
    }
  }

  lemma CoveredAppend(terms: seq<Term>, files: seq<WalkEntry>, entry: WalkEntry, textPatterns: seq<TextPattern>)
    requires IndexesCovered(terms, files, textPatterns)
    requires ScansFit(textPatterns, entry.scans) && IndexCovered(terms, FileIndex(entry, textPatterns))
    ensures IndexesCovered(terms, files + [entry], textPatterns)
  {
    forall x | x in files + [entry] ensures x in files || x == entry { }
  }

  lemma EnumeratesAppend(files: seq<WalkEntry>, orders: seq<seq<Entry>>, entry: WalkEntry, order: seq<Entry>,
                         textPatterns: seq<TextPattern>)
    requires AllFit(files, textPatterns) && ScansFit(textPatterns, entry.scans) && |orders| == |files|
    requires forall f | 0 <= f < |files| :: Enumerates(orders[f], FileIndex(files[f], textPatterns))
    requires Enumerates(order, FileIndex(entry, textPatterns))
    ensures AllFit(files + [entry], textPatterns)
    ensures forall f | 0 <= f < |files| + 1 :: Enumerates((orders + [order])[f], FileIndex((files + [entry])[f], textPatterns))
  {
    forall x | x in files + [entry] ensures x in files || x == entry { }
    forall f | 0 <= f < |files| + 1
      ensures Enumerates((orders + [order])[f], FileIndex((files + [entry])[f], textPatterns))
    {
      if f < |files| {
        assert (orders + [order])[f] == orders[f] && (files + [entry])[f] == files[f];
      } else {
        assert (orders + [order])[f] == order && (files + [entry])[f] == entry;
      }
    }
  }

  /** Visiting entry `e` of a walk: a selected file is indexed after those selected before it, anything else changes nothing. */
  lemma WalkStep(start: seq<Term>, entries: seq<WalkEntry>, e: nat, filePatterns: seq<string>, textPatterns: seq<TextPattern>,
                 orders: seq<seq<Entry>>, before: seq<Term>, indexed: bool, order: seq<Entry>, after: seq<Term>)
    requires e < |entries| && AllFit(entries, textPatterns)
    requires Indexed(start, Selection(entries[..e], filePatterns), orders, before, textPatterns)
    requires indexed == Selected(entries[e], filePatterns)
    requires !indexed ==> after == before
    requires indexed ==> Enumerates(order, FileIndex(entries[e], textPatterns)) && after == MergeAll(before, order)
    ensures Indexed(start, Selection(entries[..e + 1], filePatterns), if indexed then orders + [order] else orders, after, textPatterns)
    ensures |Selection(entries[..e + 1], filePatterns)| == |Selection(entries[..e], filePatterns)| + (if indexed then 1 else 0)
  {
    var x := entries[e];
    var files := Selection(entries[..e], filePatterns);
    PrefixStep(entries, e);
    SelectionStep(entries[..e], x, filePatterns);
    if indexed {
      assert Selection(entries[..e + 1], filePatterns) == files + [x];
      assert x in entries;
      IndexedStep(start, files, orders, before, textPatterns, x, order);
    } else {
      assert Selection(entries[..e + 1], filePatterns) == files;
    }
  }

  /** Merging the files of two walks is merging those of the first, then those of the second. */
  lemma {:induction false} MergeFilesConcat(terms: seq<Term>, first: seq<seq<Entry>>, second: seq<seq<Entry>>)
    ensures MergeFiles(terms, first + second) == MergeFiles(MergeFiles(terms, first), second)
  {
    if second == [] {
      assert first + second == first;
    } else {
      var n := |second| - 1;
      assert (first + second)[..|first + second| - 1] == first + second[..n];
      MergeFilesConcat(terms, first, second[..n]);
    }
  }

  /** Merging more files keeps every earlier file's index covered. */
  lemma {:induction false} IndexesStayCoveredFiles(terms: seq<Term>, files: seq<WalkEntry>, textPatterns: seq<TextPattern>, orders: seq<seq<Entry>>)
    requires IndexesCovered(terms, files, textPatterns)
    ensures IndexesCovered(MergeFiles(terms, orders), files, textPatterns)
  {
    if orders != [] {
      var n := |orders| - 1;
      IndexesStayCoveredFiles(terms, files, textPatterns, orders[..n]);
      IndexesStayCovered(MergeFiles(terms, orders[..n]), files, textPatterns, orders[n]);
    }
  }

  /** Indexing two walks one after the other indexes the files of both. */
  lemma IndexedConcat(start: seq<Term>, files: seq<WalkEntry>, orders: seq<seq<Entry>>, middle: seq<Term>,
                      more: seq<WalkEntry>, moreOrders: seq<seq<Entry>>, terms: seq<Term>, textPatterns: seq<TextPattern>)
    requires Indexed(start, files, orders, middle, textPatterns)
    requires Indexed(middle, more, moreOrders, terms, textPatterns)
    ensures Indexed(start, files + more, orders + moreOrders, terms, textPatterns)
  {
    MergeFilesConcat(start, orders, moreOrders);
    IndexesStayCoveredFiles(middle, files, textPatterns, moreOrders);
    CoveredUnion(terms, files, more, textPatterns);
    EnumeratesConcat(files, orders, more, moreOrders, textPatterns);
  }

  lemma CoveredUnion(terms: seq<Term>, files: seq<WalkEntry>, more: seq<WalkEntry>, textPatterns: seq<TextPattern>)
    requires IndexesCovered(terms, files, textPatterns) && IndexesCovered(terms, more, textPatterns)
    ensures IndexesCovered(terms, files + more, textPatterns)
  {
    forall x | x in files + more ensures x in files || x in more { }
  }

  lemma EnumeratesConcat(files: seq<WalkEntry>, orders: seq<seq<Entry>>, more: seq<WalkEntry>, moreOrders: seq<seq<Entry>>,
                         textPatterns: seq<TextPattern>)
    requires AllFit(files, textPatterns) && AllFit(more, textPatterns)
    requires |orders| == |files| && |moreOrders| == |more|
    requires forall f | 0 <= f < |files| :: Enumerates(orders[f], FileIndex(files[f], textPatterns))
    requires forall f | 0 <= f < |more| :: Enumerates(moreOrders[f], FileIndex(more[f], textPatterns))
    ensures AllFit(files + more, textPatterns)
    ensures forall f | 0 <= f < |files + more| :: Enumerates((orders + moreOrders)[f], FileIndex((files + more)[f], textPatterns))
  {
    forall x | x in files + more ensures x in files || x in more { }
    forall f | 0 <= f < |files + more|
      ensures Enumerates((orders + moreOrders)[f], FileIndex((files + more)[f], textPatterns))
    {
      if f < |files| {
        assert (files + more)[f] == files[f];
        assert (orders + moreOrders)[f] == orders[f];
      } else {
        assert (files + more)[f] == more[f - |files|];
        assert (orders + moreOrders)[f] == moreOrders[f - |files|];
      }
    }
  }

  /** The files of a walk are covered if those of any longer walk containing it are. */
  lemma CoveredPart(terms: seq<Term>, part: seq<WalkEntry>, whole: seq<WalkEntry>, textPatterns: seq<TextPattern>)
    requires forall x | x in part :: x in whole
    requires IndexesCovered(terms, whole, textPatterns)
    ensures IndexesCovered(terms, part, textPatterns)
  {
  }

  class Catalog {
    const basePaths: seq<string>
    const config: Configuration
    const textPatterns: seq<TextPattern>
    const tree: Tree

    /**
     * The catalog invariant: a valid tree whose root still holds the sentinel
     * key "mn", and no term holding two documents with the same name.
     */
    ghost predicate Valid()
      reads this, tree
    {
      && tree.Valid()
      && |tree.nodes| > 0
      && tree.nodes[0].value.key == "mn"
      && AllUniqueNames(tree.Terms())
    }

    /** `NewCatalog`: a catalog over `config` whose tree holds just the sentinel term "mn". */
    constructor NewCatalog(config: Configuration)
      ensures Valid() && fresh(tree)
      ensures this.config == config && basePaths == config.paths && textPatterns == config.textPatterns
      ensures tree.Terms() == [NewTerm("mn")]
    {
      basePaths := config.paths;
      this.config := config;
      textPatterns := config.textPatterns;
      tree := new Tree.NewTree(NewTerm("mn"));
    }

    /**
     * `FindTerm`: the term whose key equals `searchTerm` ignoring case, or None
     * when there is none. The sentinel makes "mn", in any case, always found.
     */
    method FindTerm(searchTerm: string) returns (r: Option<Term>)
      requires Valid()
      ensures r == (match LookupTerm(tree.Terms(), searchTerm)
                    case None => None
                    case Some(i) => Some(tree.Terms()[i]))
      ensures GoStrings.ToLower(searchTerm) == "mn" ==> r.Some?
    {
      var node := tree.Find(NewTerm(searchTerm));
      assert GoStrings.ToLower("mn") == "mn";
      if node.None? {
        assert forall i | 0 <= i < |tree.nodes| :: !Equal(NewTerm(searchTerm), tree.Terms()[i]);
        return None;
      }
      TermsDistinct(tree.nodes);
      LookupUnique(tree.Terms(), searchTerm, node.value);
      return Some(tree.nodes[node.value].value);
    }

    /**
     * `Search`: the terms of the nodes `Tree.Search` finds, in the same order,
     * or None (Go's nil) when it finds none. Every term returned has a key
     * containing `searchTerm` ignoring case, and every such term is returned.
     */
    method Search(searchTerm: string) returns (r: Option<seq<Term>>)
      requires Valid()
      ensures r.None? <==> tree.SearchResult(searchTerm) == []
      ensures r.Some? ==> r.value == TermsAt(tree.nodes, tree.SearchResult(searchTerm))
      ensures r.Some? ==> forall t | t in r.value :: KeyContains(t, searchTerm)
      ensures forall i | 0 <= i < |tree.nodes| && KeyContains(tree.nodes[i].value, searchTerm) ::
        r.Some? && tree.nodes[i].value in r.value
    {
      var nodes := tree.Search(searchTerm);
      if nodes == [] {
        return None;
      }
      var store := tree.nodes;
      var results := CollectTerms(store, nodes);
      SearchTerms(store, nodes, results[..], searchTerm);
      r := Some(results[..]);
    }

    /**
     * Merging one entry of a file's index into the tree (catalog/Catalog.go:78-111):
     * the tree's terms become `MergeTerm` of what they were, a term is created
     * exactly when no term had the key, and an entry with nothing new leaves
     * the tree untouched.
     */
    method MergeEntry(key: string, newDocument: Document) returns (created: bool)
      requires Valid()
      modifies tree
      ensures Valid()
      ensures tree.Terms() == MergeTerm(old(tree.Terms()), key, newDocument)
      ensures created <==> LookupTerm(old(tree.Terms()), key).None?
      ensures Covered(old(tree.Terms()), key, newDocument) ==> tree.nodes == old(tree.nodes)
    {
      var termToFind := NewTerm(key).(documents := [newDocument]);
      ghost var terms := tree.Terms();
      var existingTermNode := tree.Find(termToFind);
      if existingTermNode.None? {
        assert LookupTerm(terms, key).None?;
        var _ := tree.Add(termToFind);
        assert tree.Terms() == terms + [termToFind];
        assert tree.nodes[0].value == terms[0];
        assert termToFind == FirstTerm(key, newDocument);
        MergeTermUnique(terms, key, newDocument);
        created := true;
      } else {
        var n := existingTermNode.value;
        TermsDistinct(tree.nodes);
        LookupUnique(terms, key, n);
        var node := tree.nodes[n];
        var documents := node.value.documents;
        var existingDocument := FindDocument(documents, newDocument.documentName);
        if existingDocument.None? {
          documents := documents + [newDocument];
        } else {
          var d := existingDocument.value;
          var currentMatches := AppendNewMatches(documents[d], newDocument.matches);
          documents := documents[d := documents[d].(matches := currentMatches)];
        }
        assert documents == MergeDocuments(node.value.documents, newDocument);
        MergeInPlace(tree.root, tree.nodes, n, key, newDocument);
        tree.nodes := tree.nodes[n := node.(value := node.value.(documents := documents))];
        MergeTermUnique(terms, key, newDocument);
        if Covered(terms, key, newDocument) {
          CoveredMergeUnchanged(terms, key, newDocument);
          assert tree.nodes[n] == old(tree.nodes)[n];
        }
        created := false;
      }
    }

    /**
     * The `range` over one file's index in `Index` (catalog/Catalog.go:77-112):
     * every entry is merged once, in an order Go leaves unspecified and that
     * `order` records. Afterwards every entry of the index is covered; if every
     * entry was covered before, the tree is untouched.
     */
    method MergeIndex(index: DocumentIndex) returns (created: nat, ghost order: seq<Entry>)
      requires Valid()
      modifies tree
      ensures Valid()
      ensures Enumerates(order, index)
      ensures tree.Terms() == MergeAll(old(tree.Terms()), order)
      ensures |tree.Terms()| == |old(tree.Terms())| + created
      ensures IndexCovered(tree.Terms(), index)
      ensures IndexCovered(old(tree.Terms()), index) ==> tree.nodes == old(tree.nodes)
    {
      var remaining := index;
      order := [];
      created := 0;
      ghost var start := tree.Terms();
      ghost var allCovered := IndexCovered(start, index);
      MergeIndexStart(start, index);
      while remaining != map[]
        invariant Valid()
        invariant MergedSoFar(start, index, remaining, order, tree.Terms())
        invariant |tree.Terms()| == |start| + created
        invariant allCovered ==> tree.nodes == old(tree.nodes)
        decreases |remaining|
      {
        var key :| key in remaining;
        var newDocument := remaining[key];
        ghost var before := tree.Terms();
        MergeIndexStep(start, index, remaining, order, before, key, MergeTerm(before, key, newDocument));
        if allCovered {
          assert before == start;
        }
        var wasCreated := MergeEntry(key, newDocument);
        if wasCreated {
          created := created + 1;
        }
        order := order + [(key, newDocument)];
        remaining := remaining - {key};
      }
      MergeIndexDone(start, index, order, tree.Terms());
    }

    /**
     * The callback `Index` passes to `filepath.Walk` (catalog/Catalog.go:124-160),
     * for one visited path: a selected file is read, scanned by `CreateIndex`
     * and its index merged, in an order `order` records; anything else leaves
     * the tree untouched. A file whose index is covered leaves it untouched too.
     */
    method Visit(entry: WalkEntry) returns (indexed: bool, created: nat, ghost order: seq<Entry>)
      requires Valid() && ScansFit(textPatterns, entry.scans)
      modifies tree
      ensures Valid()
      ensures indexed == Selected(entry, config.filePatterns)
      ensures !indexed ==> tree.nodes == old(tree.nodes) && created == 0
      ensures indexed ==>
        && Enumerates(order, FileIndex(entry, textPatterns))
        && tree.Terms() == MergeAll(old(tree.Terms()), order)
        && |tree.Terms()| == |old(tree.Terms())| + created
      ensures IndexesCovered(old(tree.Terms()), [entry], textPatterns) ==> tree.nodes == old(tree.nodes) && created == 0
    {
      indexed, created, order := false, 0, [];
      if !entry.isDir {
        var isFilePatternMatch := IsFilePatternMatch(entry.path, config.filePatterns);
        if !isFilePatternMatch {
          return;
        }
        indexed := true;
        var file := NewPhysicalFile(entry.path, textPatterns).(contents := entry.contents);
        var index := CreateIndex(file, entry.scans);
        assert index == FileIndex(entry, textPatterns);
        created, order := MergeIndex(index);
        assert entry in [entry];
      }
    }

    /**
     * `filepath.Walk` over one base path, calling `Visit` on each entry in
     * walk order. The selected files are indexed one after the other.
     */
    method WalkPath(entries: seq<WalkEntry>) returns (fileCount: nat, nodeCount: nat, ghost orders: seq<seq<Entry>>)
      requires Valid() && AllFit(entries, textPatterns)
      modifies tree
      ensures Valid()
      ensures fileCount == |Selection(entries, config.filePatterns)|
      ensures Indexed(old(tree.Terms()), Selection(entries, config.filePatterns), orders, tree.Terms(), textPatterns)
      ensures |tree.Terms()| == |old(tree.Terms())| + nodeCount
      ensures IndexesCovered(old(tree.Terms()), Selection(entries, config.filePatterns), textPatterns) ==>
        tree.nodes == old(tree.nodes) && nodeCount == 0
    {
      fileCount, nodeCount, orders := 0, 0, [];
      ghost var start := tree.Terms();
      ghost var allCovered := IndexesCovered(start, Selection(entries, config.filePatterns), textPatterns);
      IndexedStart(start, textPatterns);
      for e := 0 to |entries|
        invariant Valid()
        invariant fileCount == |Selection(entries[..e], config.filePatterns)|
        invariant Indexed(start, Selection(entries[..e], config.filePatterns), orders, tree.Terms(), textPatterns)
        invariant |tree.Terms()| == |start| + nodeCount
        invariant allCovered ==> tree.nodes == old(tree.nodes) && nodeCount == 0
      {
        var entry := entries[e];
        ghost var before := tree.Terms();
        if allCovered && Selected(entry, config.filePatterns) {
          SelectionMembers(entries, config.filePatterns);
          assert entry in entries;
          CoveredPart(start, [entry], Selection(entries, config.filePatterns), textPatterns);
        }
        var indexed, created, order := Visit(entry);
        WalkStep(start, entries, e, config.filePatterns, textPatterns, orders, before, indexed, order, tree.Terms());
        if indexed {
          fileCount := fileCount + 1;
          nodeCount := nodeCount + created;
          orders := orders + [order];
        }
      }
      assert entries[..|entries|] == entries;
    }

    /**
     * `Index` (catalog/Catalog.go:62-169), with what `filepath.Walk` visits under
     * each configured path given as `walk`: the paths are walked in order and
     * every selected file indexed. `fileCount` is the number of selected files
     * and `nodeCount` the number of terms added. Afterwards every entry of
     * every selected file's index is covered, so indexing the same files again
     * leaves the tree untouched and adds no node.
     */
    method Index(walk: seq<seq<WalkEntry>>) returns (fileCount: nat, nodeCount: nat, ghost orders: seq<seq<Entry>>)
      requires Valid()
      requires |walk| == |config.paths|
      requires AllFit(Flatten(walk), textPatterns)
      modifies tree
      ensures Valid()
      ensures fileCount == |Selection(Flatten(walk), config.filePatterns)|
      ensures Indexed(old(tree.Terms()), Selection(Flatten(walk), config.filePatterns), orders, tree.Terms(), textPatterns)
      ensures |tree.Terms()| == |old(tree.Terms())| + nodeCount
      ensures IndexesCovered(old(tree.Terms()), Selection(Flatten(walk), config.filePatterns), textPatterns) ==>
        tree.nodes == old(tree.nodes) && nodeCount == 0
    {
      fileCount, nodeCount, orders := 0, 0, [];
      ghost var start := tree.Terms();
      ghost var all := Selection(Flatten(walk), config.filePatterns);
      ghost var allCovered := IndexesCovered(start, all, textPatterns);
      IndexedStart(start, textPatterns);
      for b := 0 to |walk|
        invariant Valid()
        invariant fileCount == |Selection(Flatten(walk[..b]), config.filePatterns)|
        invariant Indexed(start, Selection(Flatten(walk[..b]), config.filePatterns), orders, tree.Terms(), textPatterns)
        invariant |tree.Terms()| == |start| + nodeCount
        invariant allCovered ==> tree.nodes == old(tree.nodes) && nodeCount == 0
      {
        ghost var files := Selection(Flatten(walk[..b]), config.filePatterns);
        ghost var before := tree.Terms();
        FlattenStep(walk, b);
        SelectionConcat(Flatten(walk[..b]), walk[b], config.filePatterns);
        if allCovered {
          SelectionMembers(walk[b], config.filePatterns);
          SelectionMembers(Flatten(walk), config.filePatterns);
          CoveredPart(start, Selection(walk[b], config.filePatterns), all, textPatterns);
        }
        var files', nodes', more := WalkPath(walk[b]);
        IndexedConcat(start, files, orders, before, Selection(walk[b], config.filePatterns), more, tree.Terms(), textPatterns);
        fileCount := fileCount + files';
        nodeCount := nodeCount + nodes';
        orders := orders + more;
      }
      assert walk[..|walk|] == walk;
    }
  }
}
