/**
 * The merge rules of `Catalog.Index` (catalog/Catalog.go:77-111), stated on
 * the list of the tree's terms in the order they were added. Merging one
 * entry `(key, newDocument)` of a file's index either adds a term, or appends
 * the document to the term with that key, or appends to that document the
 * incoming matches whose location it does not hold yet.
 */
module Merging {
  import opened Wrappers
  import opened Documents
  import opened Terms
  import opened Nodes

  /** One entry of a `DocumentIndex`: a key and the document filed under it. */
  type Entry = (string, Document)

  /** The position of a term whose key equals `key` ignoring case (the first, should there be several). */
  function LookupTerm(terms: seq<Term>, key: string): (r: Option<nat>)
    ensures r.Some? ==> r.value < |terms| && Equal(NewTerm(key), terms[r.value])
    ensures r.Some? ==> forall i | 0 <= i < r.value :: !Equal(NewTerm(key), terms[i])
    ensures r.None? <==> forall i | 0 <= i < |terms| :: !Equal(NewTerm(key), terms[i])
  {
    if |terms| == 0 then None
    else if Equal(NewTerm(key), terms[0]) then Some(0)
    else
      match LookupTerm(terms[1..], key)
      case None => None
      case Some(j) => Some(j + 1)
  }

  /**
   * The incoming matches worth appending to `existing`: those whose location
   * is not among the locations `existing` held before the merge, in order.
   */
  function NewMatches(existing: Document, incoming: seq<PatternMatch>): (r: seq<PatternMatch>)
    ensures forall m :: m in r <==> m in incoming && !HasMatchIndex(existing, m.location)
    ensures |r| <= |incoming|
  {
    if incoming == [] then []
    else
      var n := |incoming| - 1;
      var prior := NewMatches(existing, incoming[..n]);
      assert incoming == incoming[..n] + [incoming[n]];
      if HasMatchIndex(existing, incoming[n].location) then prior else prior + [incoming[n]]
  }

  /** Merging a document into a term's documents (catalog/Catalog.go:96-110). */
  function MergeDocuments(documents: seq<Document>, newDocument: Document): seq<Document>
  {
    match FindDocument(documents, newDocument.documentName)
    case None => documents + [newDocument]
    case Some(d) =>
      documents[d := documents[d].(matches := documents[d].matches + NewMatches(documents[d], newDocument.matches))]
  }

  /** One more incoming match is new exactly when its location is not in the document. */
  lemma NewMatchesStep(existing: Document, incoming: seq<PatternMatch>, m: PatternMatch)
    ensures NewMatches(existing, incoming + [m])
         == NewMatches(existing, incoming) + (if HasMatchIndex(existing, m.location) then [] else [m])
  {
    assert (incoming + [m])[..|incoming|] == incoming;
  }

  /** When the document already has every incoming location, no match is new. */
  lemma {:induction false} NothingNew(existing: Document, incoming: seq<PatternMatch>)
    requires forall m | m in incoming :: HasMatchIndex(existing, m.location)
    ensures NewMatches(existing, incoming) == []
  {
    if incoming != [] {
      var n := |incoming| - 1;
      assert forall m | m in incoming[..n] :: m in incoming;
      NothingNew(existing, incoming[..n]);
      assert incoming[n] in incoming;
    }
  }

  /** The term a key with no equal key in the tree is added as: the key, holding just the document. */
  function FirstTerm(key: string, newDocument: Document): Term
  {
    NewTerm(key).(documents := [newDocument])
  }

  /** Merging one entry of a file's index into the terms (catalog/Catalog.go:81-111). */
  function MergeTerm(terms: seq<Term>, key: string, newDocument: Document): seq<Term>
  {
    match LookupTerm(terms, key)
    case None => terms + [FirstTerm(key, newDocument)]
    case Some(i) => terms[i := terms[i].(documents := MergeDocuments(terms[i].documents, newDocument))]
  }

  /** Merging a sequence of entries, one after the other. */
  function MergeAll(terms: seq<Term>, entries: seq<Entry>): seq<Term>
  {
    if entries == [] then terms
    else
      var last := entries[|entries| - 1];
      MergeTerm(MergeAll(terms, entries[..|entries| - 1]), last.0, last.1)
  }

  /** No two documents of the list have the same name. */
  ghost predicate UniqueNames(documents: seq<Document>)
  {
    forall a, b | 0 <= a < b < |documents| :: documents[a].documentName != documents[b].documentName
  }

  /** No term holds two documents with the same name. */
  ghost predicate AllUniqueNames(terms: seq<Term>)
  {
    forall i | 0 <= i < |terms| :: UniqueNames(terms[i].documents)
  }

  /** No two terms have keys equal ignoring case. */
  ghost predicate DistinctTermKeys(terms: seq<Term>)
  {
    forall a, b | 0 <= a < b < |terms| :: !Equal(terms[a], terms[b])
  }

  /**
   * The entry has nothing left to add: a term with its key holds a document
   * with its name that already has a match at every location the entry's
   * document has.
   */
  ghost predicate Covered(terms: seq<Term>, key: string, newDocument: Document)
  {
    && LookupTerm(terms, key).Some?
    && var i := LookupTerm(terms, key).value;
       && FindDocument(terms[i].documents, newDocument.documentName).Some?
       && var d := FindDocument(terms[i].documents, newDocument.documentName).value;
          forall m | m in newDocument.matches :: HasMatchIndex(terms[i].documents[d], m.location)
  }

  // ---------------------------------------------------------------------------
  // One merge

  /**
   * A new key adds a term at the end holding just the document; a known key
   * changes only its own term's documents and keeps the first-added spelling.
   */
  lemma MergeTermEffect(terms: seq<Term>, key: string, newDocument: Document)
    ensures LookupTerm(terms, key).None? ==> MergeTerm(terms, key, newDocument) == terms + [Term(key, [newDocument])]
    ensures LookupTerm(terms, key).Some? ==>
      var i := LookupTerm(terms, key).value;
      var r := MergeTerm(terms, key, newDocument);
      && |r| == |terms|
      && r[i].key == terms[i].key
      && (forall j | 0 <= j < |terms| && j != i :: r[j] == terms[j])
  {
  }

  /**
   * Merging into a term's documents: a document with a new name is appended
   * and the others untouched; otherwise only the document with that name
   * changes, keeping its matches and gaining the incoming matches at new locations.
   */
  lemma {:induction false} MergeDocumentsEffect(documents: seq<Document>, newDocument: Document)
    ensures FindDocument(documents, newDocument.documentName).None? ==>
      MergeDocuments(documents, newDocument) == documents + [newDocument]
    ensures FindDocument(documents, newDocument.documentName).Some? ==>
      var d := FindDocument(documents, newDocument.documentName).value;
      var r := MergeDocuments(documents, newDocument);
      && |r| == |documents|
      && (forall j | 0 <= j < |documents| && j != d :: r[j] == documents[j])
      && r[d].documentName == documents[d].documentName
      && r[d].matches[..|documents[d].matches|] == documents[d].matches
      && (forall m :: m in r[d].matches[|documents[d].matches|..] <==>
            m in newDocument.matches && !HasMatchIndex(documents[d], m.location))
  {
    match FindDocument(documents, newDocument.documentName)
    case None =>
    case Some(d) =>
      var old_ := documents[d].matches;
      var added := NewMatches(documents[d], newDocument.matches);
      assert (old_ + added)[..|old_|] == old_;
      assert (old_ + added)[|old_|..] == added;
  }

  /**
   * Incoming matches are checked only against the locations the document held
   * before the merge, not against each other: two incoming matches at the same
   * location the document lacks are both appended.
   */
  lemma IncomingDuplicatesKept(documents: seq<Document>, d: nat, a: PatternMatch, b: PatternMatch)
    requires d < |documents| && FindDocument(documents, documents[d].documentName) == Some(d)
    requires a.location == b.location && !HasMatchIndex(documents[d], a.location)
    ensures MergeDocuments(documents, Document(documents[d].documentName, [a, b]))[d].matches
         == documents[d].matches + [a, b]
  {
    NewMatchesStep(documents[d], [], a);
    assert [] + [a] == [a];
    NewMatchesStep(documents[d], [a], b);
    assert [a] + [b] == [a, b];
  }

  /** Keys differing only in letter case merge into one term, which keeps the spelling merged first. */
  lemma CaseVariantsMergeIntoOne(terms: seq<Term>, key: string, variant: string, d1: Document, d2: Document)
    requires LookupTerm(terms, key).None?
    requires SameIgnoringCase(key, variant)
    ensures
      var r := MergeTerm(MergeTerm(terms, key, d1), variant, d2);
      && |r| == |terms| + 1
      && r[|terms|].key == key
      && r[..|terms|] == terms
  {
    var once := MergeTerm(terms, key, d1);
    assert once[|terms|] == FirstTerm(key, d1);
    CaseVariantsCompareEqual(NewTerm(key), NewTerm(variant));
    assert Equal(NewTerm(variant), once[|terms|]);
    assert LookupTerm(once, variant) == Some(|terms|);
  }

  // ---------------------------------------------------------------------------
  // Invariants a merge keeps

  /** Merging keeps the document names of each term distinct. */
  lemma MergeDocumentsUnique(documents: seq<Document>, newDocument: Document)
    requires UniqueNames(documents)
    ensures UniqueNames(MergeDocuments(documents, newDocument))
  {
    MergeDocumentsEffect(documents, newDocument);
  }

  /** Merging keeps the document names of every term distinct. */
  lemma MergeTermUnique(terms: seq<Term>, key: string, newDocument: Document)
    requires AllUniqueNames(terms)
    ensures AllUniqueNames(MergeTerm(terms, key, newDocument))
  {
    if LookupTerm(terms, key).Some? {
      MergeDocumentsUnique(terms[LookupTerm(terms, key).value].documents, newDocument);
    }
  }

  /** Merging keeps the keys distinct ignoring case: a key is only added when no term has it. */
  lemma MergeTermDistinct(terms: seq<Term>, key: string, newDocument: Document)
    requires DistinctTermKeys(terms)
    ensures DistinctTermKeys(MergeTerm(terms, key, newDocument))
  {
    var r := MergeTerm(terms, key, newDocument);
    if LookupTerm(terms, key).None? {
      forall a, b | 0 <= a < b < |r|
        ensures !Equal(r[a], r[b])
      {
        if b == |terms| {
          assert !Equal(NewTerm(key), terms[a]);
        }
      }
    }
  }

  /** With distinct keys, the term `LookupTerm` finds is the only one whose key equals `key`. */
  lemma LookupUnique(terms: seq<Term>, key: string, n: nat)
    requires DistinctTermKeys(terms)
    requires n < |terms| && Equal(NewTerm(key), terms[n])
    ensures LookupTerm(terms, key) == Some(n)
  {
  }

  // ---------------------------------------------------------------------------
  // Idempotence

  /** After an entry is merged it is covered. */
  lemma MergeTermCovers(terms: seq<Term>, key: string, newDocument: Document)
    ensures Covered(MergeTerm(terms, key, newDocument), key, newDocument)
  {
    var r := MergeTerm(terms, key, newDocument);
    match LookupTerm(terms, key)
    case None =>
      assert r[|terms|] == FirstTerm(key, newDocument);
      assert LookupTerm(r, key) == Some(|terms|);
      assert FindDocument(r[|terms|].documents, newDocument.documentName) == Some(0);
      HoldsOwnLocations(newDocument);
    case Some(i) =>
      LookupKeepsPrefix(terms, r, key, i);
      MergeDocumentsCovers(terms[i].documents, newDocument);
  }

  /** A document has a match at each of its matches' locations. */
  lemma HoldsOwnLocations(doc: Document)
    ensures forall m | m in doc.matches :: HasMatchIndex(doc, m.location)
  {
    forall m | m in doc.matches
      ensures HasMatchIndex(doc, m.location)
    {
      var j :| 0 <= j < |doc.matches| && doc.matches[j] == m;
    }
  }

  /** After a document is merged into a term's documents, the one with its name has all its locations. */
  lemma MergeDocumentsCovers(documents: seq<Document>, newDocument: Document)
    ensures
      var merged := MergeDocuments(documents, newDocument);
      && FindDocument(merged, newDocument.documentName).Some?
      && forall m | m in newDocument.matches ::
           HasMatchIndex(merged[FindDocument(merged, newDocument.documentName).value], m.location)
  {
    var merged := MergeDocuments(documents, newDocument);
    MergeDocumentsEffect(documents, newDocument);
    match FindDocument(documents, newDocument.documentName)
    case None =>
      assert merged[|documents|] == newDocument;
      assert FindDocument(merged, newDocument.documentName) == Some(|documents|);
      HoldsOwnLocations(newDocument);
    case Some(d) =>
      FindKeepsPrefix(documents, merged, newDocument.documentName, d);
      var before := documents[d].matches;
      forall m | m in newDocument.matches
        ensures HasMatchIndex(merged[d], m.location)
      {
        if HasMatchIndex(documents[d], m.location) {
          HasMatchIndexGrows(documents[d], merged[d], m.location);
        } else {
          var tail := merged[d].matches[|before|..];
          assert m in tail;
          var k :| 0 <= k < |tail| && tail[k] == m;
          assert merged[d].matches[|before| + k] == m;
        }
      }
  }

  /** Merging an entry that is covered changes nothing. */
  lemma CoveredMergeUnchanged(terms: seq<Term>, key: string, newDocument: Document)
    requires Covered(terms, key, newDocument)
    ensures MergeTerm(terms, key, newDocument) == terms
  {
    var i := LookupTerm(terms, key).value;
    var documents := terms[i].documents;
    var d := FindDocument(documents, newDocument.documentName).value;
    var added := NewMatches(documents[d], newDocument.matches);
    NothingNew(documents[d], newDocument.matches);
    assert documents[d].matches + added == documents[d].matches;
    assert documents[d].(matches := documents[d].matches + added) == documents[d];
    assert documents[d := documents[d]] == documents;
    assert terms[i].(documents := documents) == terms[i];
  }

  /** An entry once covered stays covered whatever is merged afterwards. */
  lemma CoveredStays(terms: seq<Term>, key: string, newDocument: Document, otherKey: string, otherDocument: Document)
    requires Covered(terms, key, newDocument)
    ensures Covered(MergeTerm(terms, otherKey, otherDocument), key, newDocument)
  {
    var r := MergeTerm(terms, otherKey, otherDocument);
    var i := LookupTerm(terms, key).value;
    var documents := terms[i].documents;
    var d := FindDocument(documents, newDocument.documentName).value;
    LookupKeepsPrefix(terms, r, key, i);
    if r[i] != terms[i] {
      MergeDocumentsKeeps(documents, otherDocument, newDocument.documentName, d);
    }
  }

  /** Merging a document keeps every other document where it was, with every location it had. */
  lemma MergeDocumentsKeeps(documents: seq<Document>, newDocument: Document, name: string, d: nat)
    requires FindDocument(documents, name) == Some(d)
    ensures FindDocument(MergeDocuments(documents, newDocument), name) == Some(d)
    ensures forall location | HasMatchIndex(documents[d], location) ::
      HasMatchIndex(MergeDocuments(documents, newDocument)[d], location)
  {
    var merged := MergeDocuments(documents, newDocument);
    MergeDocumentsEffect(documents, newDocument);
    FindKeepsPrefix(documents, merged, name, d);
    forall location | HasMatchIndex(documents[d], location)
      ensures HasMatchIndex(merged[d], location)
    {
      HasMatchIndexGrows(documents[d], merged[d], location);
    }
  }

  /** Once a sequence of entries is merged, each of them is covered. */
  lemma {:induction false} MergeAllCovers(terms: seq<Term>, entries: seq<Entry>)
    ensures forall e | e in entries :: Covered(MergeAll(terms, entries), e.0, e.1)
  {
    if entries != [] {
      var n := |entries| - 1;
      var prior := MergeAll(terms, entries[..n]);
      var after := MergeTerm(prior, entries[n].0, entries[n].1);
      assert MergeAll(terms, entries) == after;
      MergeAllCovers(terms, entries[..n]);
      forall e | e in entries
        ensures Covered(after, e.0, e.1)
      {
        CoveredAfterStep(prior, entries[..n], entries[n], e);
      }
    }
  }

  /** One step of `MergeAllCovers`: the entry just merged is covered, and so is every earlier one. */
  lemma CoveredAfterStep(prior: seq<Term>, earlier: seq<Entry>, last: Entry, e: Entry)
    requires forall x | x in earlier :: Covered(prior, x.0, x.1)
    requires e in earlier + [last]
    ensures Covered(MergeTerm(prior, last.0, last.1), e.0, e.1)
  {
    if e == last {
      MergeTermCovers(prior, last.0, last.1);
    } else {
      assert e in earlier;
      CoveredStays(prior, e.0, e.1, last.0, last.1);
    }
  }

  /** Merging entries that are all covered changes nothing. */
  lemma {:induction false} MergeAllCoveredUnchanged(terms: seq<Term>, entries: seq<Entry>)
    requires forall e | e in entries :: Covered(terms, e.0, e.1)
    ensures MergeAll(terms, entries) == terms
  {
    if entries != [] {
      var n := |entries| - 1;
      assert forall e | e in entries[..n] :: e in entries;
      MergeAllCoveredUnchanged(terms, entries[..n]);
      assert entries[n] in entries;
      CoveredMergeUnchanged(terms, entries[n].0, entries[n].1);
    }
  }

  /** An entry once covered stays covered whatever sequence of entries is merged afterwards. */
  lemma {:induction false} CoveredStaysAll(terms: seq<Term>, key: string, newDocument: Document, entries: seq<Entry>)
    requires Covered(terms, key, newDocument)
    ensures Covered(MergeAll(terms, entries), key, newDocument)
  {
    if entries != [] {
      var n := |entries| - 1;
      CoveredStaysAll(terms, key, newDocument, entries[..n]);
      CoveredStays(MergeAll(terms, entries[..n]), key, newDocument, entries[n].0, entries[n].1);
    }
  }

  /**
   * Merging the same entries a second time, in any order and any number of
   * times each, leaves the terms as the first merge left them.
   */
  lemma MergeAgainUnchanged(terms: seq<Term>, entries: seq<Entry>, again: seq<Entry>)
    requires forall e | e in again :: e in entries
    ensures MergeAll(MergeAll(terms, entries), again) == MergeAll(terms, entries)
  {
    MergeAllCovers(terms, entries);
    MergeAllCoveredUnchanged(MergeAll(terms, entries), again);
  }

  /** The lookup finds the first term whose key equals `key`. */
  lemma {:induction false} LookupFirst(terms: seq<Term>, key: string, i: nat)
    requires i < |terms| && Equal(NewTerm(key), terms[i])
    requires forall j | 0 <= j < i :: !Equal(NewTerm(key), terms[j])
    ensures LookupTerm(terms, key) == Some(i)
  {
    if i > 0 {
      assert !Equal(NewTerm(key), terms[0]);
      assert forall j | 0 <= j < i - 1 :: terms[1..][j] == terms[j + 1];
      LookupFirst(terms[1..], key, i - 1);
    }
  }

  /** A merge keeps the terms before position `i` and the key at `i`, so the lookup finding `i` still does. */
  lemma LookupKeepsPrefix(terms: seq<Term>, r: seq<Term>, key: string, i: nat)
    requires LookupTerm(terms, key) == Some(i)
    requires |r| >= |terms|
    requires forall j | 0 <= j < |terms| :: r[j].key == terms[j].key
    ensures LookupTerm(r, key) == Some(i)
  {
    assert r[i].key == terms[i].key;
    assert Equal(NewTerm(key), r[i]);
    forall j | 0 <= j < i
      ensures !Equal(NewTerm(key), r[j])
    {
      assert r[j].key == terms[j].key;
    }
    LookupFirst(r, key, i);
  }

  /** A merge keeps the documents before position `d` and the name at `d`, so the lookup finding `d` still does. */
  lemma FindKeepsPrefix(documents: seq<Document>, merged: seq<Document>, name: string, d: nat)
    requires FindDocument(documents, name) == Some(d)
    requires |merged| >= |documents|
    requires forall j | 0 <= j < |documents| :: merged[j].documentName == documents[j].documentName
    ensures FindDocument(merged, name) == Some(d)
  {
    var found := FindDocument(merged, name);
    assert merged[d].documentName == name;
    assert found.Some?;
    var k := found.value;
    assert k == d by {
      assert forall j | 0 <= j < d :: merged[j].documentName == documents[j].documentName;
    }
  }

  /** Appending matches keeps every location a document already had. */
  lemma HasMatchIndexGrows(before: Document, after: Document, location: int)
    requires HasMatchIndex(before, location)
    requires |before.matches| <= |after.matches| && after.matches[..|before.matches|] == before.matches
    ensures HasMatchIndex(after, location)
  {
    var j :| 0 <= j < |before.matches| && before.matches[j].location == location;
    assert after.matches[j] == before.matches[j];
  }
}
