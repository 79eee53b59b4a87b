/**
 * document/Term.go: the value held by every tree node, and the case-insensitive
 * order on keys that the tree is sorted by.
 */
module Terms {
  import GoStrings
  import opened Documents

  /** A key and the documents in which a match produced that key. */
  datatype Term = Term(key: string, documents: seq<Document>)

  /** The key as the tree compares it: lower-cased. */
  function LowerKey(term: Term): string
  {
    GoStrings.ToLower(term.key)
  }

  /**
   * `Term.Compare`: byte-wise comparison of the lower-cased keys; 0 exactly when
   * the keys are equal ignoring case.
   */
  function Compare(term: Term, compareToTerm: Term): (r: int)
    ensures r == -1 || r == 0 || r == 1
    ensures r == 0 <==> Equal(term, compareToTerm)
  {
    GoStrings.Compare(LowerKey(term), LowerKey(compareToTerm))
  }

  /** `Term.Equal`: the keys are equal ignoring case. */
  predicate Equal(term: Term, compareToTerm: Term)
  {
    LowerKey(term) == LowerKey(compareToTerm)
  }

  /** `NewTerm`: a term with the given key and no documents. */
  function NewTerm(key: string): (term: Term)
    ensures term.key == key && term.documents == []
  {
    Term(key, [])
  }

  /** `Compare` is the lexicographic order of the lower-cased keys. */
  lemma CompareIsLexicographic(a: Term, b: Term)
    ensures Compare(a, b) == -1 <==> GoStrings.LexLess(LowerKey(a), LowerKey(b))
    ensures Compare(a, b) == 1 <==> GoStrings.LexLess(LowerKey(b), LowerKey(a))
  {
    GoStrings.CompareIsLexicographic(LowerKey(a), LowerKey(b));
  }

  /** `Compare(a, b) == -Compare(b, a)`, and so `Compare(a, a) == 0`. */
  lemma CompareAntisymmetric(a: Term, b: Term)
    ensures Compare(a, b) == -Compare(b, a)
  {
    GoStrings.CompareAntisymmetric(LowerKey(a), LowerKey(b));
  }

  /** The key order is transitive. */
  lemma CompareTransitive(a: Term, b: Term, c: Term)
    requires Compare(a, b) < 0 && Compare(b, c) < 0
    ensures Compare(a, c) < 0
  {
    GoStrings.CompareTransitive(LowerKey(a), LowerKey(b), LowerKey(c));
  }

  /** Each character of `b` is the character of `a` or its other-case ASCII letter. */
  predicate SameIgnoringCase(a: string, b: string)
  {
    |a| == |b| &&
    forall i | 0 <= i < |a| ::
      b[i] == a[i] || b[i] == GoStrings.ToUpperChar(a[i]) || b[i] == GoStrings.ToLowerChar(a[i])
  }

  /** Keys that differ only in the case of their letters compare as 0. */
  lemma CaseVariantsCompareEqual(a: Term, b: Term)
    requires SameIgnoringCase(a.key, b.key)
    ensures Compare(a, b) == 0 && Equal(a, b)
  {
    var la, lb := LowerKey(a), LowerKey(b);
    forall i | 0 <= i < |la|
      ensures la[i] == lb[i]
    {
      assert GoStrings.ToLowerChar(GoStrings.ToUpperChar(a.key[i])) == GoStrings.ToLowerChar(a.key[i]);
    }
  }
}
