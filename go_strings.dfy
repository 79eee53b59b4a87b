/**
 * The three functions of Go's `strings` package that the indexer relies on:
 * `ToLower`, `Compare` and `Contains`. Strings are sequences of Unicode code
 * points; comparing code points in order is the same as comparing the UTF-8
 * bytes of the string, which is what Go's `strings.Compare` does.
 */
module GoStrings {

  /** ASCII lower-casing of one character; every other character is left as it is. */
  function ToLowerChar(c: char): char
  {
    if 'A' <= c <= 'Z' then (c as int + 32) as char else c
  }

  /** ASCII upper-casing of one character. */
  function ToUpperChar(c: char): char
  {
    if 'a' <= c <= 'z' then (c as int - 32) as char else c
  }

  /** `strings.ToLower`, restricted to the ASCII letters. */
  function ToLower(s: string): (r: string)
    ensures |r| == |s|
    ensures forall i | 0 <= i < |s| :: r[i] == ToLowerChar(s[i])
  {
    if s == [] then [] else [ToLowerChar(s[0])] + ToLower(s[1..])
  }

  /** Lower-casing a slice is slicing the lower-cased string. */
  lemma {:induction false} ToLowerSlice(s: string, lo: nat, hi: nat)
    requires lo <= hi <= |s|
    ensures ToLower(s[lo..hi]) == ToLower(s)[lo..hi]
  {
    var slice := s[lo..hi];
    var lowerSlice := ToLower(slice);
    var lower := ToLower(s);
    assert |lowerSlice| == |lower[lo..hi]|;
    forall i | 0 <= i < hi - lo
      ensures lowerSlice[i] == lower[lo..hi][i]
    {
      assert slice[i] == s[lo + i];
    }
  }

  /** Lower-casing is idempotent. */
  lemma ToLowerIdempotent(s: string)
    ensures ToLower(ToLower(s)) == ToLower(s)
  {
  }

  /**
   * `strings.Compare`: -1, 0 or 1 as `a` sorts before, equal to or after `b`
   * in lexicographic order.
   */
  function Compare(a: string, b: string): (r: int)
    ensures -1 <= r <= 1
    ensures r == 0 <==> a == b
  {
    if |a| == 0 && |b| == 0 then 0
    else if |a| == 0 then -1
    else if |b| == 0 then 1
    else if a[0] < b[0] then -1
    else if a[0] > b[0] then 1
    else Compare(a[1..], b[1..])
  }

  /** `a` and `b` agree on their first `k` characters and differ at `k` with `a` smaller, or `a` ends there. */
  ghost predicate LessAt(a: string, b: string, k: nat)
  {
    k <= |a| && k < |b| && a[..k] == b[..k] && (k == |a| || a[k] < b[k])
  }

  /** Lexicographic order, stated as the existence of the first differing position. */
  ghost predicate LexLess(a: string, b: string)
  {
    exists k: nat | k <= |a| :: LessAt(a, b, k)
  }

  /** `Compare` is the lexicographic comparison: -1 exactly when `a` sorts first, 1 exactly when `b` does. */
  lemma {:induction false} CompareIsLexicographic(a: string, b: string)
    ensures Compare(a, b) == -1 <==> LexLess(a, b)
    ensures Compare(a, b) == 1 <==> LexLess(b, a)
    decreases |a|
  {
    if |a| == 0 && |b| == 0 {
      NotLexLessEmpty(a, b);
      NotLexLessEmpty(b, a);
    } else if |a| == 0 {
      assert LessAt(a, b, 0);
      NotLexLessEmpty(b, a);
    } else if |b| == 0 {
      assert LessAt(b, a, 0);
      NotLexLessEmpty(a, b);
    } else if a[0] < b[0] {
      assert LessAt(a, b, 0);
      FirstCharDecides(b, a);
    } else if a[0] > b[0] {
      assert LessAt(b, a, 0);
      FirstCharDecides(a, b);
    } else {
      CompareIsLexicographic(a[1..], b[1..]);
      LexLessTail(a, b);
      LexLessTail(b, a);
    }
  }

  lemma NotLexLessEmpty(a: string, b: string)
    requires |b| == 0
    ensures !LexLess(a, b)
  {
  }

  /** When `a` starts with a larger character than `b`, `a` does not sort before `b`. */
  lemma FirstCharDecides(a: string, b: string)
    requires |a| > 0 && |b| > 0 && a[0] > b[0]
    ensures !LexLess(a, b)
  {
    if k: nat :| k <= |a| && LessAt(a, b, k) {
      if k > 0 {
        assert a[0] == a[..k][0] == b[..k][0] == b[0];
      }
    }
  }

  /** Two strings with the same first character compare as their tails do. */
  lemma LexLessTail(a: string, b: string)
    requires |a| > 0 && |b| > 0 && a[0] == b[0]
    ensures LexLess(a, b) <==> LexLess(a[1..], b[1..])
  {
    if LexLess(a, b) {
      var k: nat :| k <= |a| && LessAt(a, b, k);
      assert k > 0;
      assert a[1..][..k - 1] == a[..k][1..];
      assert b[1..][..k - 1] == b[..k][1..];
      assert LessAt(a[1..], b[1..], k - 1);
    }
    if LexLess(a[1..], b[1..]) {
      var k: nat :| k <= |a[1..]| && LessAt(a[1..], b[1..], k);
      assert a[..k + 1] == [a[0]] + a[1..][..k];
      assert b[..k + 1] == [b[0]] + b[1..][..k];
      assert LessAt(a, b, k + 1);
    }
  }

  /** Swapping the arguments of `Compare` negates the result. */
  lemma {:induction false} CompareAntisymmetric(a: string, b: string)
    ensures Compare(a, b) == -Compare(b, a)
    decreases |a|
  {
    if |a| > 0 && |b| > 0 && a[0] == b[0] {
      CompareAntisymmetric(a[1..], b[1..]);
    }
  }

  /** The order `Compare` defines is transitive. */
  lemma {:induction false} CompareTransitive(a: string, b: string, c: string)
    requires Compare(a, b) < 0 && Compare(b, c) < 0
    ensures Compare(a, c) < 0
    decreases |a|
  {
    if |a| > 0 && |b| > 0 && |c| > 0 && a[0] == b[0] && b[0] == c[0] {
      CompareTransitive(a[1..], b[1..], c[1..]);
    }
  }

  /** `s` starts with `prefix`. */
  predicate HasPrefix(s: string, prefix: string)
  {
    |prefix| <= |s| && s[..|prefix|] == prefix
  }

  /** `strings.Contains`: `substr` occurs in `s` at some position. */
  predicate Contains(s: string, substr: string)
  {
    exists i | 0 <= i <= |s| :: HasPrefix(s[i..], substr)
  }

  /** Every slice of a string is contained in it; in particular the empty string is contained in every string. */
  lemma ContainsSlice(s: string, lo: nat, hi: nat)
    requires lo <= hi <= |s|
    ensures Contains(s, s[lo..hi])
  {
    assert HasPrefix(s[lo..], s[lo..hi]);
  }
}
