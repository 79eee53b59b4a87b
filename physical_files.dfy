/**
 * document/PhysicalFile.go: scanning one file's contents with the configured
 * text patterns and filing every match under its key. The regular-expression
 * engine is not part of this model: its output for each pattern is an input,
 * one `RegexMatch` per match, left to right.
 */
module PhysicalFiles {
  import opened Config
  import opened Documents

  /**
   * One match as `FindAllStringSubmatch` and `FindAllStringIndex` report it:
   * the whole match followed by its capture groups, and its start offset.
   */
  datatype RegexMatch = RegexMatch(submatches: seq<string>, start: int)

  /** A file on disk: its contents (filled by `Read`), its name and the patterns to scan it with. */
  datatype PhysicalFile = PhysicalFile(contents: string, fileName: string, textPatterns: seq<TextPattern>)

  /** `NewPhysicalFile`: a file with the given name and patterns whose contents have not been read. */
  function NewPhysicalFile(fileName: string, textPatterns: seq<TextPattern>): (file: PhysicalFile)
    ensures file.fileName == fileName && file.textPatterns == textPatterns
    ensures file.contents == ""
  {
    PhysicalFile("", fileName, textPatterns)
  }

  /** Every match of `scan` has the capture group `pattern`'s key selects (Go indexes `matchedSet[textPattern.Key]` and would panic otherwise). */
  predicate ScanFits(pattern: TextPattern, scan: seq<RegexMatch>)
  {
    forall m | m in scan :: 0 <= pattern.key < |m.submatches|
  }

  /** The engine's output fits the patterns: one list of matches per pattern, each fitting its pattern. */
  predicate ScansFit(patterns: seq<TextPattern>, scans: seq<seq<RegexMatch>>)
  {
    && |scans| == |patterns|
    && forall p | 0 <= p < |scans| :: ScanFits(patterns[p], scans[p])
  }

  /** The `FileIndexMatch` built from one engine match of `pattern`. */
  function ToFileIndexMatch(pattern: TextPattern, m: RegexMatch): FileIndexMatch
    requires 0 <= pattern.key < |m.submatches|
  {
    FileIndexMatch(m.submatches, m.submatches[pattern.key], m.start, m.submatches[0])
  }

  /** The `PatternMatch` stored for a `FileIndexMatch`. */
  function ToPatternMatch(m: FileIndexMatch): PatternMatch
  {
    PatternMatch(m.captures, m.location, m.matchText)
  }

  /** The matches one pattern sends, left to right. */
  function FromScan(pattern: TextPattern, scan: seq<RegexMatch>): seq<FileIndexMatch>
    requires ScanFits(pattern, scan)
  {
    if scan == [] then []
    else
      var n := |scan| - 1;
      assert scan[n] in scan && forall m | m in scan[..n] :: m in scan;
      FromScan(pattern, scan[..n]) + [ToFileIndexMatch(pattern, scan[n])]
  }

  /** Every match sent during a scan: the patterns in configured order, each one's matches left to right. */
  function Produced(patterns: seq<TextPattern>, scans: seq<seq<RegexMatch>>): seq<FileIndexMatch>
    requires ScansFit(patterns, scans)
  {
    if patterns == [] then []
    else
      var n := |patterns| - 1;
      assert ScansFit(patterns[..n], scans[..n]);
      Produced(patterns[..n], scans[..n]) + FromScan(patterns[n], scans[n])
  }

  /** One step of the consumer goroutine: file `m` under its key, starting a new document for a new key. */
  function Insert(fileName: string, index: DocumentIndex, m: FileIndexMatch): DocumentIndex
  {
    if m.key in index then
      index[m.key := index[m.key].(matches := index[m.key].matches + [ToPatternMatch(m)])]
    else
      index[m.key := NewDocument(fileName).(matches := [ToPatternMatch(m)])]
  }

  /** The index the consumer has built after receiving `ms`, in that order. */
  function IndexOf(fileName: string, ms: seq<FileIndexMatch>): DocumentIndex
  {
    if ms == [] then map[]
    else Insert(fileName, IndexOf(fileName, ms[..|ms| - 1]), ms[|ms| - 1])
  }

  /** The stored matches of `ms` filed under `key`, in order. */
  function MatchesFor(ms: seq<FileIndexMatch>, key: string): seq<PatternMatch>
  {
    if ms == [] then []
    else MatchesFor(ms[..|ms| - 1], key) + (if ms[|ms| - 1].key == key then [ToPatternMatch(ms[|ms| - 1])] else [])
  }

  /** The number of matches a list of scans holds. */
  function Total(scans: seq<seq<RegexMatch>>): nat
  {
    if scans == [] then 0 else Total(scans[..|scans| - 1]) + |scans[|scans| - 1]|
  }

  /**
   * `PhysicalFile.CreateIndex`, with the regular-expression engine's output for
   * each of the file's patterns given as `scans`. The producer loop sends every
   * match in order and the single consumer files it; the result is the index
   * of everything produced.
   */
  method CreateIndex(file: PhysicalFile, scans: seq<seq<RegexMatch>>) returns (result: DocumentIndex)
    requires ScansFit(file.textPatterns, scans)
    ensures result == IndexOf(file.fileName, Produced(file.textPatterns, scans))
  {
    result := map[];
    var patterns := file.textPatterns;
    for p := 0 to |patterns|
      invariant ScansFit(patterns[..p], scans[..p])
      invariant result == IndexOf(file.fileName, Produced(patterns[..p], scans[..p]))
    {
      var searchResult := scans[p];
      ghost var before := Produced(patterns[..p], scans[..p]);
      assert ScanFits(patterns[p], searchResult);
      ScanPrefixFits(patterns[p], searchResult, 0);
      assert searchResult[..0] == [] && before + [] == before;
      for matchIndex := 0 to |searchResult|
        invariant ScanFits(patterns[p], searchResult[..matchIndex])
        invariant result == IndexOf(file.fileName, before + FromScan(patterns[p], searchResult[..matchIndex]))
      {
        var matchedSet := searchResult[matchIndex];
        assert matchedSet in searchResult;
        var fileMatch := ToFileIndexMatch(patterns[p], matchedSet);
        ghost var sent := before + FromScan(patterns[p], searchResult[..matchIndex]);
        SentStep(before, patterns[p], searchResult, matchIndex);
        IndexOfStep(file.fileName, sent, fileMatch);
        result := Insert(file.fileName, result, fileMatch);
        assert result == IndexOf(file.fileName, sent + [fileMatch]);
      }
      assert searchResult[..|searchResult|] == searchResult;
      ProducedStep(patterns, scans, p);
    }
    assert patterns[..|patterns|] == patterns && scans[..|scans|] == scans;
  }

  lemma ScanPrefixFits(pattern: TextPattern, scan: seq<RegexMatch>, k: nat)
    requires ScanFits(pattern, scan) && k <= |scan|
    ensures ScanFits(pattern, scan[..k])
  {
    assert forall m | m in scan[..k] :: m in scan;
  }

  lemma FromScanStep(pattern: TextPattern, scan: seq<RegexMatch>, k: nat)
    requires ScanFits(pattern, scan) && k < |scan|
    ensures ScanFits(pattern, scan[..k]) && ScanFits(pattern, scan[..k + 1]) && scan[k] in scan
    ensures FromScan(pattern, scan[..k + 1]) == FromScan(pattern, scan[..k]) + [ToFileIndexMatch(pattern, scan[k])]
  {
    ScanPrefixFits(pattern, scan, k);
    ScanPrefixFits(pattern, scan, k + 1);
    assert scan[..k + 1][..k] == scan[..k];
  }

  lemma SentStep(before: seq<FileIndexMatch>, pattern: TextPattern, scan: seq<RegexMatch>, k: nat)
    requires ScanFits(pattern, scan) && k < |scan|
    ensures ScanFits(pattern, scan[..k]) && ScanFits(pattern, scan[..k + 1]) && scan[k] in scan
    ensures before + FromScan(pattern, scan[..k + 1]) == before + FromScan(pattern, scan[..k]) + [ToFileIndexMatch(pattern, scan[k])]
  {
    FromScanStep(pattern, scan, k);
  }

  lemma IndexOfStep(fileName: string, ms: seq<FileIndexMatch>, m: FileIndexMatch)
    ensures IndexOf(fileName, ms + [m]) == Insert(fileName, IndexOf(fileName, ms), m)
  {
    assert (ms + [m])[..|ms|] == ms;
  }

  lemma ProducedStep(patterns: seq<TextPattern>, scans: seq<seq<RegexMatch>>, p: nat)
    requires ScansFit(patterns, scans) && p < |patterns|
    requires ScansFit(patterns[..p], scans[..p])
    ensures ScansFit(patterns[..p + 1], scans[..p + 1])
    ensures Produced(patterns[..p + 1], scans[..p + 1]) == Produced(patterns[..p], scans[..p]) + FromScan(patterns[p], scans[p])
  {
    assert patterns[..p + 1][..p] == patterns[..p] && scans[..p + 1][..p] == scans[..p];
    assert ScansFit(patterns[..p + 1], scans[..p + 1]);
  }

  /**
   * What `CreateIndex` files: exactly the keys sent, and under each key one
   * document named after the file whose matches are those sent with that key,
   * in the order they were sent, none dropped and none merged.
   */
  lemma {:induction false} IndexOfContents(fileName: string, ms: seq<FileIndexMatch>)
    ensures IndexOf(fileName, ms).Keys == set m | m in ms :: m.key
    ensures forall k | k in IndexOf(fileName, ms) :: IndexOf(fileName, ms)[k] == Document(fileName, MatchesFor(ms, k))
  {
    if ms != [] {
      var init, last := ms[..|ms| - 1], ms[|ms| - 1];
      assert ms == init + [last];
      IndexOfContents(fileName, init);
      forall k | k in IndexOf(fileName, ms)
        ensures IndexOf(fileName, ms)[k] == Document(fileName, MatchesFor(ms, k))
      {
        if k != last.key {
          assert MatchesFor(ms, k) == MatchesFor(init, k);
        } else if k !in IndexOf(fileName, init) {
          assert MatchesFor(init, k) == [] by {
            MatchesForAbsent(init, k);
          }
        }
      }
    }
  }

  /** A key that was never sent has no matches filed under it. */
  lemma {:induction false} MatchesForAbsent(ms: seq<FileIndexMatch>, key: string)
    requires forall m | m in ms :: m.key != key
    ensures MatchesFor(ms, key) == []
  {
    if ms != [] {
      assert forall m | m in ms[..|ms| - 1] :: m in ms;
      MatchesForAbsent(ms[..|ms| - 1], key);
    }
  }

  /** Every match sent is stored under its own key: nothing is deduplicated within a file. */
  lemma {:induction false} MatchesForKeepsAll(ms: seq<FileIndexMatch>, j: nat)
    requires j < |ms|
    ensures ToPatternMatch(ms[j]) in MatchesFor(ms, ms[j].key)
  {
    var n := |ms| - 1;
    if j < n {
      MatchesForKeepsAll(ms[..n], j);
    }
  }

  /** Filing by key splits the matches without losing any: the per-key counts add up to the number sent. */
  lemma {:induction false} MatchesForCount(ms: seq<FileIndexMatch>, key: string)
    ensures |MatchesFor(ms, key)| + |Others(ms, key)| == |ms|
  {
    if ms != [] {
      MatchesForCount(ms[..|ms| - 1], key);
    }
  }

  /** The matches of `ms` not filed under `key`. */
  function Others(ms: seq<FileIndexMatch>, key: string): seq<FileIndexMatch>
  {
    if ms == [] then []
    else Others(ms[..|ms| - 1], key) + (if ms[|ms| - 1].key != key then [ms[|ms| - 1]] else [])
  }

  /**
   * The production order: the `m`-th match of pattern `p` is sent after all
   * matches of earlier patterns and the `m` earlier matches of pattern `p`.
   */
  lemma {:induction false} ProducedOrder(patterns: seq<TextPattern>, scans: seq<seq<RegexMatch>>, p: nat, m: nat)
    requires ScansFit(patterns, scans)
    requires p < |scans| && m < |scans[p]|
    requires scans[p][m] in scans[p] && ScanFits(patterns[p], scans[p])
    ensures |Produced(patterns, scans)| == Total(scans)
    ensures Total(scans[..p]) + m < Total(scans)
    ensures Produced(patterns, scans)[Total(scans[..p]) + m] == ToFileIndexMatch(patterns[p], scans[p][m])
  {
    var n := |patterns| - 1;
    assert ScansFit(patterns[..n], scans[..n]);
    var before := Produced(patterns[..n], scans[..n]);
    var last := FromScan(patterns[n], scans[n]);
    assert Produced(patterns, scans) == before + last;
    ProducedLength(patterns, scans);
    ProducedLength(patterns[..n], scans[..n]);
    TotalPrefix(scans, p);
    var at := Total(scans[..p]) + m;
    if p < n {
      assert scans[..n][..p] == scans[..p];
      ProducedOrder(patterns[..n], scans[..n], p, m);
      assert (before + last)[at] == before[at];
    } else {
      assert scans[..p] == scans[..n];
      FromScanAt(patterns[p], scans[p], m);
      assert (before + last)[at] == last[m];
    }
  }

  /** One pattern's matches are sent in the engine's left-to-right order. */
  lemma {:induction false} FromScanAt(pattern: TextPattern, scan: seq<RegexMatch>, m: nat)
    requires ScanFits(pattern, scan)
    requires m < |scan|
    ensures |FromScan(pattern, scan)| == |scan|
    ensures FromScan(pattern, scan)[m] == ToFileIndexMatch(pattern, scan[m])
  {
    var n := |scan| - 1;
    FromScanLength(pattern, scan);
    assert forall x | x in scan[..n] :: x in scan;
    if m < n {
      FromScanAt(pattern, scan[..n], m);
    }
  }

  lemma {:induction false} FromScanLength(pattern: TextPattern, scan: seq<RegexMatch>)
    requires ScanFits(pattern, scan)
    ensures |FromScan(pattern, scan)| == |scan|
  {
    if scan != [] {
      assert forall x | x in scan[..|scan| - 1] :: x in scan;
      FromScanLength(pattern, scan[..|scan| - 1]);
    }
  }

  /** Every match of every scan is sent exactly once. */
  lemma {:induction false} ProducedLength(patterns: seq<TextPattern>, scans: seq<seq<RegexMatch>>)
    requires ScansFit(patterns, scans)
    ensures |Produced(patterns, scans)| == Total(scans)
  {
    if patterns != [] {
      var n := |patterns| - 1;
      assert ScansFit(patterns[..n], scans[..n]);
      ProducedLength(patterns[..n], scans[..n]);
      FromScanLength(patterns[n], scans[n]);
    }
  }

  /** The matches of the first `p` scans come before those of scan `p`. */
  lemma {:induction false} TotalPrefix(scans: seq<seq<RegexMatch>>, p: nat)
    requires p < |scans|
    ensures Total(scans[..p]) + |scans[p]| <= Total(scans)
  {
    var n := |scans| - 1;
    if p < n {
      assert scans[..n][..p] == scans[..p];
      TotalPrefix(scans[..n], p);
    } else {
      assert scans[..p] == scans[..n];
    }
  }

  /** With no match for any pattern, the index is empty. */
  lemma {:induction false} NoMatchesEmptyIndex(fileName: string, patterns: seq<TextPattern>, scans: seq<seq<RegexMatch>>)
    requires ScansFit(patterns, scans)
    requires forall p | 0 <= p < |scans| :: scans[p] == []
    ensures IndexOf(fileName, Produced(patterns, scans)) == map[]
  {
    if patterns != [] {
      var n := |patterns| - 1;
      assert ScansFit(patterns[..n], scans[..n]);
      NoMatchesEmptyIndex(fileName, patterns[..n], scans[..n]);
      assert Produced(patterns, scans) == Produced(patterns[..n], scans[..n]);
    }
  }
}
