# minitextindexer: the indexing engine, in Dafny

This project models the indexing engine of minitextindexer. The engine:

- walks the configured paths;
- picks the files whose path contains one of the configured file patterns;
- scans each file with the configured text patterns;
- files every match under the key its pattern's capture group selects;
- merges each file's index into a binary search tree of terms, ordered by key ignoring case;
- answers exact lookups and substring searches over that tree.

The modules follow the Go packages:

- `GoStrings` holds the three `strings` functions the engine uses.
- `Documents`, `Terms` and `PhysicalFiles` follow `document`.
- `Nodes`, `TreeShape` and `Trees` follow `tree`.
- `Merging` and `Catalogs` follow `catalog`.
- `Config` holds the configuration values.

The tree is a class, `Trees.Tree`, because Go updates nodes in place. It keeps its nodes in one store (`nodes: seq<Node>`). A pointer is the index of a node in that store. A node is only ever appended, and always after its parent.

`TreeShape` states the tree invariant:

- `Linked`: parent and child pointers agree;
- `Ordered`: binary-search-tree order under `Terms.Compare`;
- `DistinctKeys`: no two keys are equal ignoring case.

It also defines `Attach`, the store after `Add`, and `PreOrder`, the order in which `Search` reports nodes.

The catalog is a class, `Catalogs.Catalog`, over the tree. Its abstract state is the list of the tree's terms in the order they were added. `Merging` gives the specification of `Index`:

- `MergeTerm` merges one entry of a file's index.
- `MergeAll` merges a list of entries.
- `Covered` says an entry has nothing left to add. It yields idempotence: indexing the same files again changes nothing.

Go ranges over a map in an unspecified order. The model therefore picks each key with `:|` and records the order it took. Every property is proved for every such order.

The regular-expression engine and the file system are not modelled. Their results are inputs:

- Each visited path is a `WalkEntry`. It carries whether the path is a directory, the contents `Read` returns, and one list of `RegexMatch` per text pattern.
- `Index` receives one list of `WalkEntry` per configured path, in walk order.

Three behaviours of the code are easy to misread; the model follows the code:

- Incoming matches are checked only against the locations a document held before the merge. One might expect a document to hold at most one match per location, but two matches of one file at the same new location are both kept; see `Merging.IncomingDuplicatesKept`.
- Keys that differ only in case merge into one term. That term keeps the spelling merged first, so the spelling stored depends on the order Go's map iteration takes; see `Merging.CaseVariantsMergeIntoOne`.
- `Tree.Search` reports nodes in pre-order (node, left, right). The Go helper that walks the tree is called `inOrder`, but it does not produce key order. Key order is modelled separately, as `TreeShape.InOrder`, and proved sorted.

## Model

| member | source | states |
|---|---|---|
| GoStrings.ToLower | document/Term.go:22-24 | lower-casing keeps the length and maps each character to its ASCII lower case |
| GoStrings.ToLowerSlice | document/Term.go:22-24 | lower-casing a slice is the slice of the lower-cased string |
| GoStrings.ToLowerIdempotent | document/Term.go:22-24 | lower-casing twice is lower-casing once |
| GoStrings.Compare | document/Term.go:22-24 | the result is -1, 0 or 1, and 0 exactly when the strings are equal |
| GoStrings.CompareIsLexicographic | document/Term.go:22-24 | -1 exactly when the first string sorts before the second lexicographically, 1 exactly when it sorts after |
| GoStrings.CompareAntisymmetric | document/Term.go:22-24 | swapping the arguments negates the result |
| GoStrings.CompareTransitive | document/Term.go:22-24 | the order is transitive |
| GoStrings.ContainsSlice | tree/Tree.go:133 | every slice of a string, the empty string included, is contained in it |
| Documents.HasMatchIndex | document/Document.go:16-24 | true exactly when some match of the document starts at the given location |
| Documents.NewDocument | document/Document.go:30-35 | the document has the given name and no match at any location |
| Terms.Compare | document/Term.go:22-24 | the result is -1, 0 or 1, and 0 exactly when the keys are equal ignoring case (`Equal`, document/Term.go:29-31) |
| Terms.Equal | document/Term.go:29-31 | two terms are equal when their keys are equal ignoring case; `Terms.Compare` is 0 exactly on such terms |
| Terms.NewTerm | document/Term.go:37-42 | the term has the given key and no documents |
| Terms.CompareIsLexicographic | document/Term.go:22-24 | term order is the lexicographic order of the lower-cased keys, in both directions |
| Terms.CompareAntisymmetric | document/Term.go:22-24 | swapping the terms negates the comparison |
| Terms.CompareTransitive | document/Term.go:22-24 | term order is transitive, so the tree order is well defined |
| Terms.CaseVariantsCompareEqual | document/Term.go:22-31 | keys that differ only in letter case compare equal |
| Nodes.NewNode | tree/Node.go:33-37 | the node holds the term and has nil left, right and parent pointers |
| Nodes.FindDocument | tree/Node.go:20-28 | the first document whose name is exactly the given one, or None exactly when no document has that name |
| TreeShape.TermsOf | tree/Tree.go:22-44 | the tree's terms are its nodes' values, in the order they were added |
| TreeShape.Toward | tree/Tree.go:58-63 | the child a descent moves to from a node whose key differs: left when the term sorts before the node's key, right otherwise (the same step as tree/Tree.go:86-91 in `findLast`); `DescendKeepsKey` and `OnPathStep` state what the step keeps |
| TreeShape.AllBelowRoot | tree/Tree.go:50-70 | in a linked tree every node lies below the root, so a search from the root reaches every key |
| TreeShape.SubtreesDisjoint | tree/Tree.go:29-38 | a node's left and right subtrees share no node |
| TreeShape.KeyBelowRoot | tree/Tree.go:50-56 | at the root every node with an equal key lies below the current node |
| TreeShape.DescendKeepsKey | tree/Tree.go:57-68 | stepping left or right as the comparison says keeps every equal key below the current node |
| TreeShape.OnPathRoot | tree/Tree.go:76-80 | the descent for `findLast` starts on the key's search path |
| TreeShape.OnPathStep | tree/Tree.go:81-96 | each step of `findLast` stays on the key's search path |
| TreeShape.Attach | tree/Tree.go:29-40 | the store after `Add` hangs a new node holding the term below the attach point, as left child when the term sorts first and right child otherwise, with its parent pointer set; `AttachTerms` and `AttachValid` state its effect |
| TreeShape.AttachTerms | tree/Tree.go:22-44 | attaching an absent key appends it to the terms and hangs it below the attach point as the only node with that key |
| TreeShape.AttachLinked | tree/Tree.go:29-40 | attaching a new node keeps parent and child pointers consistent |
| TreeShape.AttachOrdered | tree/Tree.go:29-38 | attaching at the attach point on the side the comparison picks keeps binary-search-tree order |
| TreeShape.AttachValid | tree/Tree.go:22-44 | attaching an absent key at its attach point keeps the whole tree invariant |
| TreeShape.SameShapeValid | catalog/Catalog.go:96-110 | changing the documents of nodes without changing keys or pointers keeps the tree invariant |
| TreeShape.PreOrder | tree/Tree.go:100-109 | the traversal of a subtree lists only nodes at or after its root |
| TreeShape.PreOrderMembers | tree/Tree.go:100-109 | the traversal of a subtree lists exactly the nodes below its root |
| TreeShape.PreOrderNoDuplicates | tree/Tree.go:100-109 | the traversal lists no node twice |
| TreeShape.PreOrderParts | tree/Tree.go:100-109 | a node and its two child subtrees' traversals share no node |
| TreeShape.KeyContains | tree/Tree.go:133 | the search test: the lower-cased key contains the lower-cased search term; `EqualKeyContainsSlice` and `MatchingIgnoresCase` state its properties |
| TreeShape.EqualKeyContainsSlice | tree/Tree.go:133 | a term whose key equals another's ignoring case contains every slice of that key, the whole key and the empty string included |
| TreeShape.MatchingIgnoresCase | tree/Tree.go:133 | a search term and its lower-cased form find the same nodes, in the same order |
| TreeShape.Matching | tree/Tree.go:133 | filtering a traversal by key yields nodes of the store |
| TreeShape.PreOrderMatching | tree/Tree.go:100-109 | filtering a subtree's traversal is the node if it matches, then the left subtree's result, then the right subtree's |
| TreeShape.MatchingMembers | tree/Tree.go:123-150 | the filtered traversal holds exactly the traversed nodes whose key contains the search term ignoring case, and no node twice |
| TreeShape.TermsAt | catalog/Catalog.go:229-233 | reading the terms of found nodes yields one term per node |
| TreeShape.SingletonValid | tree/Tree.go:114-118 | a tree of one root node satisfies the tree invariant |
| TreeShape.InOrderMembers | tree/Tree.go:29-38 | the key-order walk of a subtree lists exactly the nodes below its root |
| TreeShape.InOrderSorted | tree/Tree.go:29-38 | in an ordered tree the key-order walk is strictly increasing in key order |
| TreeShape.InOrderSides | tree/Tree.go:29-38 | everything left of a node has a smaller key, everything right of it a larger one |
| Trees.Tree.SearchResult | tree/Tree.go:123-150 | the nodes a search reports are nodes of the store |
| Trees.Tree.NewTree | tree/Tree.go:114-118 | a valid tree whose only node, the root, holds the given term |
| Trees.Tree.Find | tree/Tree.go:50-70 | a node whose key equals the term's ignoring case, and None exactly when no node in the tree has such a key |
| Trees.Tree.FindLast | tree/Tree.go:76-98 | None exactly when the tree is empty; otherwise the node on the key's search path where it stops, which holds an equal key or has a free slot on the key's side |
| Trees.Tree.Add | tree/Tree.go:22-44 | a present key leaves the tree unchanged and gives nil; an absent key is appended as a new node at its attach point (or becomes the root of an empty tree), and the tree stays valid |
| Trees.Tree.Walk | tree/Tree.go:100-109 | the recursive walk adds the matching nodes of the subtree to what was reported, in pre-order |
| Trees.Tree.FoundIsSearched | tree/Tree.go:123-150 | a node whose key equals a term's ignoring case, which is what `Find` returns, is among the nodes a search for that term's key, or any slice of it, reports |
| Trees.Tree.Search | tree/Tree.go:123-150 | the nodes whose key contains the search term ignoring case, each exactly once, in pre-order; an empty search term reports every node |
| PhysicalFiles.NewPhysicalFile | document/PhysicalFile.go:100-105 | a file with the given name and patterns and no contents |
| PhysicalFiles.ToFileIndexMatch | document/PhysicalFile.go:78-83 | the message for one engine match: all submatches as captures, the submatch the pattern's key selects as key, the match's start offset as location, the whole match as text |
| PhysicalFiles.FromScan | document/PhysicalFile.go:77-86 | the messages one pattern sends, one per engine match in the engine's order; `FromScanAt` and `FromScanLength` state this |
| PhysicalFiles.Produced | document/PhysicalFile.go:70-88 | every message sent, the patterns in configured order; `ProducedOrder` and `ProducedLength` state this |
| PhysicalFiles.Insert | document/PhysicalFile.go:47-54 | one step of the consumer: the match is appended to its key's document, or a new document named after the file holding just this match is filed under a new key; `IndexOfContents` states the result of all steps |
| PhysicalFiles.CreateIndex | document/PhysicalFile.go:26-94 | the result is the index of every match produced, pattern by pattern and left to right within a pattern |
| PhysicalFiles.IndexOfContents | document/PhysicalFile.go:37-62 | the index has exactly the keys sent; each key's document is named after the file and holds that key's matches in the order they were sent |
| PhysicalFiles.MatchesForAbsent | document/PhysicalFile.go:47-54 | a key never sent has no matches |
| PhysicalFiles.MatchesForKeepsAll | document/PhysicalFile.go:47-54 | every match sent is stored under its own key; nothing is dropped or deduplicated |
| PhysicalFiles.MatchesForCount | document/PhysicalFile.go:47-54 | the matches under one key and those under the others add up to all matches sent |
| PhysicalFiles.ProducedOrder | document/PhysicalFile.go:70-88 | the m-th match of pattern p is sent after every match of earlier patterns and the m earlier matches of p, keyed by the pattern's capture group |
| PhysicalFiles.FromScanAt | document/PhysicalFile.go:72-86 | one pattern's matches are sent in the engine's order, each with its captures, key, start and matched text |
| PhysicalFiles.FromScanLength | document/PhysicalFile.go:72-86 | one pattern sends exactly as many matches as the engine reports |
| PhysicalFiles.ProducedLength | document/PhysicalFile.go:70-88 | the number of matches sent is the total the engine reports over all patterns |
| PhysicalFiles.NoMatchesEmptyIndex | document/PhysicalFile.go:26-94 | a file where no pattern matches has an empty index |
| Merging.LookupTerm | catalog/Catalog.go:81-90 | the position of the first term whose key equals the given key ignoring case, or None exactly when there is none |
| Merging.NewMatches | catalog/Catalog.go:101-109 | the incoming matches kept are exactly those whose location the document did not hold, and no more than were given |
| Merging.NewMatchesStep | catalog/Catalog.go:101-109 | one more incoming match is kept exactly when its location is not in the document |
| Merging.NothingNew | catalog/Catalog.go:101-109 | when the document holds every incoming location, nothing is appended |
| Merging.MergeDocuments | catalog/Catalog.go:96-110 | merging a document into a term's documents; `MergeDocumentsEffect`, `MergeDocumentsCovers` and `IncomingDuplicatesKept` state its effect |
| Merging.MergeTerm | catalog/Catalog.go:81-111 | merging one entry into the terms; `MergeTermEffect`, `MergeTermCovers` and `CoveredMergeUnchanged` state its effect |
| Merging.MergeAll | catalog/Catalog.go:77-112 | merging a file's entries one after the other; `MergeAllCovers` and `MergeAgainUnchanged` state its effect |
| Merging.MergeTermEffect | catalog/Catalog.go:81-111 | a new key adds a term at the end holding just the document; a known key changes only that term's documents and keeps the first-added spelling |
| Merging.MergeDocumentsEffect | catalog/Catalog.go:96-110 | a new document name is appended; a known name gains exactly the new matches and no other document changes |
| Merging.IncomingDuplicatesKept | catalog/Catalog.go:101-109 | two incoming matches at the same location, which the named document lacks, are both appended to it |
| Merging.CaseVariantsMergeIntoOne | catalog/Catalog.go:81-94 | keys differing only in case give one term, which keeps the spelling merged first |
| Merging.MergeDocumentsUnique | catalog/Catalog.go:96-99 | merging keeps a term's document names distinct |
| Merging.MergeTermUnique | catalog/Catalog.go:81-111 | merging keeps every term's document names distinct |
| Merging.MergeTermDistinct | catalog/Catalog.go:81-94 | merging keeps the keys distinct ignoring case |
| Merging.LookupUnique | catalog/Catalog.go:48-56 | with distinct keys the term found is the only one with that key |
| Merging.MergeTermCovers | catalog/Catalog.go:81-111 | after an entry is merged, a term with its key holds a document with its name at every one of its locations |
| Merging.HoldsOwnLocations | document/Document.go:16-24 | a document has a match at each of its matches' locations |
| Merging.MergeDocumentsCovers | catalog/Catalog.go:96-110 | after merging, the document with the incoming name holds every incoming location |
| Merging.CoveredMergeUnchanged | catalog/Catalog.go:81-111 | merging an entry with nothing new leaves the terms unchanged |
| Merging.CoveredStays | catalog/Catalog.go:81-111 | an entry once covered stays covered whatever entry is merged next |
| Merging.MergeDocumentsKeeps | catalog/Catalog.go:96-110 | merging a document keeps every other document where it was, with every location it had |
| Merging.MergeAllCovers | catalog/Catalog.go:77-112 | after a list of entries is merged, each of them is covered |
| Merging.MergeAllCoveredUnchanged | catalog/Catalog.go:77-112 | merging entries that are all covered changes nothing |
| Merging.CoveredStaysAll | catalog/Catalog.go:77-112 | an entry once covered stays covered whatever list of entries is merged afterwards |
| Merging.MergeAgainUnchanged | catalog/Catalog.go:77-112 | merging entries already merged, in any order and any number of times, leaves the terms unchanged |
| Merging.LookupFirst | catalog/Catalog.go:81-90 | the lookup finds the first term with an equal key |
| Merging.HasMatchIndexGrows | catalog/Catalog.go:101-109 | appending matches keeps every location a document had |
| Catalogs.Flatten | catalog/Catalog.go:119-161 | every entry of every base path's walk is visited |
| Catalogs.MatchesFilePattern | catalog/Catalog.go:129-136 | the path contains one of the configured file patterns; `IsFilePatternMatch` computes it |
| Catalogs.Selected | catalog/Catalog.go:125-140 | the walk filter: a path that is not a directory and matches a file pattern; `SelectionMembers` states which entries it keeps |
| Catalogs.SelectionMembers | catalog/Catalog.go:125-140 | the files indexed are exactly the visited entries that are files whose path contains a file pattern |
| Catalogs.IsFilePatternMatch | catalog/Catalog.go:129-140 | true exactly when the path contains one of the file patterns |
| Catalogs.AppendNewMatches | catalog/Catalog.go:101-109 | the document's matches followed by the incoming matches whose location it did not hold before the loop |
| Catalogs.TermsDistinct | tree/Tree.go:22-44 | a tree's terms have keys distinct ignoring case |
| Catalogs.SearchTerms | catalog/Catalog.go:222-236 | the terms collected are exactly those whose key contains the search term ignoring case |
| Catalogs.CollectTerms | catalog/Catalog.go:229-233 | a new array holding the term of each found node, in order |
| Catalogs.MergeInPlace | catalog/Catalog.go:96-110 | updating a found node's documents in place keeps the tree valid and is `MergeTerm` on the terms |
| Catalogs.SelectionConcat | catalog/Catalog.go:119-161 | the files selected from two walks one after the other are the two selections one after the other |
| Catalogs.IndexesStayCovered | catalog/Catalog.go:77-112 | files covered before more entries are merged stay covered |
| Catalogs.EnumeratedCovered | catalog/Catalog.go:77-112 | after every entry of a file's index is merged, in any order, the index is covered |
| Catalogs.IndexedStep | catalog/Catalog.go:123-161 | indexing one more selected file extends what was indexed by that file and its merge order |
| Catalogs.IndexedConcat | catalog/Catalog.go:119-161 | indexing two walks one after the other indexes their two selections one after the other |
| Catalogs.MergeFilesConcat | catalog/Catalog.go:119-161 | merging the files of two walks is merging those of the second after those of the first |
| Catalogs.Catalog.NewCatalog | catalog/Catalog.go:176-216 | a valid catalog over the configuration whose tree holds just the sentinel term "mn" |
| Catalogs.Catalog.FindTerm | catalog/Catalog.go:48-56 | the term whose key equals the search term ignoring case, None when there is none; "mn" in any case is always found |
| Catalogs.Catalog.Search | catalog/Catalog.go:222-236 | the terms of the nodes the tree search reports, in the same order, or None when it reports none; every term returned contains the search term and every term that contains it is returned |
| Catalogs.Catalog.MergeEntry | catalog/Catalog.go:78-111 | the terms become `MergeTerm` of what they were, a node is created exactly when no key was equal, and an entry with nothing new leaves the tree untouched |
| Catalogs.Catalog.MergeIndex | catalog/Catalog.go:77-112 | every entry of the file's index is merged once in some order, the number of new terms is counted, and afterwards the whole index is covered; an index already covered leaves the tree untouched |
| Catalogs.Catalog.Visit | catalog/Catalog.go:124-160 | a path is indexed exactly when it is a file whose path contains a file pattern; its index is built by `CreateIndex` and merged; anything else, or a file with nothing new, leaves the tree untouched |
| Catalogs.Catalog.WalkPath | catalog/Catalog.go:123-161 | the file count is the number of selected files, which are indexed one after the other in walk order and all end up covered |
| Catalogs.Catalog.Index | catalog/Catalog.go:62-169 | the configured paths are walked in order; the file count is the number of selected files, the node count the number of terms added, and every selected file's index ends up covered; indexing the same files again leaves the tree untouched |

## Left out

- The regular-expression engine is not part of this model. Compiling the patterns (`compileRegexes`, catalog/Catalog.go:34-43) and its errors are left out. The engine's output for each file and pattern is an input.
- File-system access is left out: `filepath.Walk`, `os.Stat` and `PhysicalFile.Read` (document/PhysicalFile.go:111-115). The walk of each base path and each file's contents are inputs.
- Errors during the walk are not modelled; contents always come as data. When a file cannot be read, the walk callback returns the error (catalog/Catalog.go:149-153), which ends `filepath.Walk` for that base path. `Index` ignores what `filepath.Walk` returns. The WaitGroup was already incremented for that file (catalog/Catalog.go:146), so `Wait` blocks and `Index` never reaches its `return nil` (catalog/Catalog.go:168). `filepath.Walk` also calls the callback on an error of its own, in two ways. When it cannot stat a path (a missing base path, or an entry removed during the walk), it passes a nil `info`, and `info.IsDir()` (catalog/Catalog.go:125) panics. When it cannot list a directory (permission denied, say), it passes that directory's own `info`; `IsDir()` is true, the callback returns nil (catalog/Catalog.go:159), and the walk skips the directory's contents without notice and goes on.
- Concurrency is left out: the channels, goroutines and WaitGroups of `CreateIndex`, `Index` and `Tree.Search`, and the catalog's mutex. The model runs producer and consumer one after the other; since there is a single consumer, the order of matches is the same. Every call of `Tree.Search`, `CreateIndex` and `Index` leaves its consumer goroutine blocked for good: the `break` on the done channel (tree/Tree.go:139-140, document/PhysicalFile.go:58-59, catalog/Catalog.go:116-118) only leaves the `select`, and the loop around it waits again. The model has no goroutines, so this leak is not modelled; it does not change any result.
- `ToJSON` (tree/Tree.go:155, catalog/Catalog.go:241-252, document/Term.go:48), `String`, logging and timing are left out: they only format or report.
- Trees.Tree.Add: nodes are indices into one store rather than pointers, so pointer identity and aliasing are not modelled. Go allocates the new node before calling `findLast`; the model appends it only when it is attached.
- GoStrings.ToLower: lower-cases ASCII letters only, where Go's `strings.ToLower` maps all of Unicode.
- PhysicalFiles.CreateIndex: requires each match to have the capture group its pattern's key selects. Go indexes the submatches with that key and panics otherwise.
- The HTTP server, controllers, middleware and configuration reader are outside the engine.
