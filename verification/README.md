# Verified model of devfiler's aggregation, index and cache code

devfiler stores profiling events in key-value tables and shows them as flame graphs,
sandwich views and top-function lists. This project models the logic between the stored
bytes and those views, and proves what it promises:

- **Interval tree** (`IntervalTree`, `IntervalQuery`, `IntervalIter`, `IntervalCost`): a sorted
  array whose implicit halves form a tree, augmented in place with maximal range ends, and the
  iterator with an explicit stack. Iterating yields exactly the elements a linear filter
  would, in node, right, left order; the stack holds at most log2(n + 1) slices; a query
  with m hits pops at most 2 (m + 1) (floor(log2 n) + 1) + 1 of them, and no constant times
  (log n + m) would do.
- **Flame graph** (`FlameTrie`, `FlameSearch`, `FlameSort`, `FlameGraph`, `FlameBuild`,
  `FlameTotals`, `FlameCommands`): nodes that own their children and are updated in place,
  against a trie on values. Any sequence of `insert_trace` calls builds exactly the weighted
  trie of the reversed traces, with inline chains of any length kept intact; the finished,
  sorted graph accounts for every event with a stored trace, once.
- **Sandwich view** (`FlameSandwich`, `FlamePaths`, `FlameHeavy`, `FlameView`, `FlameTrails`,
  `FlameChains`, `FlameEvents`): the recursive search with its path stack, and the two tries it
  merges all topmost occurrences into: their weights path by path in terms of the searched tree
  and of the events behind it, whichever trace decided how many nodes a frame stands for, and
  that self weights never fall below zero in them.
- **Symbolization** (`SymbolRecords`, `Symbolizer`): interned strings and a tree of range
  records; for an address, one frame for each distinct depth, with lines attributed to call
  sites.
- **Top functions** (`TopStreams`, `TopFuncs`, `TopRanking`): four stages that exchange flat
  streams with a "new trace" flag, against a nested per-trace meaning; the exact condition on
  hash collisions under which the counts are right; ranking and truncation.
- **Trace events** (`TraceEvents`, `EventRange`, `EventBuckets`, `EventSamples`): byte keys, the
  half-open key range behind a closed time range, bucket rounding, merging by trace hash.
- **State machines** (`IngestController`, `IngestWaiting`, `Tables`, `Cached`, `CachedSteps`,
  `CachedRuns`): the controller of symbol fetches and how long a file waits for it, a table with
  an LRU cache over its store, and the single-builder background cache.

`Bytes`, `Sorting`, `Wrappers` and `StackTraces` hold what the others share: byte encodings and
the lexicographic order, the contract of the library's unstable sorts, and the frame types.

Code that changes things step by step is written that way: `FlameNode`, `QueryIter`,
`Controller`, `Table`, `InsertionBatch`, `CachedInner`, `UpdateCounter` and `UpdateWatcher` are classes,
`update_max` works in place on an array, and loops are loops. Each such method is proved equal
to a function on values (`Insert`, `InsertFlat`, `MergeAll`, `Spawned`, `Exec`, `Run`, ...), and
the lemmas are about those functions. Where interleaving is the point, in `Cached`, the methods
are the atomic steps of calls and tasks, and the lemmas are about every sequence of steps of
any number of them on any number of caches.

What is a parameter rather than modelled: the hash of a location (any function), the time (an
input of the steps that read it), the number of records a frame symbolizes to
(`FlameBuild.ChainLength`, between 1 and 65536, which is what `Symbolizer.SymbolizeFrame`
guarantees), the results of symbol fetches and of `create`.

Where the code differs from its documentation, or from what it takes for granted, the model
follows the code:

- `query` and `query_point` are documented to run in O(log n + m). `IntervalCost` gives, for
  every constant, a tree, a point and a range for which either costs more than it times
  (log n + m); the product bound of `IntervalQuery.VisitBound` holds.
- `time_range` is documented to iterate over the events in the given range.
  `EventRange.WindowExact` says which two keys at the corners of the range it leaves out,
  `EventRange.CornersAreMissed` that it does, and `EventRange.ClosedIffNoCorner` that the range
  is as documented if and only if no stored event has such a key.
- `top_funcs.rs` deduplicates by hash. `TopFuncs.ExactIffNoCollisions` is the exact condition
  under which that counts right.
- The controller of symbol fetches unwraps the lookup of a file whose fetch completed. Flushing
  the event data (`src/storage/mod.rs:75-88`) removes all rows of that table, so a fetch that
  is running then ends in a panic of the controller: `IngestController.FlushPanics`.
  `IngestController.RunPanicsIffRowGone` says that, fetches that panic themselves aside, this
  is the only way it can.
- The controller takes the file that came last. Without new receipts a file waits for exactly
  as many completions as its place from the end says (`IngestWaiting.WaitsInOrder`); with steady
  arrivals it can wait forever (`IngestWaiting.StarvesFromStart`).
- A `create` that panics blocks its cache for good, and nothing else does:
  `CachedRuns.BlockedIffPanicked`.

## Model

| member | source | states |
|---|---|---|
| IntervalTree.MaxEndIsMax | src/storage/rkyvtree.rs:109-130 | the value the augmentation is compared with is an upper bound on all range ends of a segment, and one of them |
| IntervalTree.WholeMax | src/storage/rkyvtree.rs:109-130 | the largest end of a segment is the largest of the middle's own end and the maxima of the two halves |
| IntervalTree.AugmentedFrame | src/storage/rkyvtree.rs:113-125 | writing one half leaves the augmentation of the other intact |
| IntervalTree.UpdateMax | src/storage/rkyvtree.rs:109-130 | in place: every node of the segment ends up with the largest end in the slice it is the middle of, elements and everything outside unchanged, and that maximum is returned |
| IntervalTree.UpdateLeft | src/storage/rkyvtree.rs:113-118 | the left half is augmented and the middle raised to its maximum |
| IntervalTree.UpdateRight | src/storage/rkyvtree.rs:120-125 | the right half is augmented and the middle raised to its maximum |
| IntervalTree.FromIter | src/storage/rkyvtree.rs:87-106 | the array is a permutation of the input, sorted by start, and fully augmented, also for no elements |
| IntervalQuery.SplitHits | src/storage/rkyvtree.rs:213-244 | the hits of a slice are the middle if it matches, then those of the right half, then those of the left |
| IntervalQuery.HitsCount | src/storage/rkyvtree.rs:145-165 | the hits of a slice contain each element as often as the slice does if it matches, else never |
| IntervalQuery.WalkPermutes | src/storage/rkyvtree.rs:213-244 | the order in which slices are reached covers every element of a slice as often as it is stored |
| IntervalQuery.NoHits | src/storage/rkyvtree.rs:218-227 | a slice without a matching element has no hits, which is what makes cutting it off safe |
| IntervalQuery.Expansion | src/storage/rkyvtree.rs:213-244 | what the loop keeps and reports of a popped slice are exactly the slice's hits |
| IntervalQuery.StackBound | src/storage/rkyvtree.rs:197-236 | 2 to the stack's length is at most n + 1 |
| IntervalQuery.ExpandNarrowing | src/storage/rkyvtree.rs:220-236 | every iteration keeps the slice at stack position j at most (n + 1) / 2^j long |
| IntervalQuery.ExpandApart | src/storage/rkyvtree.rs:220-236 | every iteration keeps the pending slices disjoint |
| IntervalQuery.ExpandBelow | src/storage/rkyvtree.rs:220-236 | every iteration keeps the pending slices nodes of the halving tree |
| IntervalQuery.ExpandedBound | src/storage/rkyvtree.rs:213-244 | expanded nodes number at most the hits, plus one for the boundary path, times the depth |
| IntervalQuery.VisitBound | src/storage/rkyvtree.rs:145-165 | a query with m hits on n elements pops at most 2 (m + 1) Levels(n) + 1 slices |
| IntervalQuery.LevelsAreLog | src/storage/rkyvtree.rs:145-165 | Levels(n) is floor(log2 n) + 1 |
| IntervalCost.HitIsAlive | src/storage/rkyvtree.rs:218-218 | a slice that holds a hit is never cut off |
| IntervalCost.ExpandedExact | src/storage/rkyvtree.rs:213-244 | left of the boundary the expanded slices are exactly those that hold a hit |
| IntervalCost.FanCounts | src/storage/rkyvtree.rs:213-244 | in a full tree with one hit at the foot of each of 2^k subtrees, what holds a hit are the slices above and one path for each hit |
| IntervalCost.RangeOfOne | src/storage/rkyvtree.rs:145-165 | a range of length one costs and finds what the point query for its start does |
| IntervalCost.CostsMoreThanLogPlusHits | src/storage/rkyvtree.rs:145-165 | for every c there are a tree over distinct starts, a point and a range for which both queries pop more than c (Levels(n) + m) slices |
| IntervalIter.QueryIter.constructor | src/storage/rkyvtree.rs:148-165 | a new iterator has all hits of the tree before it and the whole cost to pay |
| IntervalIter.QueryIter.TodoBound | src/storage/rkyvtree.rs:214-236 | at every point of every query the stack obeys the bound, its segments do not overlap, and each is a slice of the halving tree that the augmentation was computed for |
| IntervalIter.QueryIter.Step | src/storage/rkyvtree.rs:214-241 | one iteration: the popped slice is replaced by the halves that can hold hits, and its middle is reported exactly if it is one |
| IntervalIter.QueryIter.Iterate | src/storage/rkyvtree.rs:214-241 | an iteration costs one pop, shortens the pending segments, and returns the next hit or leaves the upcoming hits as they are |
| IntervalIter.QueryIter.Next | src/storage/rkyvtree.rs:213-244 | returns the next hit in order and leaves the rest to come; nothing is returned only when none is left |
| IntervalIter.Progress | src/storage/rkyvtree.rs:213-244 | an iteration shortens the pending segments, accounts for one pop, and loses no hit |
| IntervalIter.QueryAll | src/storage/rkyvtree.rs:213-244 | iterating to the end yields the filtered node, right, left walk, with the stated number of pops |
| IntervalIter.BuildAndQuery | src/storage/rkyvtree.rs:87-165 | for any input and query: each stored element that matches is returned as often as it was given, and nothing else is |
| IntervalIter.HitsExact | src/storage/rkyvtree.rs:145-165 | multiplicities of hits against multiplicities of the input |
| FlameTrie.GrowInv | src/ui/tabs/flamegraph.rs:876-924 | new nodes form well-formed chains: the cast of the chain length to 16 bits loses nothing |
| FlameTrie.InsertInv | src/ui/tabs/flamegraph.rs:851-925 | every insertion keeps: a node with k inline nodes to come has one child, with its id and weight; other siblings have distinct ids; children weigh no more than their parent |
| FlameTrie.InsertHead | src/ui/tabs/flamegraph.rs:852-872 | insertion adds the weight at the node it starts from, and changes neither its id nor its chain length |
| FlameTrie.ReachInsert | src/ui/tabs/flamegraph.rs:851-925 | one insertion changes what is found at a path exactly if the path is a prefix of the trace, adding its weight there, and its self weight only at the whole trace |
| FlameTrie.ReachGrow | src/ui/tabs/flamegraph.rs:876-924 | a branch created for the rest of a trace has exactly that trace's prefixes |
| FlameTrie.FindUntouched | src/ui/tabs/flamegraph.rs:864-872 | insertion leaves siblings with other ids as and where they were |
| FlameTrie.BuildIsTrie | src/ui/tabs/flamegraph.rs:841-925 | after any sequence of insertions a path exists iff it is a prefix of some inserted trace, weighs the total of those, and has as self weight the total of the traces equal to it |
| FlameGraph.FlameNode.FindChild | src/ui/tabs/flamegraph.rs:864-864 | the first child with the id, or none |
| FlameGraph.FlameNode.InsertAt | src/ui/tabs/flamegraph.rs:851-925 | updating weights and pushing children in memory does to the owned tree what Insert does to the value |
| FlameGraph.FlameNode.InsertBelow | src/ui/tabs/flamegraph.rs:865-872 | going on at a child changes that child only |
| FlameGraph.FlameNode.InsertNew | src/ui/tabs/flamegraph.rs:876-924 | an unknown frame is appended with all its inline nodes and all frames after it |
| FlameGraph.FlameNode.Extend | src/ui/tabs/flamegraph.rs:897-923 | chains are appended below nodes that have no children yet, which is what the loop asserts |
| FlameGraph.FlameNode.ChildrenWeight | src/ui/tabs/flamegraph.rs:841-843 | the loop sums the weights of all children |
| FlameGraph.FlameNode.SelfWeight | src/ui/tabs/flamegraph.rs:846-848 | the subtraction is defined wherever children weigh no more than the node, and its result is zero inside an inline chain |
| FlameGraph.FlameNode.SortOnce | src/ui/tabs/flamegraph.rs:931-932 | the children become a permutation of themselves, ordered by key |
| FlameGraph.FlameNode.SortChildren | src/ui/tabs/flamegraph.rs:930-936 | the tree becomes one of the trees SortOf allows for it, with the same nodes |
| FlameGraph.FlameNode.InsertCallers | src/ui/tabs/flamegraph.rs:1018-1045 | adds the weight along the given ids, creating what is missing |
| FlameGraph.FlameNode.InsertCallee | src/ui/tabs/flamegraph.rs:1057-1079 | folds a node with everything below it into the children, leaving the source as it is |
| FlameGraph.FlameNode.InsertCalleeSubtree | src/ui/tabs/flamegraph.rs:1048-1054 | adds the weight of the children, and folds each of them in |
| FlameSort.RawIdDigits | src/storage/tables/stackframes.rs:30-57 | the bytes frame ids are ordered by are the base 256 digits of the file id, lowest first, and then of the address, highest first |
| FlameSort.RawIdInjective | src/storage/tables/stackframes.rs:30-57 | the bytes frame ids are ordered by are equal only for equal ids |
| FlameSort.KeyAntisymmetric | src/ui/tabs/flamegraph.rs:931-932 | two siblings compare equal only if weight and id are equal |
| FlameSort.KeyOrder | src/ui/tabs/flamegraph.rs:931-932 | the sort key is a total order |
| FlameSort.SortOrder | src/ui/tabs/flamegraph.rs:931-932 | the positions are permuted so that keys ascend, that is, weights descend and then id bytes ascend |
| FlameSort.SortOrders | src/ui/tabs/flamegraph.rs:930-936 | at every depth weights descend, and siblings of equal weight are in order of their id bytes |
| FlameSort.SortKeepsWeights | src/ui/tabs/flamegraph.rs:930-936 | the weight at every id path, what every frame totals to, and the children's sum are unchanged |
| FlameSort.SortKeepsInv | src/ui/tabs/flamegraph.rs:930-936 | inline chains and distinct siblings survive |
| FlameSort.SortKeepsPaths | src/ui/tabs/flamegraph.rs:930-936 | every path leads to the same weight and self weight as before, and exists iff it did |
| FlameSort.SortUnique | src/ui/tabs/flamegraph.rs:930-936 | with distinct sibling ids the unstable sort has only one possible result |
| FlameSort.SortAnyArrival | src/ui/tabs/flamegraph.rs:797-798 | the result does not depend on the order the children arrive in |
| FlameSearch.TopSumInsert | src/ui/tabs/flamegraph.rs:851-925 | an insertion raises what a frame totals to by its weight iff the frame is on its path, once however often it recurs |
| FlameSearch.TopSumBuild | src/ui/tabs/flamegraph.rs:851-925 | topmost occurrences of a frame in a built tree weigh what the inserted traces containing it weigh |
| FlameSearch.OccurrencesWeigh | src/ui/tabs/flamegraph.rs:969-1014 | the nodes the search stops at weigh the frame's topmost total |
| FlameSearch.CallerPathsKept | src/ui/tabs/flamegraph.rs:995-1013 | the caller path of an occurrence lists the ids of all nodes above it except (0, 0), and leaves out no others |
| FlameSandwich.FlatIsInsert | src/ui/tabs/flamegraph.rs:1018-1045 | inserting a caller path is inserting a trace of frames without inline nodes |
| FlameSandwich.CallersAreBuilt | src/ui/tabs/flamegraph.rs:985-988 | the callers trie is what inserting all non-empty inverted caller paths builds |
| FlameSandwich.CallersExact | src/ui/tabs/flamegraph.rs:985-988 | at every path stands the weight of the occurrences whose inverted caller path starts with it, and the root weighs what its children do |
| FlameSandwich.MergeNodePath | src/ui/tabs/flamegraph.rs:1057-1079 | folding a node in adds, at every path, the weight the node has there |
| FlameSandwich.MergeNodeDistinct | src/ui/tabs/flamegraph.rs:1057-1079 | merged siblings keep distinct ids at every depth |
| FlameSandwich.MergeAllWeight | src/ui/tabs/flamegraph.rs:1048-1054 | the children of the callees root gain what was added to the root itself |
| FlameSandwich.CalleesExact | src/ui/tabs/flamegraph.rs:1048-1079 | at every path stands the sum of what the occurrences have there, and root weight and children's weight stay equal |
| FlamePaths.CalleePaths | src/ui/tabs/flamegraph.rs:1048-1079 | the callees trie has exactly the paths that some occurrence has |
| FlamePaths.CallerPaths | src/ui/tabs/flamegraph.rs:1018-1045 | the callers trie has exactly the prefixes of the inverted caller paths |
| FlameView.CollectPaths | src/ui/tabs/flamegraph.rs:969-1014 | folds exactly the topmost occurrences into both tries, in order, and leaves the path stack as it found it |
| FlameView.CollectChildren | src/ui/tabs/flamegraph.rs:1001-1010 | the loop over the children does so for all of them with the same path above |
| FlameView.FoldOccurrence | src/ui/tabs/flamegraph.rs:978-992 | a found node is inserted into the callers only if anything is above it, and into the callees always |
| FlameView.BuildSandwich | src/ui/tabs/flamegraph.rs:940-966 | the view is the sorted merge of the occurrences into two fresh tries, apart from the searched graph |
| FlameView.SandwichExact | src/ui/tabs/flamegraph.rs:940-1079 | every weight and every path of both finished tries, their meta roots, their order, and that no node weighs less than its children, in terms of the topmost occurrences |
| FlameHeavy.InvHeavy | src/ui/tabs/flamegraph.rs:846-848 | in trees built by insertions no node weighs less than its children, at any depth |
| FlameHeavy.MergeNodeHeavy | src/ui/tabs/flamegraph.rs:1057-1079 | folding a node in keeps that, although it breaks inline chains |
| FlameHeavy.CalleesHeavy | src/ui/tabs/flamegraph.rs:1048-1079 | so does merging all occurrences, root included: the self weight shown for a callee is never below zero |
| FlameHeavy.SortKeepsHeavy | src/ui/tabs/flamegraph.rs:930-936 | and sorting |
| FlameBuild.BuildFlameGraph | src/ui/tabs/flamegraph.rs:747-800 | the graph in memory is a sorting of the tree that aggregating the selected events builds |
| FlameBuild.AggregateEvents | src/ui/tabs/flamegraph.rs:764-789 | the loop finds or creates one node per command and inserts each stored trace there |
| FlameBuild.InsertEvent | src/ui/tabs/flamegraph.rs:772-788 | one event changes its command's node only, or adds one with the next meta id |
| FlameTotals.AggregateNames | src/ui/tabs/flamegraph.rs:772-788 | there is one node per command that has an event with a stored trace, and no other |
| FlameTotals.AggregateTrees | src/ui/tabs/flamegraph.rs:764-789 | a command's node is what inserting its traces, and only its, builds |
| FlameTotals.GraphExact | src/ui/tabs/flamegraph.rs:747-925 | the root weighs what the commands weigh, which is the total count of events with a stored trace; topmost occurrences of any frame weigh the events whose trace contains it; siblings are in order and no node weighs less than its children |
| FlameTotals.CommandExact | src/ui/tabs/flamegraph.rs:747-925 | below each command, every path exists, weighs and self-weighs what the traces inserted for the command say |
| FlameCommands.AggregateCommands | src/ui/tabs/flamegraph.rs:772-788 | the commands are numbered in the order of their first events with a stored trace |
| FlameCommands.SamplesAreTraces | src/ui/tabs/flamegraph.rs:851-925 | what is inserted for a command are the stored traces of its events, last frame first, each with its count |
| FlameCommands.FirstSampleIsFirst | src/ui/tabs/flamegraph.rs:876-899 | a frame is inserted with as many nodes as it has records in the first such trace: one for an abort frame, else what it symbolizes to |
| FlameCommands.StartsBackwards | src/ui/tabs/flamegraph.rs:855-855 | a path starts a stored trace iff its ids are those of the trace's last frames, backwards |
| FlameCommands.CommandByEvents | src/ui/tabs/flamegraph.rs:747-925 | from events to the finished graph: below a command a path exists iff it is empty or the ids of the last frames, backwards, of some stored trace of its events; it weighs the total count of those events, and self-weighs that of those whose whole trace it is |
| FlameTotals.GraphUnique | src/ui/tabs/flamegraph.rs:796-800 | hash map order and unstable sorting leave no choice in the graph shown |
| FlameTotals.Conservation | src/ui/tabs/flamegraph.rs:763-799 | graph root, sum over commands, merged samples and stored events all total the same |
| FlameTotals.SandwichAccounts | src/ui/tabs/flamegraph.rs:940-1014 | the occurrences a sandwich view merges weigh the total count of the events whose trace contains the frame |
| FlameTrails.InsertKnows | src/ui/tabs/flamegraph.rs:851-925 | after an insertion its path is known, by the very nodes the insertion walked over or created |
| FlameTrails.KnownStays | src/ui/tabs/flamegraph.rs:864-872 | inline chains never change: later insertions leave the walk of every known path alone |
| FlameTrails.InsertPath | src/ui/tabs/flamegraph.rs:851-925 | an insertion adds its weight at exactly the node paths it walks over, inline nodes included, whatever chains are there already |
| FlameTrails.InsertHits | src/ui/tabs/flamegraph.rs:851-1014 | an insertion adds its weight to what the sandwich view of a frame will show at a caller or callee path iff its walk has the path next to the first occurrence of the frame |
| FlameTrails.TotalsAreSums | src/ui/tabs/flamegraph.rs:969-1014 | what the search finds at a path is a sum over the tree that it searches |
| FlameTrails.SortKeepsHits | src/ui/tabs/flamegraph.rs:930-936 | sorting the graph changes neither |
| FlameChains.ChainInsert | src/ui/tabs/flamegraph.rs:864-925 | an insertion keeps the chain at every path that is there, and brings its own to the new prefixes of its trace |
| FlameChains.BuildChains | src/ui/tabs/flamegraph.rs:851-925 | in every built tree the chain at a path is as long as in the first inserted trace that starts with the path |
| FlameChains.WalkIsNodes | src/ui/tabs/flamegraph.rs:851-872 | a walk meets every frame of its path as often as the chain there is long |
| FlameEvents.HitAtFirst | src/ui/tabs/flamegraph.rs:969-1014 | along a trail the search stops at the first node of the frame, with the ids above it other than (0, 0) |
| FlameEvents.AggregateHits | src/ui/tabs/flamegraph.rs:764-789 | over the command nodes these sums are the total counts of the events whose walk hits |
| FlameEvents.WalkIsTrail | src/ui/tabs/flamegraph.rs:764-789 | the walk of an event through the aggregated graph, from the events alone: the number of its command, and then the frames of its stored trace, last first, each as often as it had records in the first event of the command with the same frames up to it |
| FlameEvents.SandwichByEvents | src/ui/tabs/flamegraph.rs:747-1079 | from events to the finished view of any frame but (0, 0): at each caller path stands the total count of the events whose trail has it, read upwards without (0, 0), next above the first occurrence of the frame; at each callee path of those that have it next below |
| SymbolRecords.AddStr | src/symbolizer/mod.rs:196-199 | strings are interned once, earlier references stay valid, and the reference resolves to the string as long as the table fits 32 bits |
| SymbolRecords.Convert | src/symbolizer/mod.rs:202-229 | fails iff some record is a return pad; else each element is the stored form of its record |
| SymbolRecords.InsertSymbols | src/symbolizer/mod.rs:189-239 | the stored tree holds the records of the file and nothing else, each as often as the file does, with their own strings |
| SymbolRecords.RefersResolves | src/storage/symdb/mod.rs:193-197 | looking a reference up gives the original string, and none for the sentinel |
| Symbolizer.LineNumberForVa | src/storage/symdb/mod.rs:219-233 | the loop finds the line of the last entry of the longest table prefix with offsets up to the address; none before the range |
| Symbolizer.LineForIsGreatest | src/storage/symdb/mod.rs:219-233 | on a sorted table that is the entry with the greatest offset up to the address, and none iff all are beyond |
| Symbolizer.SortAndDedup | src/storage/symdb/mod.rs:279-281 | one of the hits for each depth among them, in strictly increasing depth |
| Symbolizer.Dedup | src/storage/symdb/mod.rs:281-281 | on sorted input, keeps one element per depth and no others |
| Symbolizer.WalkInline | src/storage/symdb/mod.rs:288-315 | frame j has function j and the call site of j + 1; the last has its own file and line; without inline frames only the first is made |
| Symbolizer.FrameAt | src/storage/symdb/mod.rs:292-307 | how one record and the next make a frame |
| Symbolizer.SymbolizeNative | src/storage/symdb/mod.rs:272-315 | the frames are those of one record per distinct depth, taken modulo 2^16, among all records containing the address, in that order; without one, the frame has no function, file or line |
| Symbolizer.SymbolizeFrame | src/storage/symdb/mod.rs:246-315 | always 1 to 65536 frames for the frame asked about; interpreter frames come from their table, with the line cut to 32 bits and zero for none |
| Symbolizer.HitsMember | src/storage/symdb/mod.rs:279-279 | the point query yields exactly the stored elements containing the address |
| Symbolizer.RecordsOf | src/storage/symdb/mod.rs:279-281 | behind the picked elements is a complete chain of input records |
| Symbolizer.ChainByDepth | src/storage/symdb/mod.rs:279-281 | for records less than 2^16 deep the frames are in order of depth, outermost first, and no depth at the address is missing |
| Symbolizer.ChainIsShort | src/ui/tabs/flamegraph.rs:897-899 | distinct 16-bit depths bound the chain, so its length less one fits 16 bits |
| TopStreams.HasTextSomewhere | src/ui/tabs/top_funcs.rs:264-270 | a filter is found in a text iff the text contains it at some position |
| TopStreams.InnermostFirst | src/ui/tabs/top_funcs.rs:368-391 | an innermost record puts its location in front iff it has a function and the filter is empty or found in its function or file |
| TopStreams.LeafFirst | src/ui/tabs/top_funcs.rs:350-391 | a trace emits what its first stored frame, the leaf, emits, and then what the others do |
| TopStreams.PullEvents | src/ui/tabs/top_funcs.rs:327-339 | sends every selected event and totals all their counts, stored trace or not |
| TopStreams.PullFrames | src/ui/tabs/top_funcs.rs:342-355 | sends the frames of stored traces with their index |
| TopStreams.PullSymbols | src/ui/tabs/top_funcs.rs:358-393 | the loop with its held flag sends what Symbolized says |
| TopStreams.SendLocations | src/ui/tabs/top_funcs.rs:368-391 | innermost record first, without functionless and filtered ones; the first location sent takes the flag, and it stays raised if none is |
| TopStreams.AlongTrace | src/ui/tabs/top_funcs.rs:363-392 | over the frames of a trace the stage sends the trace's locations, the first one flagged, however the flag stood before |
| TopStreams.StreamIsNested | src/ui/tabs/top_funcs.rs:327-393 | the flat stream is the nested one, also across empty traces and traces that emit nothing |
| TopFuncs.Aggregate | src/ui/tabs/top_funcs.rs:399-425 | the loop over the stream computes Run |
| TopFuncs.AlongItems | src/ui/tabs/top_funcs.rs:402-425 | over the items of a trace each location gains the count once if it is counted, and as self if it is first; earlier traces are forgotten |
| TopFuncs.RunIsExact | src/ui/tabs/top_funcs.rs:326-425 | for every location, counts are the sums over the events whose trace counts it, and entries exist only for counted locations |
| TopFuncs.CountsOrdered | src/ui/tabs/top_funcs.rs:402-425 | self <= with children <= all samples, whatever collides |
| TopFuncs.CountedIffNoCollision | src/ui/tabs/top_funcs.rs:404-412 | a trace is counted for all locations it emits iff no two of them collide |
| TopFuncs.ExactIffNoCollisions | src/ui/tabs/top_funcs.rs:404-412 | all counts are those of the events emitting the location iff no trace with a count has colliding locations |
| TopFuncs.CollisionHides | src/ui/tabs/top_funcs.rs:410-412 | a location that follows a different one with its hash, and does not occur before that, is emitted but not counted |
| TopRanking.Rank | src/ui/tabs/top_funcs.rs:436-448 | all entries once: by the count asked for, descending, then by function, then by file with none first |
| TopRanking.RankOrder | src/ui/tabs/top_funcs.rs:437-448 | the comparator is total and transitive |
| TopRanking.QueryTopFuncs | src/ui/tabs/top_funcs.rs:316-460 | the whole query: exact counts, ranking, totals before truncation, the first 500; empty for a reversed range |
| TopRanking.TruncationKeepsTop | src/ui/tabs/top_funcs.rs:451-453 | counts never grow down the ranking, and a location that is cut off has a count no greater than any that is kept |
| TopRanking.CountsBounded | src/ui/tabs/top_funcs.rs:418-424 | shown counts never exceed what they are part of |
| TopRanking.CountsExact | src/ui/tabs/top_funcs.rs:326-425 | without collisions a location's counts are those of the events whose trace emits it, and emits it first |
| TraceEvents.IntoRaw | src/storage/tables/traceevents.rs:80-86 | the filled buffer is the key that the store is ordered by |
| TraceEvents.KeyBytesAre | src/storage/tables/traceevents.rs:26-87 | byte by byte: the timestamp from its highest byte on, the id from its lowest on, and the number of the kind |
| TraceEvents.KeyRoundTrip | src/storage/tables/traceevents.rs:69-87 | a key reads back as written iff its kind is a real one |
| Bytes.LittleEndianDigits | src/storage/tables/traceevents.rs:83-83 | byte i is digit i in base 256 |
| Bytes.BigEndianDigits | src/storage/tables/traceevents.rs:82-82 | the last byte but i is digit i in base 256 |
| Bytes.BigEndianOrder | src/storage/tables/traceevents.rs:82-82 | big-endian bytes order as the numbers do |
| Bytes.LexAtFirst | src/storage/table.rs:194-197 | two byte strings are ordered by the first position at which they differ, or else by length |
| Bytes.LexConcat | src/storage/table.rs:194-197 | behind equally long heads, byte order is decided by the heads and then the tails |
| EventRange.KeyOrder | src/storage/tables/traceevents.rs:80-86 | keys order by timestamp, then id bytes, then kind |
| EventRange.WindowExact | src/storage/tables/traceevents.rs:117-135 | a stored key passes both bounds and the filter iff it is in the closed window, of the kind asked for or any kind for Mixed and Unknown, and not one of two corner keys |
| EventRange.CornersAreMissed | src/storage/tables/traceevents.rs:117-135 | the two corner keys are in the window and yet outside the key range, for Mixed and for every single kind |
| EventRange.ClosedIffNoCorner | src/storage/tables/traceevents.rs:107-136 | the events yielded are all those of the closed window and kind iff no stored event has a corner key |
| EventRange.TimeRange | src/storage/tables/traceevents.rs:110-136 | yields exactly the events of the window, in table order, ascending by timestamp |
| EventRange.Decode | src/storage/table.rs:265-281 | every row reads back as the event it was stored for, and those of a matching kind are kept in order |
| EventRange.DecodedIsSelected | src/storage/tables/traceevents.rs:133-135 | the decoded, filtered rows of the byte range are the events of the window, in the table's order |
| Sorting.ListingUnique | src/storage/table.rs:194-197 | there is one way to list given entries in strictly ascending order |
| EventRange.TableAscends | src/storage/tables/traceevents.rs:107-109 | the table's byte order is ascending by timestamp |
| EventBuckets.EventCountBuckets | src/storage/tables/traceevents.rs:140-167 | the step is the quotient of duration and buckets, or one; at least two more buckets than asked for (or than the duration) and at most 2B + 1, at consecutive multiples of the step that tightly enclose the range; every index in bounds; each bucket counts exactly the events rounding down to it; nothing is lost |
| EventBuckets.Fill | src/storage/tables/traceevents.rs:161-164 | adding event by event leaves each bucket with the count of its interval and the total unchanged |
| EventBuckets.BucketBound | src/storage/tables/traceevents.rs:151-159 | the rounded ends are at most 2B steps apart |
| EventBuckets.AtLeastAsked | src/storage/tables/traceevents.rs:151-159 | there are more steps than buckets asked for, or than the range is long |
| EventBuckets.Slot | src/storage/tables/traceevents.rs:162-163 | a timestamp is in the interval of a bucket iff its index is the quotient |
| EventBuckets.WiderCounts | src/storage/tables/traceevents.rs:153-161 | rounding outwards counts every event of the asked-for range |
| EventSamples.SampleEvents | src/storage/tables/traceevents.rs:173-204 | one entry per stored trace that occurs, with its frames and the total count of its events |
| EventSamples.MergeOne | src/storage/tables/traceevents.rs:183-200 | each event keeps that, whether its entry is occupied, vacant or its trace is missing |
| EventSamples.MergedTotal | src/storage/tables/traceevents.rs:173-204 | the entries total the counts of all events whose trace is stored |
| IngestController.Controller.Turn | src/symbolizer/mod.rs:101-141 | one turn, whatever the table holds: it panics iff a fetch completed whose file has no row; else the update is handled, the row of a completed file gets its status and no other row changes, both assertions hold, tasks are spawned and the invariants are kept |
| IngestController.Controller.Select | src/symbolizer/mod.rs:102-127 | a received file waits unless it is being fetched; a completed one leaves the active set and its row gets the fetched status, or the time of the failed attempt; or the loop panics if its row is gone |
| IngestController.Controller.SpawnTasks | src/symbolizer/mod.rs:133-140 | the loop starts waiting files, last first, until none waits or the pool is full |
| IngestController.HandledInv | src/symbolizer/mod.rs:102-127 | either branch keeps waiting and active apart, and one task per active file |
| IngestController.SpawnedInv | src/symbolizer/mod.rs:133-140 | spawning keeps that, and ends with nothing waiting or a full pool |
| IngestController.ActiveIsRunning | src/symbolizer/mod.rs:129-130 | active files number as many as running fetches |
| IngestController.RunIsSafe | src/symbolizer/mod.rs:88-142 | in every run up to a panic, with any changes to the table in between: waiting and running files are disjoint, no file is fetched twice at a time, at most 15 fetches run, and files wait only while the pool is full |
| IngestController.RoundPanics | src/symbolizer/mod.rs:101-141 | a turn panics iff a fetch completes while its file has no row; it keeps the rows there are |
| IngestController.RoundWrites | src/symbolizer/mod.rs:115-124 | a completion writes the fetched status, or TempError with the time after a failure, to the row of its file, and keeps its name and all other rows; a receipt writes nothing |
| IngestController.RowStays | src/symbolizer/mod.rs:88-142 | over any part of a run a row stays as it is unless its fetch completes or the table is changed |
| IngestController.LastCompletionStays | src/symbolizer/mod.rs:88-142 | in every run the status of a file is what its last completion wrote, until the table is changed |
| IngestController.RunPanicsIffRowGone | src/symbolizer/mod.rs:88-142 | a run is free of panics iff no fetch completes while the row of its file is gone |
| IngestController.FlushPanics | src/symbolizer/mod.rs:115-115 | a run that panics: a file is received and fetched, the table is flushed, the fetch completes |
| IngestController.ReceivedPlace | src/symbolizer/mod.rs:103-107 | a received file that waits already keeps its place, with what was received now; any other comes last |
| IngestController.ReceivedIsHandled | src/symbolizer/mod.rs:103-139 | a received file ends up waiting or fetched, also if its row is gone; without an endpoint nothing is fetched and nothing keeps waiting |
| IngestWaiting.CompletionStarts | src/symbolizer/mod.rs:110-140 | a completion starts the file that came last and no other |
| IngestWaiting.WaitsInOrder | src/symbolizer/mod.rs:88-142 | in every run without new receipts, k completions take exactly the last k files off those that wait |
| IngestWaiting.StartsInOrder | src/symbolizer/mod.rs:133-140 | the file at position i is fetched from completion number (waiting files - i) on |
| IngestWaiting.Overtakes | src/symbolizer/mod.rs:102-140 | a file received while the pool is full is the next to be fetched, all others go on waiting |
| IngestWaiting.Starves | src/symbolizer/mod.rs:88-142 | with steady arrivals there is, for every number of completions, a run in which no waiting file starts |
| IngestWaiting.StarvesFromStart | src/symbolizer/mod.rs:88-142 | such runs exist from the start on, for any file received after fifteen others |
| Tables.Table.Get | src/storage/table.rs:157-188 | answers what the store holds, and makes the entry the most recent of the cache |
| Tables.Table.Insert | src/storage/table.rs:136-149 | cache and store take the value |
| Tables.Table.Remove | src/storage/table.rs:121-131 | the key leaves cache and store |
| Tables.Table.Iter | src/storage/table.rs:194-207 | all entries, each once, in ascending byte order |
| Tables.Table.Range | src/storage/table.rs:210-220 | the entries with lo <= key < hi, each once, in ascending byte order |
| Tables.InsertionBatch.Insert | src/storage/table.rs:289-295 | collects the write and leaves the table alone |
| Tables.InsertionBatch.Commit | src/storage/table.rs:298-307 | applies the collected writes in order and empties the cache |
| Tables.ExecCoherent | src/storage/table.rs:121-188 | every operation keeps each cached value equal to the stored one, and the cache within its size |
| Tables.HistoryIsPlain | src/storage/table.rs:121-188 | after every history lookups answer what a plain map would, uncommitted batches included |
| Tables.AppliedIsLast | src/storage/table.rs:298-299 | of several writes to a key in a batch the last wins |
| Tables.AppliedLeaves | src/storage/table.rs:298-299 | a batch leaves other keys alone |
| Tables.PutEvictsLast | src/storage/table.rs:179-183 | filling the cache drops no other key but the least recently used, and only when full |
| Tables.GetMovesFirst | src/storage/table.rs:157-188 | a hit makes its entry the first of the cache and leaves the others in order; a miss puts the stored entry first, and the last one goes only then, if the cache is full |
| Tables.RemoveLeaves | src/storage/table.rs:121-131 | removing a key takes its entry out of the cache and leaves all others in order |
| Cached.NextCellInv | src/ui/cached.rs:76-119 | every atomic step of a call or task keeps the flag's meaning and the provenance of all values |
| Cached.RunInv | src/ui/cached.rs:76-145 | the invariants of all caches, the counter and the watchers hold in every interleaving |
| Cached.SingleBuilder | src/ui/cached.rs:97-115 | being_constructed is set iff a task owns construction, and never do two own it |
| Cached.ReturnedIsGenuine | src/ui/cached.rs:87-118 | a returned value is the default or the result of create for the hash stored with it; a call returns without an election iff the value was of its own hash and at most a second old when it looked |
| Cached.WatcherSeesBuilds | src/ui/cached.rs:115-145 | any_caches is true iff builds completed since the watcher's last call, unless their number is a multiple of 2^64 |
| Cached.PanicIsFinal | src/ui/cached.rs:107-116 | if create panics, no step clears the flag, elects a task or changes the value any more |
| Cached.PanicForever | src/ui/cached.rs:107-116 | the same over every continuation, with all caches interleaved |
| CachedRuns.ValueWasStored | src/ui/cached.rs:109-113 | the stored value is the default or what a task stored, with the time of that step, its own result and the hash of its own key |
| CachedRuns.ReturnedWasStored | src/ui/cached.rs:87-87 | a call returns the value that was stored when it looked |
| CachedRuns.TaskWasElected | src/ui/cached.rs:90-107 | every task was started by the election of one call, for its key, while the flag was clear, and that call had found its value not to be good |
| CachedRuns.StoredIsLatest | src/ui/cached.rs:97-116 | in every interleaving only the most recently elected task can own construction, and the stored value is that of the most recently elected task that has stored one: results never overtake each other |
| CachedRuns.FlagClears | src/ui/cached.rs:107-116 | while no create has panicked, the owner clears the flag within three of its own steps |
| CachedRuns.BlockedIffPanicked | src/ui/cached.rs:97-116 | in every reachable state some continuation clears the flag iff no create of that cache has panicked |
| CachedRuns.PanicReached | src/ui/cached.rs:87-108 | such a panic is reachable by a first call, unless its hash is that of the young default |
| CachedSteps.CachedInner.Load | src/ui/cached.rs:87-87 | a call loads the value that is stored then |
| CachedSteps.CachedInner.Check | src/ui/cached.rs:90-93 | a young value of the same key hash is returned, any other goes on to the election |
| CachedSteps.CachedInner.Elect | src/ui/cached.rs:96-107 | only the call that finds the flag clear sets it and starts a task; every call returns the value it loaded |
| CachedSteps.CachedInner.Store | src/ui/cached.rs:109-113 | the task stores its own result beside its own key's hash |
| CachedSteps.CachedInner.Clear | src/ui/cached.rs:114-114 | the flag is cleared after the value is stored, by the task that owns it |
| CachedSteps.CachedInner.Bump | src/ui/cached.rs:115-115 | each finished task bumps the shared counter once |
| CachedSteps.UpdateCounter.FetchAdd | src/ui/cached.rs:115-115 | the counter is its start plus the number of bumps, modulo its range |
| CachedSteps.UpdateWatcher.AnyCaches | src/ui/cached.rs:141-145 | true iff builds completed since the last call, unless their number is a multiple of 2^64; a first call also counts the start of the counter |

## Left out

- Drawing, colours, node texts, zoom and navigation, the heat map's percentage positions (floating point) and its bit vectors.
- RocksDB, rkyv, mmap, HTTP, gRPC and DWARF extraction: the store is an ordered map on byte strings, serialization is the identity, a symbol file is its list of records, and read errors other than return pads do not occur.
- Stack traces are looked up in a plain map, and interpreter frames likewise: `Tables.Table.Get` answers what the store holds, so the caches in between are not repeated there.
- The library's unstable sorts are known by their contract only: sorted, and a permutation.
- Sums and counts are unbounded: overflow of u64 weights is not modelled, nor are weights of 2^63 and more, which would change sign in the sort key's cast to i64.
- FlameGraph.FlameNode.InsertAt: the loop that moves one mutable reference down the tree is a method that calls itself on the child, because a parent's footprint cannot be valid while its child is being rewritten; the same holds for InsertCallers.
- FlameGraph.FlameNode.InsertAt: symbolization happens before the walk rather than at the first unknown frame; the number of records of a frame is the same function either way.
- FlameBuild.AggregateEvents: the hash map of command nodes is a list of names beside the children of the root to be; FlameTotals.GraphUnique covers every order in which the map can hand them out.
- The first command node has the root's id (0, 0) and is left out of caller paths, as in the program; `FlameTotals.GraphExact` and `FlameTotals.SandwichAccounts` are about frames with a non-zero file id, `FlameEvents.SandwichByEvents` about all but (0, 0).
- SymbolRecords.InsertSymbols: the claim about the stored records is for files with fewer than 2^32 distinct strings, where no reference is cut or equal to the sentinel; depths are compared as the 16 bits that are stored.
- Symbolizer.LineForIsGreatest: for sorted line tables; Symbolizer.LineNumberForVa says what happens on any.
- Which of several records with equal depth at an address is reported is the sort's choice, and the model leaves it open.
- TopStreams.PullSymbols: the LRU cache in front of symbolization is left out, since it only saves work; the channels are plain sequences, and timestamps, used for the heat map only, are dropped.
- EventBuckets.EventCountBuckets: a start of zero and a rounded end beyond u64, which overflow in the program, are excluded.
- Tables.HistoryIsPlain: one thread; the fill of the cache after a miss is not atomic with an insert of another thread. The associative merge operator, which no table uses, is left out, as are statistics and the latest sequence number.
- Tables.Table.Range: the store's iterator is replaced by taking out the least key again and again.
- IngestController.Controller.Turn: the closing of the channel, on which the controller returns, and panicking fetches are left out; which branch of the select runs is any. Other parts of the program change the table only between turns: a flush between the lookup and the write-back of one completion leaves the table as it would be if others had put that row back.
- Cached: key hashing is a parameter, memory ordering is sequential consistency as requested in the program, and a builder's clock may show any time.
- UTF-8: strings are sequences of characters, whose order and substrings agree with those of their bytes.
- The OTLP receiver, the log and request rings, number formatting, time grids and tab plumbing are not modelled.
