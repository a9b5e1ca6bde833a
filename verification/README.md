# Verified models of LHMatch and Xpress

Two libraries are modelled, each with the properties it exists for.

**LHMatch** (`lhmatch/`) assigns every left vertex of a bipartite graph that has a neighbour to one of its neighbours
so that the loads of the right vertices are as even as possible. Both algorithms are modelled step by step on a
mutable graph object: `LHAlgBFS` with its greedy start, bucket lists, shared search queue, marks kept across
augmentations and shrinking maximum, and `LHAlgOnline` with its early stop at the least load. The source leaves out
why they are right; here it is proved, for every graph and every starting matching whose loads are counted right: for
each threshold k the final matching has the least possible total load above k among all assignments, hence the least
cost, the least maximum, the least value of every convex cost, and after dropping all but one edge at each right
vertex a maximum cardinality matching. The optimality argument is a certificate for each k, a set of right vertices
closed under "matched partner, then any neighbour"; `Assignments` proves that certificates suffice and that they exist
exactly if no alternating path evens out two loads, `Sweeps` that a fruitless scan leaves them behind, `OnlineTrees`
that an online step keeps them. `LHRuns` covers whole runs of the library's calls, also those that leave counters too
high.

**Xpress** (`xpress/`) compresses blocks as literals and matches. Modelled are the plain coding (DIRECT2) and the Huffman
coding (HUFF_ALL), both from text to tokens, from tokens to bytes and from bytes to text:

- the Huffman code: radix sort, two-queue merge, lengths by a stack walk, the restart with halved frequencies, canonical
  masks and the packed table; optimal among all prefix codes exactly if some optimal prefix code keeps to the limit,
  which blocks of fewer than 2583 tokens always allow, and otherwise optimal for the frequencies after the halvings;
- the decoder's table, sorted and expanded in place, and its lookup, which finds for any 32 bits the one symbol whose
  codeword they begin with;
- bit fields and bytes interleaved in one stream, with words reserved ahead; the reader's offset is the writer's offset at
  every step;
- words of flags that are filled in later and bytes shared by two lengths;
- both decoders in full, in the output array: the fast half, whose reads and writes stay in bounds without checks, and the
  careful half near the ends; on every source the two together do what decoding with all checks does;
- both round trips, including a text decoded only up to a given byte, and the size that the Huffman encoder predicts;
- the match finder: hash chains, the pruned search for the longest match, the passes of all compression levels;
- `XpressEncode` and `XpressDecode` with their size checks: for every text, level and report interval, compression
  followed by decompression gives the text back, the output is never exceeded, and exactly which returned sizes
  decode;
- CRC-32.

The modules follow the layers: `Totals` (sums), `LoadVectors`, `Assignments`, `Cardinality` (theory of loads),
`Buckets`, `SearchTrees`, `AlternatingPaths`, `Sweeps`, `OnlineTrees` (data structures and searches), `LHMain`,
`LHBFS`, `LHOnline`, `LHMatch` (the library's files), `LHRuns`, `OnlineExamples` (runs of calls); `PrefixCodes`,
`HuffmanTrees`, `HuffmanBuild`, `HuffmanLengths`, `RadixSort`, `CanonicalCodes`, `HuffmanCodes`, `Fibonacci` (the
code), `CodeLists`, `DecodeTables`, `Registers`, `Lookup` (decoding a symbol), `BitStreams`, `BitIO` (streams),
`Tokens`, `PlainStreams`, `Direct2Encode`, `Direct2Decode`, `Direct2Fast`, `Direct2Parse`, `PlainExamples` (plain
coding), `HuffEncode`, `HuffBuffer`, `HuffDecode`, `HuffFast`, `HuffSize`, `HuffAll`, `HuffExamples` (Huffman coding),
`HashChains`, `MatchFinder`, `Compressor` (text to tokens), `XpressDirect2`, `XpressHuffAll` (the library's calls) and
`Crc32`.

Where code and documentation disagree the model follows the code:

- `LHAlgBFS` on a graph without any edge runs below its bucket array (`lhmatch/lhbfs.c:253`). The model returns a fault,
  and it is proved that this happens exactly if the graph has no edge.
- `inc/lhmatch.h:62-64` says that the online algorithm computes from scratch, but `lhmatch/lhonline.c:136-171` does not
  clear the matching: a vertex that is matched already is matched once more, and the counter of its old partner stays.
  `LHAlgOnline` leaves exact counters if and only if none was set at the start, and then an LH matching; the model runs it
  from every other state too, with counters that are at least the real loads. `OnlineExamples.OnlineUneven` ends with a
  matching that is not an LH matching.
- `xpress/xpress.h:94-95` says that the output is left as it is if compression fails, but with the plain coding the
  first pass writes to it (`xpress/xencode.c:1500-1519`). After a failure it is untouched if and only if the sizes are
  refused or there is room for fewer than 32 bytes; `XpressDirect2.XpressEncode` proves this and says what is there
  otherwise, and `XpressDirect2.Spoiled` gives an input.
- The encoder accepts more room than the text has, and may then return a size that the decoder refuses: one above that of
  the text (`TooLarge`, for either coding), or, with the plain coding, 7 (`XpressDirect2.TooSmall`;
  `xpress/xdecode.c:325-330`). `RoundTrip` says exactly when decoding succeeds.
- If no symbol has a length, `huffman_decode_create` reports success without filling the table
  (`xpress/xdecode.c:74-75`), and `do_decode` then reads it. `HuffAll.DecodeHuffAllBlock` reports such a block as not
  defined, exactly in that case.

## Model

| member | source | states |
|---|---|---|
| LoadVectors.ExcessBoundsConvexCost | inc/lhmatch.h:12-16 | a load vector with the same total and, above every threshold, no more excess than another has no greater value of any convex cost |
| LoadVectors.SameExcessSameMultiset | inc/lhmatch.h:12-16 | equal excess above every threshold means the same loads up to order |
| LoadVectors.BalancingLowersCost | lhmatch/lhbfs.c:67-98 | moving one unit from a load to one at least two lower strictly lowers the sum of c(c+1)/2 |
| Assignments.CertificateMinimisesExcess | lhmatch/lhbfs.c:207-279 | a closed set of right vertices containing all loads above k and none below k shows that no assignment has less excess above k |
| Assignments.CertifiedIsLHMatching | lhmatch/lhbfs.c:321-321 | an assignment with a certificate for every k minimises every convex cost of the loads over all assignments |
| Assignments.LHMatchingMinimisesCost | inc/lhmatch.h:37-41 | an LH matching has the least matching cost and the least sum of squares, hence the least variance |
| Assignments.LHMatchingMinimisesMaximum | inc/lhmatch.h:12-16 | no assignment has a smaller maximum load than an LH matching |
| Assignments.LHMatchingsAgree | lhmatch/lhonline.c:9-24 | any two LH matchings of a graph, whichever algorithm found them, have the same loads up to order |
| Assignments.CertifiedIffNoPath | lhmatch/lhbfs.c:207-256 | an assignment has a certificate for every threshold if and only if no alternating path leads from a load to one lower by two or more |
| Cardinality.KeepOneIsMatching | inc/lhmatch.h:18-20 | keeping one edge at each right vertex of a partial assignment gives a matching with one edge for every right vertex in use |
| Cardinality.LHMatchingGivesMaximumMatching | inc/lhmatch.h:18-20 | kept from an LH matching it is a matching of maximum cardinality |
| Buckets.PushKeepsBuckets | lhmatch/lhmain.c:44-49 | pushing a vertex in front of a bucket keeps all buckets well-formed doubly linked lists of exactly the vertices filed there |
| Buckets.CutKeepsBuckets | lhmatch/lhmain.c:52-61 | unlinking a vertex anywhere in its bucket keeps all buckets well-formed, with the rest of the list in order |
| SearchTrees.QueueFits | lhmatch/lhmain.c:197-204 | the queue never holds more entries than there are vertices, so an unmarked vertex always has room |
| AlternatingPaths.SwitchStep | lhmatch/lhbfs.c:76-87 | one step up the search tree goes to an earlier vertex of the same tree and rematches one left vertex along a graph edge |
| AlternatingPaths.SwitchedLoads | lhmatch/lhbfs.c:89-97 | a switched path changes the loads of its two ends by one each and no other load |
| Sweeps.SweepTree | lhmatch/lhbfs.c:225-236 | a search tree that found no load two above its root keeps the record of the sweep, although earlier trees' vertices are skipped |
| Sweeps.SweepBucket | lhmatch/lhbfs.c:216-250 | when every vertex of bucket b is marked the sweep has passed b |
| Sweeps.SweptCertifies | lhmatch/lhbfs.c:207-256 | a sweep past k without augmentation gives the certificate for k |
| LHMain.Graph.constructor | lhmatch/lhmain.c:310-357 | a new graph is sound, without edges and unmatched |
| LHMain.AddVtxToBucket | lhmatch/lhmain.c:44-49 | the vertex becomes the head of the bucket's list; all lists stay valid |
| LHMain.RemoveVtxFromBucket | lhmatch/lhmain.c:52-61 | exactly that vertex leaves the bucket's list; all lists stay valid |
| LHMain.InitializeRHSBuckets | lhmatch/lhmain.c:169-194 | every right vertex with a neighbour is filed under its load, up to the maximum load |
| LHMain.InitializeLHSBuckets | lhmatch/lhmain.c:70-94 | every left vertex with a neighbour is filed under its degree |
| LHMain.OrderedGreedyAssignment | lhmatch/lhmain.c:99-140 | extends any partial matching whose loads are recorded to an assignment; exact counters stay exact |
| LHMain.ClearMarks | lhmatch/lhbfs.c:271-273 | unmarking the queue unmarks every vertex |
| LHBFS.InitializeBFS | lhmatch/lhbfs.c:45-53 | clears all parent pointers and empties the queue |
| LHBFS.AddVtxToTree | lhmatch/lhbfs.c:57-61 | marks and enqueues one vertex; marks and queue keep agreeing and the queue stays within its size |
| LHBFS.DoBFS | lhmatch/lhbfs.c:143-198 | grows a tree of the current search only; returns a vertex loaded at least two more than the root, or explores everything reachable and finds every load at most one more |
| LHBFS.SwitchPath | lhmatch/lhbfs.c:76-87 | rematches along the tree path from the high end up to the root and nowhere else |
| LHBFS.UpdateNegPath | lhmatch/lhbfs.c:67-98 | changes just the two end loads, keeps the counters exact and the buckets sorted, strictly lowers the cost, and removes the root from its bucket without disturbing its successors |
| LHBFS.TryRoot | lhmatch/lhbfs.c:222-248 | a root either yields an augmentation of lower cost or leaves the matching alone and the sweep intact |
| LHBFS.ScanBucket | lhmatch/lhbfs.c:218-249 | the saved next vertex stays in the bucket; a bucket scanned without augmentation is swept |
| LHBFS.LowerMaximum | lhmatch/lhbfs.c:252-253 | the loop down to a non-empty bucket stays in bounds exactly if the graph has an edge |
| LHBFS.DoFullScan | lhmatch/lhbfs.c:207-256 | a scan started without marks lowers the recorded cost or leaves the matching alone, which is then optimal if the counters are exact |
| LHBFS.MainLoop | lhmatch/lhbfs.c:260-279 | terminates, with a certificate for every threshold if the counters are exact |
| LHBFS.LHAlgBFS | lhmatch/lhbfs.c:284-334 | from any partial matching with exact counters the result is an LH matching with exact counters; with counters that are too high it is an assignment; faults exactly if there is no edge |
| OnlineTrees.ShiftStep | lhmatch/lhonline.c:82-90 | one step of the augmentation moves the unmatched end one pair up the tree |
| OnlineTrees.ShiftedLoads | lhmatch/lhonline.c:75-94 | an augmentation raises the load of its end by one and changes no other |
| OnlineTrees.ShiftKeepsCertified | lhmatch/lhonline.c:9-24 | augmenting to a least loaded reachable vertex, or to one of globally least load, keeps a certificate for every threshold |
| OnlineTrees.SearchFindsLeast | lhmatch/lhonline.c:98-133 | the vertex found is least loaded among all that can be reached, also when the search stops early |
| OnlineTrees.CoversShifted | lhmatch/lhonline.c:75-94 | recorded loads that are at least the real ones stay so over an augmentation |
| LHOnline.EnqueueNbr | lhmatch/lhonline.c:45-61 | enqueues exactly the unmarked neighbours the alternation allows |
| LHOnline.UpdateMinRHSLoad | lhmatch/lhonline.c:64-71 | finds the least load of all right vertices |
| LHOnline.BFS | lhmatch/lhonline.c:98-133 | returns no vertex exactly if there is no neighbour; otherwise one of globally least load or one least loaded among all reachable |
| LHOnline.AugmentPath | lhmatch/lhonline.c:75-94 | rematches along the tree path, raises one counter and keeps the known minimum a lower bound |
| LHOnline.StepKeepsInvariant | lhmatch/lhonline.c:142-165 | after step i all left vertices up to i with a neighbour are matched and every threshold has a certificate |
| LHOnline.OnlineStep | lhmatch/lhonline.c:142-165 | one vertex moves to a least loaded one in reach, which gains a recorded unit while the old partner of the vertex keeps its own; none loses its match; if the matching was optimal for the first i vertices it is now an LH matching of the graph restricted to one more |
| LHOnline.PrefixIsLHMatching | lhmatch/lhonline.c:9-24 | after step i the matching is an LH matching of the graph restricted to the first i left vertices |
| LHOnline.LHAlgOnline | lhmatch/lhonline.c:136-171 | from any partial matching whose loads are recorded: every vertex with a neighbour is matched by a run of such steps; the counters are exact at the end if and only if none was set before, and then the matching is an LH matching |
| LHMatch.LHCreateGraph | lhmatch/lhmain.c:310-357 | fails exactly if a side is empty; otherwise a sound empty graph |
| LHMatch.LHAddEdge | lhmatch/lhmain.c:408-449 | adjacency stays symmetric and duplicate-free; each error code exactly in its case, with nothing changed |
| LHMatch.LHSetMatchingEdge | lhmatch/lhmain.c:478-526 | rematches along an existing edge and keeps the counters exact; refuses anything else unchanged |
| LHMatch.LHClearMatching | lhmatch/lhmain.c:826-847 | unmatches everything and zeroes the counters |
| LHMatch.LHGetMatchedVtx | lhmatch/lhmain.c:744-768 | the partner's number, or the error for an unmatched or an illegal vertex |
| LHMatch.LHGetStatistics | lhmatch/lhmain.c:785-809 | edges, matched edges, cost and right vertices in use |
| LHMatch.ClearAlgState | lhmatch/lhmain.c:224-239 | clears marks, links and queue and keeps the matching |
| LHMatch.LHFindLHMatching | lhmatch/lhmain.c:697-720 | dispatch, on every graph the calls can leave: an LH matching under the conditions of each algorithm, an assignment otherwise, the fault of the breadth-first search without edges, an error for any other algorithm |
| LHMatch.StatisticsOfLHMatching | lhmatch/lhmain.c:796-806 | for an LH matching the reported cost is the least possible and the reported matching size is that of a maximum matching |
| LHRuns.EdgeCount | lhmatch/lhmain.c:785-803 | the degrees on the right add up to the number of different legal edges that were added |
| LHRuns.RunOperations | lhmatch/lhmain.c:310-847 | over every run of edge additions, matching-edge settings, clearings and searches by either algorithm: the edges, and their number in the statistics, are exactly the legal ones added, and matched pairs are edges; if every online search starts from a cleared matching, counters and statistics are right and a final search leaves an LH matching; the only fault is a breadth-first search before the first edge |
| OnlineExamples.OnlineUneven | lhmatch/lhonline.c:136-171 | a run with matchings set by hand before two online searches, after which a third puts two vertices on one partner although each could have its own: not an LH matching |
| PrefixCodes.KraftInequality | xpress/xencode.c:1264-1277 | Kraft's inequality for every prefix code |
| PrefixCodes.LowerBound | xpress/xencode.c:1164-1192 | no lengths that satisfy Kraft's inequality cost less than merging the two lightest again and again, and none of that cost are all shorter than the tree built by preferring symbols, and then lower trees, on ties |
| PrefixCodes.HuffmanCostIsLeast | xpress/xencode.c:1164-1192 | the same over all prefix codes: none is cheaper, and none as cheap keeps to fewer bits than the tree has levels |
| HuffmanTrees.MergeTakesLightest | xpress/xencode.c:1164-1192 | two picks, each the least tree of all that are left, make one step of Huffman's cost and of the least height, and both queues stay sorted |
| HuffmanTrees.WeightedDepth | xpress/xencode.c:1194-1211 | weighted path length of the leaves is the total weight of the inner nodes |
| HuffmanTrees.KraftExact | xpress/xencode.c:1194-1211 | the leaves of the tree fill the code space exactly |
| HuffmanTrees.LaterLeafNoDeeper | xpress/xencode.c:1213-1219 | depths do not increase along the sorted list, so its head is a deepest leaf |
| HuffmanBuild.Select | xpress/xencode.c:1171-1190 | the tree picked is the least of all that are left, by frequency and then by height, although the source compares no heights; a symbol if one is as light |
| HuffmanBuild.BuildTree | xpress/xencode.c:1164-1192 | a full tree over the leaves whose inner weights sum to the least cost and whose height is the least for that cost; frequencies do not fall in the order of picking |
| HuffmanBuild.EvaluateLengths | xpress/xencode.c:1194-1211 | the walk gives every node its depth, and its stack of 256 places is never exceeded by a tree of at most 256 levels |
| HuffmanLengths.FrequencyDoubles | xpress/xencode.c:1194-1211 | two levels up a node's frequency has at least doubled |
| HuffmanLengths.DepthLimited | xpress/xencode.c:1203-1211 | so frequencies below 65536 make trees of fewer than 64 levels, far from the end of the stack |
| HuffmanLengths.DepthWithinHeight | xpress/xencode.c:1213-1219 | no node is deeper than the root is high |
| HuffmanLengths.EqualWeightsFit | xpress/xencode.c:1218-1226 | a tree over equal weights is within the limit if that many codewords fit at all |
| HuffmanLengths.HalvingProgresses | xpress/xencode.c:1218-1226 | if the tree is too deep, halving strictly lowers the sum of the frequencies |
| HuffmanLengths.HalveFrequencies | xpress/xencode.c:1220-1225 | every frequency on the list is halved, rounding up |
| HuffmanLengths.PartNext | xpress/xencode.c:1220-1225 | r halvings that round up divide by 2^r and round up once |
| HuffmanLengths.LimitLengths | xpress/xencode.c:1164-1226 | terminates for every input; lengths from 1 to the limit, Kraft sum exactly 1, not increasing along the list; of least cost if and only if the least depth of an optimal tree is within the limit; in general, after the first number r of restarts for which that depth is within the limit, of least cost for the frequencies divided by 2^r and rounded up, and no deeper than that depth |
| RadixSort.BucketPass | xpress/xencode.c:1140-1161 | a stable distribution pass: a permutation, ordered by key and within a key as before |
| RadixSort.SortByFrequency | xpress/xencode.c:1135-1162 | two passes sort frequencies below 65536 |
| CanonicalCodes.CanonInList | xpress/xencode.c:1264-1277 | in code order each codeword is the space taken by those before it |
| CanonicalCodes.CodewordFits | xpress/xencode.c:1264-1277 | every canonical codeword fits its length |
| CanonicalCodes.CanonPrefixFree | xpress/xencode.c:1264-1277 | canonical codewords of lengths that fill the code space are prefix free |
| HuffmanCodes.GatherUsed | xpress/xencode.c:1108-1118 | the symbols that occur, in order, with their frequencies |
| HuffmanCodes.SetUpMasks | xpress/xencode.c:1261-1277 | masks are the canonical codewords, each byte of the packed table is the length of an even symbol plus 16 times that of the next, and the total is frequency times length |
| HuffmanCodes.MasksPrefixFree | xpress/xencode.c:1264-1277 | the masks of the symbols that occur are a prefix code within the limit |
| HuffmanCodes.AnyCodeCosts | xpress/xencode.c:1164-1211 | every prefix code for the symbols that occur costs at least the least cost of their frequencies, and if no more it needs at least the least depth |
| HuffmanCodes.OptimalIff | xpress/xencode.c:1213-1226 | among codes within a limit there is an optimal one if and only if the least depth of the frequencies is within it |
| HuffmanCodes.HuffmanCreateCodes | xpress/xencode.c:1089-1278 | two or more symbols: a complete canonical code for exactly those, its cost, and its table with even symbols in the low halves of the bytes; optimal among all prefix codes if and only if the least depth is within the limit, that is, if and only if some optimal prefix code is; otherwise optimal, and of least depth, for the frequencies divided by 2^r and rounded up, with the smallest r for which that depth is within the limit; one symbol: two lengths of one in one byte; none: nothing |
| Fibonacci.FibonacciHeight | xpress/xencode.c:1164-1226 | with the first n Fibonacci numbers as frequencies the tree of least depth has n - 1 levels |
| Fibonacci.DepthNeedsFrequencies | xpress/xencode.c:1213-1226 | an optimal code of least depth d takes frequencies whose sum is at least a Fibonacci number that grows with d |
| Fibonacci.FifteenBitsAreEnough | xpress/xencode.c:1540-1544 | frequencies that sum up to less than 2584 have an optimal code of at most 15 bits |
| Fibonacci.FifteenBitsAreNotEnough | xpress/xencode.c:1540-1544 | 512 symbols of which 17 occur with Fibonacci frequencies: the least depth is 16, and the code with the limit of the only call is not optimal |
| HuffmanCodes.TwoBitsAreNotEnough | xpress/xencode.c:1218-1226 | the same in numbers for a limit of two bits, which the function would take: for the frequencies 1, 1, 2, 4 the code costs 16, while another prefix code costs 14 |
| CodeLists.FillsIffClosed | xpress/xdecode.c:97-108 | the Kraft sum is exactly 1 if and only if no tree node is left open after the last level |
| CodeLists.CanonOfPlace | xpress/xdecode.c:110-127 | the j-th symbol of n bits has the codeword j after the first one of n bits |
| DecodeTables.CountLengths | xpress/xdecode.c:62-71 | the number of symbols of each length |
| DecodeTables.CheckLengths | xpress/xdecode.c:97-108 | the halving check succeeds if and only if the Kraft sum is exactly 1 |
| DecodeTables.SortSymbols | xpress/xdecode.c:110-127 | the counting sort puts the symbols in code order at the start of the table |
| DecodeTables.LevelBounds | xpress/xdecode.c:129-143 | the tree part stays within two places a symbol, above the root and the symbols not yet read |
| DecodeTables.LinkPairs | xpress/xdecode.c:137-138 | links to consecutive pairs, nothing else changed |
| DecodeTables.MoveLeaves | xpress/xdecode.c:139-140 | moves entries without overwriting one not yet read |
| DecodeTables.ExpandLevel | xpress/xdecode.c:134-142 | one level of the tree: its symbols, then its links |
| DecodeTables.FillRoot | xpress/xdecode.c:145-157 | every root place holds the symbol whose codeword begins it or a link |
| DecodeTables.RootDone | xpress/xdecode.c:158-158 | when the symbols are used up the root is full: both indices end at 0 |
| DecodeTables.HuffmanDecodeCreate | xpress/xdecode.c:58-165 | succeeds exactly if no symbol is used or the Kraft sum is exactly 1; then the table is complete; otherwise it is untouched |
| DecodeTables.UnpackedHalves | xpress/xdecode.c:62-71 | the low half of a byte is the length of the even symbol, the high half that of the odd one |
| Registers.NextBit | xpress/xdecode.c:252-259 | the top bit of the shifted mask extends the bits read |
| Lookup.OneBegins | xpress/xdecode.c:247-268 | at most one codeword begins given bits |
| Lookup.BiordDecode | xpress/xdecode.c:247-268 | for any 32 bits: the one symbol whose codeword they begin with, its length, and the mask shifted by exactly that |
| BitStreams.CollectSpill | xpress/xencode.c:495-509 | a field that spans two words completes the first and begins the second |
| BitStreams.RefillAligned | xpress/xdecode.c:224-231 | a loaded word joins the bits left without overlap |
| BitIO.BitWriter.constructor | xpress/xencode.c:718-721 | two words reserved, nothing collected |
| BitIO.BitWriter.Put | xpress/xencode.c:495-509 | appends a field of at most 15 bits; a completed word goes to its reserved place and a new one is reserved |
| BitIO.BitWriter.PutByte | xpress/xencode.c:763-772 | appends a byte after everything reserved |
| BitIO.BitWriter.Finish | xpress/xencode.c:787-788 | stores the last word padded with zeros and a zero word; the output is the image of all that was written |
| BitIO.OpenInSync | xpress/xdecode.i:80-83 | the reader starts with the first two words |
| BitIO.SeesField | xpress/xdecode.c:215-216 | the top bits of the mask are the next field |
| BitIO.DropInSync | xpress/xdecode.c:223-236 | after dropping a field and refilling, offset and bit count are the writer's after writing it |
| BitIO.ByteInSync | xpress/xdecode.i:243-249 | a byte is found where the writer put it |
| BitIO.WriteAll | xpress/xencode.c:708-791 | any sequence of fields and bytes gives its image |
| BitIO.ReadAll | xpress/xdecode.c:215-236 | reads back any written sequence in order and ends at the end of the output |
| Tokens.CopyBlock | xpress/xdecode.c:182-199 | copies in the output eight bytes at a time, then one by one; source and target may overlap, and nothing beyond is changed |
| Tokens.CopyShort | xpress/xdecode.i:785-790 | eight bytes are copied where fewer count: those that count are right, and at most eight are changed |
| Tokens.CopiedRepeats | xpress/xdecode.c:187-199 | each copied byte equals the one the offset before it |
| Direct2Encode.PlainWriter.constructor | xpress/xencode.c:184-189 | a word of flags is reserved and marked by a one |
| Direct2Encode.PlainWriter.TagWrite | xpress/xencode.c:197-209 | appends a flag; the 32nd stores the word and reserves the next one |
| Direct2Encode.PlainWriter.WriteLit | xpress/xencode.c:333-336 | appends a literal |
| Direct2Encode.PlainWriter.WritePtr | xpress/xencode.c:338-382 | appends a match of offset up to 8192 in one of the four forms of its length |
| Direct2Encode.PlainWriter.PutQuad | xpress/xencode.c:359-368 | a four-bit length opens a byte or joins the one that waits |
| Direct2Encode.PlainWriter.TagWriteFinish | xpress/xencode.c:211-219 | pads the last word with ones and leaves the finished output |
| Direct2Encode.EncodeDirect2 | xpress/xencode.c:1500-1537 | the output of any token sequence |
| Direct2Decode.NextFlagRead | xpress/xdecode.i:731-759 | the next flag, and the source offset of its token's bytes |
| Direct2Decode.QuadInSource | xpress/xdecode.i:800-812 | the next four-bit length, from a new byte or from the one kept |
| Direct2Decode.MatchInSource | xpress/xdecode.i:765-832 | offset and length of the next match, whichever form it has |
| Direct2Decode.CarefulWithin | xpress/xdecode.i:715-868 | with all checks, on any source: no more than asked for is decoded, nothing beyond the end is read, and what is decoded only grows |
| Direct2Decode.EncodingDecodes | xpress/xdecode.i:715-868 | an encoding decodes to the text up to any byte, the end mark exactly at the end, where the source is used up |
| Direct2Fast.UncheckedReads | xpress/xdecode.i:765-832 | with six bytes left the reads of a match without checks are those with checks |
| Direct2Fast.DecodeDirect2 | xpress/xdecode.i:715-868 | the fast half and the careful half together, in the output array: on any source the result is that of decoding with all checks, no read or write leaves its buffer, and nothing from the requested end on is changed |
| Direct2Fast.Direct2RoundTrip | xpress/xdecode.i:691-714 | every valid token sequence comes back as its text, or any beginning of it |
| Direct2Parse.ParsesBack | xpress/xdecode.i:691-714 | every list of tokens with representable matches, whether or not they refer to anything, is read back exactly from its output |
| Direct2Parse.PlainIsInjective | xpress/xencode.c:333-382 | different lists of tokens have different outputs |
| PlainExamples.EncodePlain | xpress/xencode.c:333-382 | the 23 bytes of seven tokens that use each form of a length on both sides of its borders |
| PlainExamples.LongLengthRefused | xpress/xdecode.i:814-819 | a literal and a copy with 16 bits of length: decoding fails exactly if they hold less than 277, and otherwise gives that many bytes and four |
| HuffEncode.BitNo | xpress/xencode.c:652-658 | the place of the highest bit |
| HuffEncode.EmittedFollows | xpress/xencode.c:708-791 | what has been written for some tokens is never changed by later ones |
| HuffBuffer.WriteBuffer | xpress/xencode.c:660-706 | the first pass leaves the tokens in the buffer |
| HuffBuffer.FlagAtToken | xpress/xencode.c:725-757 | the second pass finds flag and bytes of each token, and the padding flag at the end of the buffer |
| HuffBuffer.MatchStored | xpress/xencode.c:759-780 | symbol, long length and offset bits of a match are read back |
| HuffBuffer.EncodePass2 | xpress/xencode.c:708-791 | the stream of the tokens: codeword, length bytes, offset bits each, and the end mark |
| HuffDecode.LengthReads | xpress/xdecode.i:238-256 | a long length is read back in each of its forms |
| HuffDecode.SymbolInSync | xpress/xdecode.i:136-180 | the codeword found is that of the next token or of the end mark |
| HuffDecode.MatchInSync | xpress/xdecode.i:182-256 | a match is read back and the registers are the writer's after it |
| HuffDecode.CarefulWithin | xpress/xdecode.i:86-318 | with all checks, on any source: no more than asked for is decoded, and nothing beyond the end is read |
| HuffDecode.EncodingDecodes | xpress/xdecode.i:86-318 | an encoding decodes to the text up to any byte, and the end mark exactly at the end |
| HuffFast.UncheckedReads | xpress/xdecode.i:182-256 | with three bytes left the reads of a match without checks are those with checks |
| HuffFast.DecodeHuffAll | xpress/xdecode.i:72-326 | the fast half and the careful half together, in the output array: on any source the result is that of decoding with all checks, no read or write leaves its buffer, and nothing from the requested end on is changed |
| HuffSize.GatherStatistics | xpress/xencode.c:660-706 | the counters of the first pass, one end mark included |
| HuffSize.BufferSize | xpress/xencode.c:184-219 | the size of the intermediate buffer |
| HuffSize.CostOfTokens | xpress/xencode.c:1266-1270 | frequency times length by symbols is the bits of the codewords by tokens |
| HuffSize.StreamSize | xpress/xencode.c:1546-1557 | the size of the stream from bits and bytes |
| HuffAll.EncodeHuffAll | xpress/xencode.c:1520-1596 | table and stream encode the tokens, their size is the predicted one; the code is optimal for the symbol frequencies after as few halvings as bring the least depth within 15 bits, and with fewer than 2583 tokens optimal |
| HuffAll.DecodeHuffAllBlock | xpress/xdecode.c:364-379 | fails on an incomplete code, is undefined exactly without any code, and otherwise gives what the stream decodes to |
| HuffAll.BlockDecodes | xpress/xdecode.c:364-379 | every encoding has a code and decodes to its text |
| HuffAll.HuffAllRoundTrip | xpress/xencode.c:1546-1600 | every valid token sequence comes back as its text, or any beginning of it, and the predicted size is the real one |
| HuffExamples.HuffBytes | xpress/xencode.c:708-791 | an output is the stream of these eight tokens if and only if it is these eleven bytes: bits, words ahead of the bytes, long lengths, offsets |
| HuffExamples.LongLengthRefused | xpress/xdecode.i:238-256 | a literal and a copy with 16 bits of length: decoding fails exactly if they hold less than 270, and otherwise gives that many bytes and four |
| HashChains.ZHashInsert | xpress/xencode.c:162-179 | every position is linked to the latest earlier one with the same hash, the last two to 0 |
| HashChains.ChainDescends | xpress/xencode.c:162-179 | a chain runs strictly downwards and stays above 0 |
| HashChains.ChainVisits | xpress/xencode.c:162-179 | a chain visits exactly the earlier positions other than 0 with the same hash; that of the last two positions is empty |
| MatchFinder.MatchLength | xpress/xencode.i:166-212 | the comparison in blocks of 16 and then byte by byte finds exactly how far two places agree |
| MatchFinder.WalksBack | xpress/xencode.i:30-34 | with the first link set, the links lead from the current position through all candidates back to it |
| MatchFinder.FindMatch | xpress/xencode.i:21-212 | the result is the longest match of the candidates seen, the first of the longest, near enough; it stops only at the end of the chain, at one too far back, when nothing longer can follow, or for lack of tries: a try lasts for eight candidates or up to one that agrees in the two bytes probed, so with h such candidates among those seen, eight times the tries is at most seen + 7h |
| MatchFinder.FindFirst | xpress/xencode.i:64-92 | level 2: of at most nine candidates the first that passes the two-byte probe, if it is near enough and agrees in three bytes; the search ends at that one, at the ninth, or with the chain |
| MatchFinder.SearchIsComplete | xpress/xencode.i:71-92 | with as many tries as candidates, probing two bytes and stopping early lose nothing: the match is the longest in the whole window before it, and the nearest of these |
| Compressor.CopyAgrees | xpress/xencode.i:188-195 | copying from a place that agrees, even an overlapping one, gives the bytes that follow |
| Compressor.QuickPass | xpress/xencode.i:279-421 | levels 0 and 1: the tokens stand for the text up to the position reached, each chosen by the latest position with the same hash; the table is kept for positions inside matches too |
| Compressor.ChainPass | xpress/xencode.i:217-270 | level 2 and above: the same, each token chosen by the search of its level |
| Compressor.PassProgress | xpress/xencode.c:1309-1349 | stopping to report progress changes nothing of this |
| Compressor.ChosenIsLongest | xpress/xencode.i:217-270 | where the tries suffice a match is the longest there is, and a literal means there was none, except with the beginning of the text when no other position has the same hash |
| Compressor.TailLiterals | xpress/xencode.c:1525-1529 | with the rest as literals the tokens stand for the whole text |
| Compressor.NewBytesTakeTokens | xpress/xencode.i:217-270 | in a text where no byte value recurs after some position, every byte from there on takes a token of its own |
| XpressDirect2.SomeWritten | xpress/xencode.c:333-382 | tokens take no more bytes than they stand for, and four more for every 32 |
| XpressDirect2.PassFits | xpress/xencode.c:1504-1516 | a pass over as many bytes as the source allows itself never exceeds the output, wherever its last match ends |
| XpressDirect2.WorstCase | xpress/xencode.c:1504-1516 | no list of tokens takes more than literals would |
| XpressDirect2.RoomMeans | xpress/xencode.c:1504-1507 | the estimate of the room lets a pass begin exactly if 28 bytes are left |
| XpressDirect2.XpressEncode | xpress/xencode.c:1387-1600 | never writes beyond the output; a returned size other than that of the text is that of an encoding of it, with tokens chosen as the level, clamped to its range, says; it succeeds exactly if 28 bytes are left after the last pass: a failure after writing means that fewer were left at some pass, and a success that at least 28 were left at the last; with room for the text as literals it never fails; if it fails, the output is untouched if and only if the sizes are refused or there is room for fewer than 32 bytes, and otherwise it holds the first tokens except for one word of flags |
| XpressDirect2.Spoiled | xpress/xencode.c:1500-1512 | a hundred different bytes with room for 32: compression fails and has written to the output |
| XpressDirect2.Shrinks | xpress/xencode.c:1504-1537 | ten thousand zeros with room for as many: eleven bytes, from which the text comes back |
| XpressDirect2.XpressDecode | xpress/xdecode.c:306-388 | all size checks in order; any block is decoded or refused as the decoder says; an encoding of at least 8 bytes and shorter than the text gives the text up to any byte |
| XpressDirect2.RoundTrip | xpress/xpress.h:93-107 | compress, then decompress any beginning: it comes back if and only if the size returned is that of the text or from 8 up to that; always if the output has at most one byte more room than the text |
| XpressDirect2.TooSmall | xpress/xdecode.c:325-330 | ten equal bytes with room for 64: the block has 7 bytes and is refused |
| XpressDirect2.NewBytesTakeMore | xpress/xencode.c:333-382 | a text that repeats no byte value gives a block of at least four bytes more |
| XpressDirect2.TooLarge | xpress/xdecode.c:325-330 | a hundred different bytes with room for a thousand: the block is larger than the text and is refused |
| XpressHuffAll.FewTokens | xpress/xencode.c:1535-1536 | a block with a match has few enough tokens for 16-bit counts with the end mark |
| XpressHuffAll.BufferWithin | xpress/xencode.c:1669-1692 | the first pass stays within the workspace's buffer |
| XpressHuffAll.BlockSize | xpress/xdecode.c:325-330 | a text that is long enough to be tried never gives a block too short to be accepted |
| XpressHuffAll.SizeWithin | xpress/xencode.c:1546-1557 | bounds on the size of a block by the number of its tokens |
| XpressHuffAll.XpressEncode | xpress/xencode.c:1387-1600 | an encoding of the text with tokens chosen as the level, clamped to its range, says, with a code as good as `HuffAll.EncodeHuffAll` promises, and with its size below the room; fails exactly if the sizes are out of range, nothing matches, or the encoding does not fit |
| XpressHuffAll.XpressDecode | xpress/xdecode.c:306-388 | all size checks in order; a block whose table is not all zeros is decoded or refused as the decoder says; an encoding shorter than the text gives the text up to any byte |
| XpressHuffAll.RoundTrip | xpress/xpress.h:93-107 | compress, then decompress any beginning: it comes back if and only if the size returned is no greater than that of the text, and so whenever the output has at most one byte more room than the text |
| XpressHuffAll.TooLarge | xpress/xdecode.c:325-330 | ten zeros and all other byte values with ample room: the block is larger than the text and is refused |
| Crc32.Crc32Init | xpress/xprs-crc.c:19-42 | each entry is eight division steps of its index |
| Crc32.TableStep | xpress/xprs-crc.c:54-54 | one table lookup does what eight bit steps do |
| Crc32.Crc32 | xpress/xprs-crc.c:44-74 | the checksum is the bit-at-a-time one of section 8 of RFC 1952 |
| Crc32.CheckValue | xpress/xprs-crc.c:22-74 | the checksum of "123456789" is 0xcbf43926 |
| Crc32.CrcAppends | xpress/xprs-crc.c:44-74 | a message may be checked in pieces |
| Crc32.CrcDetects | xpress/xprs-crc.c:44-74 | messages that differ only within four consecutive bytes have different checksums |

## Left out

- Allocation failures, 32-bit overflow of counters and sizes, and pointer validity checks of both libraries: numbers are unbounded and memory suffices.
- Vertex fields, adjacency lists and the LHMatch queue are sequences of a graph object instead of C structures; that the queue fits its allocation is proved.
- The LHMatch debugging members (`DumpGraph`, `PrintStats`, the WORST_GREEDY switch), the unused `GreedyAssignment` and the plain getters of degree and neighbour: they would only add easy members.
- LHMain.OrderedGreedyAssignment: the value the source also stores in a left vertex's load counter is not modelled, because nothing reads it.
- The linked lists that thread the radix sort's buckets are sequences; order, stability and permutation are modelled, relinking is not.
- HuffmanCodes.HuffmanCreateCodes: frequencies are below 65536 and the code limit is at most 15, as in its only call; a packed nibble is added where the source ors it into an empty place.
- HuffAll.EncodeHuffAll: tokens are fewer than 65535, which is proved for every block with a match that `XpressHuffAll.XpressEncode` gets to.
- The hash functions of three bytes (`xpress/xencode.c:20-26`, `xpress/xencode.c:135-160`): the match finder works with any.
- The match finder's variant for unaligned reads (`i386compat`), and the unrolling of its loops.
- The decoders' variant that copies eight bytes at once (`i386compat`); labels and jumps between the two halves are calls.
- Calls of the progress callback (the passes they divide the work into are modelled), magic numbers, null arguments and the allocation of the workspace of `XpressEncode`/`XpressDecode`.
- The x86 assembly forms and the codings the source no longer supports (DIRECT, BY_BIT, HUFF_LEN, HUFF_PTR).
- The unrolling of the CRC loop by 32 is an inner loop of 32 steps.
- `nlrepl/`, `safealloca/` and `adsi/`: wrappers around operating system and LDAP calls.
