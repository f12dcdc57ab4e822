# A verified model of iprange

iprange manages sets of IP address ranges. This project models its hardest parts in Dafny and
proves what they promise, for every input and every run:

- **Identifier bitmaps** (`Bitmap*`, `Used*`, `IdNamespace`, `FreeBitmap`). Identifiers and free
  pages live in copy-on-write trees of pages; branch pages keep one summary bit per child saying
  whether an unused identifier lies below it. The pages refine a plain set of identifiers, the
  summaries stay exact through every edit, allocation returns the lowest unused identifier, and
  the committed tree a draft started from is never touched, and no page number is leaked.
- **Sweep algebra** (`EventQueue`, `Presence`, `SweepModel`, `Sweep`, `AddressCount`,
  `SweepAnalysis`, `SetPlan`, `SweepOutput`). Many range sources are merged by one scan over
  boundary events. The segments it emits carry, at every address, exactly the feeds the sources
  carry there; counting, comparing and materializing are proved against sets of addresses.
- **Membership join** (`MembershipJoin`, `JoinOutput`). Two sides are tabulated against each other
  in one pass, and the table is reported cell by cell, in batches.
- **Range-set engine** (`Ranges`, `RangeAlgebra`, `IpSet*`). Adding, optimizing, merging,
  intersecting, excluding and diffing sets of inclusive ranges, over whole runs of the operations.
- **CIDR output** (`Cidr*`). Splitting ranges into prefixes, its exact cost bounds, that the
  output is the shortest possible, and the prefix-reduction heuristic.
- **128-bit arithmetic** (`Bits`, `Uint128`, `Ipv6Bits`, `Decimal`). The two-limb fallback, the
  IPv6 address helpers over it, and decimal printing and parsing.
- **Concurrency** (`PinClose`, `DnsPool`, `DnsHistory`). Reader pins against close, and the
  DNS worker pool, as state machines over every interleaving of their atomic steps.
- **Range cursor** (`RangeTree`, `RangeCursor`). Iteration and seeking in the page tree, both
  directions.
- **Slotted pages** (`Slotted*`). Byte-level insert, replace, remove and repack in place.

Addresses are natural numbers up to a maximum `max` (or of `w` bits), so one proof serves IPv4 and
IPv6; the two engines' address counters, one wrapping and one saturating, are a parameter. A 64-bit
bitmap word is the set of its one bits. Where the code mutates state the model is a class or works
on an array; where it computes a value the model is a function.

Four properties do not hold of the code; each has its exact condition:

- The symmetric difference of two optimized sets is flagged optimized although its ranges may touch.
  `RangeAlgebra.DiffTouches` gives the input, `RangeAlgebra.DiffApart` the exact condition: no range
  of one set ends right before a range of the other starts.
- Parsing a 128-bit decimal count is meant to reject overflow by noticing that the value shrank.
  `Decimal.OverflowAccepted` gives a 39-digit text that overflows and is accepted.
  `Decimal.OverflowRejectedExactly`: a text that overflows is rejected exactly when some digit makes
  the number read so far smaller modulo 2^128.
- The prefix reduction is meant to go on while a merge of two prefixes is acceptable. It looks only for
  merges that add less than ten times the acceptable total, and that product wraps.
  `CidrReduce.WrappedThreshold` gives an input on which it stops too early. `CidrReduce.Prefixes.Reduce`:
  at the end no merge fits exactly when no merge of the reduction without a threshold reaches the
  wrapped product; `CidrReduce.Unwrapped`: that is so whenever the product does not wrap.
- A flagged IPv6 set's count is one short for the whole address space, and only there
  (`IpSetRuns.FlagMeans`).

## Model

| member | source | states |
|---|---|---|
| `BitmapLayout.RequiredLevel` | v4/go/internal/bitmap/bitmap_page.go:334-348 | the least tree level whose coverage reaches the limit |
| `BitmapLayout.CoverageIs` | v4/go/internal/bitmap/bitmap_page.go:324-330 | 32000 bits under a leaf and 256 times as many per level, and the size of the identifier space |
| `BitmapLayout.SlotInterval` | v4/go/internal/bitmap/bitmap_page.go:324-330 | a page position stands for exactly one interval of identifiers, of its level's coverage |
| `BitmapLayout.ChildIndex` | v4/go/internal/bitmap/bitmap_page.go:357-363 | the index picked on the way down leads to the child whose interval holds the bit |
| `BitmapStore.ReplaceChildCount` | v4/go/internal/bitmap/bitmap_page.go:193-219 | the adjusted item count is again the number of nonzero children |
| `BitmapStore.SetWordCount` | v4/go/internal/bitmap/free.go:123-146 | the adjusted item count is again the number of nonzero words |
| `BitmapStore.Touch` | v4/go/internal/bitmap/used.go:97-122 | a page of this transaction is edited in place; any other is copied to a page number the store had in stock, left as it was, and retired |
| `BitmapStore.TouchChild` | v4/go/internal/bitmap/used.go:392-410 | after the relinking the tree is well formed, holds the same data, and only the child moved; committed pages and the retirement books are kept |
| `BitmapStore.Descend` | v4/go/internal/bitmap/free.go:428-462 | every page on the path to the bit becomes private, the tree's data is the same, and the walk stops at the leaf or at the first missing child |
| `BitmapStore.LocationUnique` | v4/go/internal/bitmap/used_search.go:15-127 | pages and root determine which page sits at which position, so the tree's meaning is well defined |
| `BitmapBits.BitLayout` | v4/go/internal/bitmap/bitmap_page.go:140-155 | where the bit of an identifier is: bit b % 64 of word b % 32000 / 64 of leaf b / 32000 |
| `BitmapBits.LinkLayout` | v4/go/internal/bitmap/bitmap_page.go:158-219 | which page is which child, level by level from the root, and that item counts are exact |
| `UsedSearch.SummaryLayout` | v4/go/internal/bitmap/used.go:139-150 | a summary bit is set exactly when an unused identifier of the namespace lies in the span of its child |
| `FreeBitmap.PresenceLayout` | v4/go/internal/bitmap/free.go:502-549 | a summary bit is set exactly when the child exists, which is exactly when a free page lies in its span |
| `BitmapBits.TrailingZeros` | v4/go/internal/bitmap/used.go:186-208 | the least one bit of a nonzero word |
| `BitmapBits.FirstSummary` | v4/go/internal/bitmap/bitmap_page.go:250-266 | the first advertised child from the start index on, or none |
| `BitmapBits.SnapshotTree` | v4/go/internal/bitmap/used.go:97-122 | after any edits the committed tree's pages are all still present and unchanged, and the retired pages are exactly those of them the edited tree dropped, each once |
| `BitmapBits.SnapshotDenotes` | v4/go/internal/bitmap/used.go:97-122 | the committed root still denotes the committed identifiers |
| `BitmapBits.NothingLost` | v4/go/internal/bitmap/used_shrink.go:56-99 | a draft leaks nothing: the pages it started with are unchanged, its others are those of its tree, and every other number the store managed can be handed out again, once |
| `UsedSearch.LowestLeaf` | v4/go/internal/bitmap/used.go:154-182 | the least unused bit of the leaf between the start and the limit, or none |
| `UsedSearch.PageHasCandidate` | v4/go/internal/bitmap/used.go:139-150 | answers whether an unused identifier below the limit lies in the page's interval |
| `UsedSearch.PageHoleMeaning` | v4/go/internal/bitmap/used.go:139-150 | what a page's own words or summary show equals what the set of used identifiers says about its interval |
| `UsedSearch.FindLowest` | v4/go/internal/bitmap/used_search.go:15-127 | following summaries down one path finds the lowest unused identifier of the whole namespace, or none exists |
| `UsedSearch.Contains` | v4/go/internal/bitmap/used_search.go:130-194 | true exactly for used identifiers |
| `UsedSearch.GreatestLeaf` | v4/go/internal/bitmap/used_search.go:405-423 | the greatest set bit of the leaf below the limit, or none |
| `UsedSearch.Greatest` | v4/go/internal/bitmap/used_search.go:332-401 | the greatest used identifier, or the namespace is empty |
| `UsedEdit.InitializeSummary` | v4/go/internal/bitmap/used_tree.go:244-252 | one summary bit per child, set exactly when the child's interval meets the namespace |
| `UsedEdit.IntersectsIsHole` | v4/go/internal/bitmap/used_tree.go:256-269 | for an interval holding no used identifier, the interval test says exactly whether an unused one lies in it |
| `UsedEdit.Propagate` | v4/go/internal/bitmap/used_tree.go:24-66 | a leaf edit whose summaries are wrong only on the path to it leaves all summaries exact |
| `UsedEdit.SetLeaf` | v4/go/internal/bitmap/used.go:442-483 | the tree denotes one more identifier, with exact summaries |
| `UsedEdit.NewUsedSubtree` | v4/go/internal/bitmap/used_tree.go:179-240 | a fresh chain of pages holding only the bit, with exact summaries; existing pages untouched |
| `UsedEdit.InsertMissing` | v4/go/internal/bitmap/used.go:412-440 | hanging the chain adds exactly the bit and restores all summaries |
| `UsedEdit.GrowUsedRoot` | v4/go/internal/bitmap/used_tree.go:127-174 | raising the root keeps the denoted identifiers and the summaries, for any number of levels |
| `UsedEdit.SetInner` | v4/go/internal/bitmap/used.go:251-294 | marking an identifier yields a bitmap for one more identifier, whether the tree was empty, too low, lacked the path or had the leaf |
| `UsedEdit.RemoveEmptyPath` | v4/go/internal/bitmap/used_tree.go:70-109 | an emptied child is unlinked page by page; denoted identifiers kept, summaries exact again, root 0 when nothing is left |
| `UsedEdit.ClearInLeaf` | v4/go/internal/bitmap/used.go:487-530 | clearing a bit of a leaf that keeps others removes that identifier only, summaries exact |
| `UsedEdit.ClearLastBit` | v4/go/internal/bitmap/used.go:487-530 | clearing the last bit of a leaf removes that identifier and the pages that served only it |
| `UsedEdit.ClearUsed` | v4/go/internal/bitmap/used.go:298-348 | reports whether the identifier was used; the tree then denotes the set without it |
| `UsedShrink.TrimRoot` | v4/go/internal/bitmap/used_shrink.go:56-99 | roots that only the lowered limit makes superfluous are dropped without losing an identifier, and their pages go back to the store |
| `UsedShrink.RefreshChild` | v4/go/internal/bitmap/used_shrink.go:123-179 | one child's summary is made exact for the lowered limit, descending only where the new limit cuts through |
| `UsedShrink.RefreshPage` | v4/go/internal/bitmap/used_shrink.go:103-121 | all summaries at and below the page are exact for the lowered limit |
| `UsedShrink.Shrink` | v4/go/internal/bitmap/used_shrink.go:21-52 | the limit becomes one above the greatest used identifier (or the first identifier), and the tree is a valid bitmap for it |
| `IdNamespace.Namespace.constructor` | v4/go/internal/bitmap/used.go:61-95 | a draft opened on a committed namespace denotes the committed identifiers and has retired nothing |
| `IdNamespace.Namespace.AllocateLowestID` | v4/go/internal/bitmap/used.go:61-95 | allocates the lowest unused identifier, extends the limit exactly when all below are used, and fails exactly when the count contradicts the tree or the identifier space is full, changing nothing |
| `IdNamespace.Namespace.Clear` | v4/go/internal/bitmap/used.go:298-348 | outside the namespace, used and unused are told apart exactly; the set loses that identifier |
| `IdNamespace.Namespace.ShrinkLimit` | v4/go/internal/bitmap/used_shrink.go:21-52 | same identifiers, least limit |
| `IdNamespace.Namespace.Apply` | v4/go/internal/bitmap/used.go:61-95 | one operation does to the set and the limit, and returns, what the plain allocator does; with a right live count allocation is never reported corrupt |
| `IdNamespace.Namespace.Run` | v4/go/internal/bitmap/used.go:61-95 | over every run of allocations, releases and shrinks the tree goes through the states of the plain set allocator, every operation has the one result that allocator gives, the committed tree still denotes its identifiers, and no page is leaked |
| `IdNamespace.SnapshotIntact` | v4/go/internal/bitmap/used.go:97-122 | snapshot isolation: committed pages unchanged, committed bitmap intact with exact summaries, retired pages exactly the dropped ones, no page number leaked |
| `FreeBitmap.NewSubtree` | v4/go/internal/bitmap/free.go:502-549 | a fresh chain marking only the bit, whose summaries advertise only the path |
| `FreeBitmap.GrowRoot` | v4/go/internal/bitmap/free.go:464-500 | raising the root keeps the free pages and the summaries |
| `FreeBitmap.InsertSubtree` | v4/go/internal/bitmap/free.go:62-74 | the tree denotes one more free page |
| `FreeBitmap.MarkLeaf` | v4/go/internal/bitmap/free.go:123-146 | tells an already free page from a new one; the set gains it |
| `FreeBitmap.AddFree` | v4/go/internal/bitmap/free.go:76-110 | from any root, including none and one too low, the tree denotes the set with the page added |
| `FreeBitmap.DescendLowest` | v4/go/internal/bitmap/free.go:192-238 | the first advertised child at each level leads to the leaf of the lowest free page; the path becomes private, its private pages and all pages off it stay where they were, its committed pages move to new ones, and the data is the same |
| `FreeBitmap.LowestSet` | v4/go/internal/bitmap/free.go:248-267 | the least set bit of a nonempty leaf |
| `FreeBitmap.TakeBit` | v4/go/internal/bitmap/free.go:292-319 | exactly that page leaves the set; emptied pages leave the tree and every position left keeps its page |
| `FreeBitmap.PruneEmptyPath` | v4/go/internal/bitmap/free.go:321-361 | pruning emptied pages keeps the denoted set and the page of every position left, and makes the root 0 when nothing is left |
| `FreeBitmap.FreePages.Meaning` | v4/go/internal/bitmap/free.go:35-60 | root 0 exactly for no free pages; committed tree intact; retired pages exactly the dropped ones; no page of the tree is empty; no page number leaked |
| `FreeBitmap.FreePages.SetFree` | v4/go/internal/bitmap/free.go:35-60 | out of range, root too high and already free each have their exact condition and leave the set; otherwise the set gains the page |
| `FreeBitmap.FreePages.TakeLowest` | v4/go/internal/bitmap/free.go:150-190 | takes the minimum free page; an empty set, a bad limit, a wrong root level and a protected minimum are refused, each exactly then, and leave the set. Protected means not below the limit, forbidden, or itself a page of the path to its own bit in the old tree once that path is private, which is the tree after a refusal; a page taken is off its own path in the tree left |
| `FreeBitmap.PathPages` | v4/go/internal/bitmap/free.go:269-287 | the pages compared with the selected number are exactly those holding the path to its bit |
| `FreeBitmap.GuardBefore` | v4/go/internal/bitmap/free.go:269-287 | told from the tree before a take: unless the store had the minimum in stock, it is on its own path exactly when it already was a private page of that path |
| `FreeBitmap.FreePages.Run` | v4/go/internal/bitmap/free.go:150-159 | over every run of frees and takes, through the real tree of every step, each edit has the one outcome its set and tree give and leaves the set the plain set operation gives; the committed tree still denotes its own set, and no page is leaked |
| `EventQueue.Events.Peek` | v4/go/internal/reader/algebra.go:714-806 | the event of lowest address, then lowest source, an end before a start |
| `EventQueue.Events.Push` | v4/go/internal/reader/algebra.go:714-806 | heap order kept, contents gain the event |
| `EventQueue.Events.Pop` | v4/go/internal/reader/algebra.go:714-806 | returns the event of lowest address, then lowest source, an end before a start; contents lose exactly it; heap order kept |
| `EventQueue.Events.SiftDown` | v4/go/internal/reader/algebra.go:714-806 | from order broken at one node to full heap order, same contents |
| `Presence.GlobalFeeds.Meaning` | v4/go/internal/reader/algebra.go:811-893 | the swap-removed list holds exactly the feeds with a positive count, each once |
| `Presence.GlobalFeeds.Add` | v4/go/internal/reader/algebra.go:811-893 | every feed's count rises by one exactly when a local feed maps to it |
| `Presence.GlobalFeeds.Remove` | v4/go/internal/reader/algebra.go:811-893 | undoes the addition of the same local feeds |
| `SweepModel.HoldsUntil` | v4/go/internal/reader/algebra.go:909-968 | up to the next event of a source its cursor state decides which feeds it has at an address |
| `SweepModel.TallyIsCount` | v4/go/internal/reader/algebra.go:909-968 | up to the next event the cursors' tally is the number of sources having the feed at the address |
| `SweepModel.CountSome` | v4/go/internal/reader/algebra.go:909-968 | a feed has a source at an address exactly when a run around it lists a local feed that maps to it |
| `SweepModel.CountMeans` | v4/go/internal/reader/algebra.go:909-968 | the count is the number of sources that have the feed there |
| `Sweep.Scanner.constructor` | v4/go/internal/reader/algebra.go:972-1010 | one start event per nonempty source is queued and nothing is present |
| `Sweep.Scanner.ApplyEvent` | v4/go/internal/reader/algebra.go:1113-1152 | exactly one cursor advances and its next event, if any, is queued |
| `Sweep.Scanner.ApplyBoundary` | v4/go/internal/reader/algebra.go:1083-1110 | all events of one address are applied before the sweep moves past it, and work remaining shrinks |
| `Sweep.Scanner.EmitBefore` | v4/go/internal/reader/algebra.go:1061-1078 | the segments are exact for all addresses before the boundary |
| `Sweep.Scanner.EmitTerminal` | v4/go/internal/reader/algebra.go:1156-1188 | the last segment reaches the last address when a run does |
| `Sweep.Scanner.Turn` | v4/go/internal/reader/algebra.go:909-968 | a turn of the loop leaves the segments exact up to its boundary and less work |
| `Sweep.Scanner.Scan` | v4/go/internal/reader/algebra.go:909-968 | the loop emits exact segments for the whole address space |
| `Sweep.Segments` | v4/go/internal/reader/algebra.go:909-968 | ascending disjoint nonempty segments, with exactly the sources' feeds and counts at every address, and nothing elsewhere |
| `Sweep.InsideMeaning` | v4/go/internal/reader/algebra.go:909-968 | an address lies in a segment exactly when some source has some feed there |
| `AddressCount.CutStretch` | v4/go/internal/reader/algebra.go:613-644 | adding an interval's length counts the set up to the interval's end |
| `SweepAnalysis.Any` | v4/go/internal/reader/algebra.go:451-475 | whichever of the two loops is shorter, true exactly when a selected feed is present |
| `SweepAnalysis.CoveredMeans` | v4/go/internal/reader/algebra.go:451-475 | a named selection covers an address exactly when one of its feeds does, all feeds when any does |
| `SweepAnalysis.Count` | v4/go/internal/reader/algebra.go:613-644 | the number of addresses covered by the selected feeds |
| `SweepAnalysis.Compare` | v4/go/internal/reader/algebra.go:647-687 | sizes of both sides, of their intersection, of both differences and of their union; equal exactly when the sides are the same set |
| `SetPlan.AnyOf` | v4/go/internal/reader/algebra_output.go:124-138 | some chosen feed is present |
| `SetPlan.AllPresent` | v4/go/internal/reader/algebra_output.go:205-221 | the choice is nonempty and every chosen feed is present |
| `SetPlan.Qualifies` | v4/go/internal/reader/algebra_output.go:124-138 | a union: some chosen feed is present; an intersection: feeds are chosen and all present; an exclusion: some included feed is present and no excluded one |
| `SetPlan.EachPosition` | v4/go/internal/reader/algebra_output.go:225-246 | visits the chosen feeds in ascending order, each once |
| `SetPlan.EachPresent` | v4/go/internal/reader/algebra_output.go:252-288 | visits the chosen feeds that are present, each once, by whichever list is shorter |
| `SetPlan.BuildCatalog` | v4/go/internal/reader/algebra_output.go:143-159 | the output catalog is the target selection in ascending order, with its inverse table |
| `SetPlan.FillOutput` | v4/go/internal/reader/algebra_output.go:166-193 | the ascending catalog positions of the feeds the operation keeps |
| `SweepOutput.PositionWords` | v4/go/internal/reader/algebra_output.go:649-665 | bit b of word w is set exactly when position 64 w + b is given; no trailing zero word |
| `SweepOutput.EncodedOnce` | v4/go/internal/reader/algebra_output.go:649-665 | one encoding per position list, so equal memberships give equal words |
| `SweepOutput.Intern` | v4/go/internal/reader/algebra_output.go:592-642 | known words keep their identifier, new ones get the next; no two identifiers share words |
| `SweepOutput.OutputSink.Flush` | v4/go/internal/reader/algebra_output.go:592-642 | the pending range is written once under the identifier of its positions, with or without a cache hit |
| `SweepOutput.OutputSink.Fold` | v4/go/internal/reader/algebra_output.go:526-576 | adjoining segments with equal positions become one range, others are flushed; exact up to the segment's end |
| `SweepOutput.Materialize` | v4/go/internal/reader/algebra_output.go:407-488 | the written ranges are ascending, as long as possible, cover exactly the result of the operation on address sets, and their number of addresses is returned; membership is right at every address |
| `SweepOutput.PushedMaterialized` | v4/go/internal/reader/algebra_output.go:407-488 | decoding every written range's identifier gives back the wanted positions at each of its addresses, and uncovered addresses want none |
| `SweepOutput.UnionMeans` | v4/go/internal/reader/algebra_output.go:124-138 | a union yields the addresses its selection covers |
| `SweepOutput.ExclusionMeans` | v4/go/internal/reader/algebra_output.go:124-138 | an exclusion yields what the included feeds cover less what the excluded ones cover |
| `SweepOutput.IntersectionMeans` | v4/go/internal/reader/algebra_output.go:124-138 | an intersection yields the addresses every chosen feed covers, none if no feed is chosen |
| `SweepOutput.DecodedMeans` | v4/go/internal/reader/algebra_output.go:649-665 | a bit of a written membership is set exactly when the catalog feed of that position covers the address |
| `SweepOutput.SharedIdentifier` | v4/go/internal/reader/algebra_output.go:592-642 | two written ranges share an identifier exactly when they carry the same feeds |
| `MembershipJoin.Join.constructor` | v4/go/internal/reader/join_membership.go:205-224 | all tables are exact for the empty prefix of the address space |
| `MembershipJoin.Join.Accumulate` | v4/go/internal/reader/join_membership.go:351-402 | all five totals and all three tables stay exact when the stretch up to its end is added |
| `MembershipJoin.Join.ConsumeLeft` | v4/go/internal/reader/join_membership.go:268-287 | a stretch only the left side covers is accounted for, the tables exact further on |
| `MembershipJoin.Join.ConsumeRight` | v4/go/internal/reader/join_membership.go:289-308 | a stretch only the right side covers is accounted for, the tables exact further on |
| `MembershipJoin.Join.ConsumeOverlap` | v4/go/internal/reader/join_membership.go:310-347 | a stretch both sides cover is accounted for, the tables exact further on |
| `MembershipJoin.Join.Step` | v4/go/internal/reader/join_membership.go:240-266 | progress over a stretch of constant membership, the tables exact |
| `MembershipJoin.AddCross` | v4/go/internal/reader/join_membership.go:404-425 | cell k gains the count exactly when left feed k / rightWidth and right feed k % rightWidth are present |
| `MembershipJoin.AddUncovered` | v4/go/internal/reader/join_membership.go:445-458 | exactly the present feeds are credited, each once |
| `MembershipJoin.Tabulate` | v4/go/internal/reader/join_membership.go:226-238 | cell k of the table is the number of addresses left feed k / rightWidth and right feed k % rightWidth share, a feed's uncovered total the size of its difference with the other side, and overlap plus uncovered is each side's total |
| `MembershipJoin.SideIsUnion` | v4/go/internal/reader/join_membership.go:226-238 | a side's address set is the union of its feeds' |
| `JoinOutput.EmitCross` | v4/go/internal/reader/join_membership.go:460-503 | the cells come out in table order, named by row and column, in full batches of 32 and a last shorter one |
| `JoinOutput.Report` | v4/go/internal/reader/join_membership.go:90-172 | from two streams to the report: every pair of feeds with the number of addresses they share, every feed with what the other side lacks, and the totals |
| `Ranges.TotalIsSize` | src/ipset_optimize.c:35-108 | summed range sizes count the addresses when ranges are sorted and disjoint |
| `Ranges.Canonical` | src/ipset_optimize.c:35-108 | two sorted lists of ranges that do not touch and denote the same addresses are the same list |
| `IpSets.SortOrders` | src/ipset_optimize.c:7-23 | sorting by the comparison leaves the ranges' starts ascending |
| `IpSets.MergedMeans` | src/ipset_optimize.c:64-99 | the merging pass keeps exactly the addresses of its input |
| `IpSets.MergedShape` | src/ipset_optimize.c:64-99 | the merging pass leaves ranges apart by at least one address |
| `IpSets.NormalMeans` | src/ipset_optimize.c:35-108 | optimizing any list of ranges keeps its addresses and leaves them sorted and apart |
| `IpSets.NormalIsCanonical` | src/ipset_optimize.c:35-108 | two lists optimize to the same list exactly when they denote the same addresses |
| `IpSets.IpSet.constructor` | src/ipset.c:12-49 | an empty set, flag off, with a counter that wraps beyond the address space or saturates at its last value |
| `IpSets.IpSet.AddRange` | src/ipset.h:86-142 | adds exactly the range's addresses; the optimized flag survives exactly when the range starts above the last one, and then order, disjointness and the count are right; otherwise the count is the counter's sum |
| `IpSets.PlusShown` | src/ipset6.h:74-83 | adding range sizes that fit in the address space, wrapping or saturating, shows their sum capped at the largest count |
| `IpSets.PlusIs` | src/ipset6.h:74-83 | a wrapping count is the sum modulo its modulus, a saturating one the sum capped at the largest count |
| `IpSets.IpSet.Optimize` | src/ipset_optimize.c:35-108 | same addresses, the canonical list, the count the number of addresses as the counter shows it; no change when flagged |
| `IpSets.IpSet.Merge` | src/ipset_merge.c:13-41 | the union of the addresses, flag off, the count left as it was |
| `IpSetOps.Combine` | src/ipset_combine.c:11-42 | a new set denoting the union, both inputs unchanged |
| `IpSetOps.Prepare` | src/ipset_common.c:12-24 | unoptimized inputs are optimized, keeping their addresses |
| `IpSetOps.CommonLoop` | src/ipset_common.c:42-84 | the two-cursor loop appends exactly the specified intersection |
| `IpSetOps.Common` | src/ipset_common.c:12-90 | the intersection list, flagged, with the right count |
| `IpSetOps.ExcludeLoop` | src/ipset_exclude.c:53-115 | the two-cursor loop appends exactly the specified difference |
| `IpSetOps.Exclude` | src/ipset_exclude.c:12-125 | the difference list, flagged, with the right count |
| `IpSetOps.DiffLoop` | src/ipset_diff.c:64-144 | the two-cursor loop appends exactly the specified symmetric difference |
| `IpSetOps.Diff` | src/ipset_diff.c:12-150 | the symmetric difference list, flagged, with the right count |
| `RangeAlgebra.CommonMeans` | src/ipset_common.c:42-84 | an address is in the result exactly when it is in both |
| `RangeAlgebra.CommonShape` | src/ipset_common.c:42-84 | sorted and disjoint; apart when both inputs are |
| `RangeAlgebra.ExcludeMeans` | src/ipset_exclude.c:53-115 | an address is in the result exactly when it is in the first set only |
| `RangeAlgebra.ExcludeShape` | src/ipset_exclude.c:53-115 | sorted and disjoint; apart when the first input is |
| `RangeAlgebra.DiffMeans` | src/ipset_diff.c:64-144 | an address is in the result exactly when it is in one of the two sets |
| `RangeAlgebra.DiffShape` | src/ipset_diff.c:64-144 | sorted and disjoint |
| `RangeAlgebra.DiffTouches` | src/ipset_diff.c:64-144 | two optimized inputs whose symmetric difference is not optimized, though flagged |
| `RangeAlgebra.DiffApart` | src/ipset_diff.c:64-144 | the symmetric difference is optimized exactly when no range of one set ends right before one of the other starts |
| `IpSetCounts.IsOptimized` | src/ipset_binary.c:65-75 | true exactly when every range starts more than one above the end of the one before |
| `IpSetCounts.MergeCount` | src/ipset_binary.c:86-129 | sorting and merging on the fly counts the addresses of any list of ranges |
| `IpSetCounts.ValidatePayload` | src/ipset_binary.c:41-142 | a payload is accepted exactly when its ranges are forward, its claimed count is the number of addresses, and a claimed optimized flag is true |
| `IpSetCounts.CompareVariants` | src/iprange.c:1053-1073 | both ways of computing the common count, by inclusion and exclusion or by intersecting, agree |
| `IpSetRuns.FlagMeans` | src/ipset.h:86-142 | a flagged set is sorted and its count is the number of its addresses, except that a saturating count is one short for the whole address space, and only there |
| `IpSetRuns.Algebra` | src/ipset_common.c:12-90 | the three list operations are intersection, difference and symmetric difference of address sets |
| `IpSetRuns.Apply` | src/ipset_common.c:12-90 | each call changes the pool of sets exactly as the same operation on plain address sets |
| `IpSetRuns.Run` | src/ipset.h:86-142 | over every run of calls on any number of sets each set denotes its plain address set, and every flagged count is exact except for a saturating count of the whole space |
| `Cidr.SplitTiles` | src/ipset_print.c:73-129 | the blocks tile the range from its first to its last address, aligned and of enabled prefixes only |
| `Cidr.TilesMeaning` | src/ipset_print.c:73-129 | tiling means ascending disjoint blocks covering exactly the range |
| `Cidr.CoversMeans` | src/iprange.h:142-158 | a block of prefix p holds the 2^(w-p) addresses from its own on |
| `Cidr.LastEnabled` | src/ipset_print.c:73-129 | with the full-length prefix enabled no part of a range is dropped |
| `Cidr.BlockBound` | src/ipset_print.c:73-129 | with all prefixes enabled at most 2w-2 blocks (at least 1) for a w-bit range |
| `Cidr.WorstCase` | src/ipset_print.c:73-129 | the bound is reached: all but the first and the last address take exactly 2w-2 blocks |
| `Cidr.DepthBound` | src/ipset_print.c:73-129 | recursion at most one level per prefix bit |
| `Cidr.CallBound` | src/ipset_print.c:73-129 | at most 4w-3 calls in all |
| `CidrMinimal.AcrossTheMiddle` | src/ipset_print.c:73-129 | an aligned block that crosses a prefix's middle contains the whole prefix |
| `CidrMinimal.SplitIsLeast` | src/ipset_print.c:73-129 | no cover of a range by aligned blocks inside it has fewer blocks |
| `CidrMinimal.Shortest` | src/ipset_print.c:139-226 | for any set of ranges, optimizing and splitting gives the fewest aligned blocks denoting it |
| `CidrPrint.PrintedExactly` | src/ipset_print.c:139-226 | the printed blocks ascend and cover exactly the set's addresses, whatever prefixes are enabled |
| `CidrPrint.Print` | src/ipset_print.c:139-226 | the loop prints every entry's blocks in order and counts them |
| `CidrReduce.DisableOne` | src/ipset_reduce.c:79-98 | disabling a prefix turns each of its blocks into the predicted number of blocks of the next enabled prefix and changes no other count |
| `CidrReduce.DisableAll` | src/ipset_reduce.c:79-98 | the same over all entries of the set |
| `CidrReduce.DropAll` | src/ipset_reduce.c:26-46 | disabling a prefix nothing uses changes no output |
| `CidrReduce.NextUsed` | src/ipset_reduce.c:60-77 | the next used prefix, and 2 to the distance as multiplier |
| `CidrReduce.FindLeast` | src/ipset_reduce.c:60-77 | the merge of least increase among all candidates, the coarsest among equals, or none below the threshold |
| `CidrReduce.Prefixes.CountAll` | src/ipset_reduce.c:26-46 | each counter is the number of blocks the output has of that prefix |
| `CidrReduce.Prefixes.DropUnused` | src/ipset_reduce.c:26-46 | exactly the used prefixes stay enabled, output unchanged |
| `CidrReduce.Prefixes.Eliminate` | src/ipset_reduce.c:79-98 | after the arithmetic on counters they are again the counts of what would be printed |
| `CidrReduce.Prefixes.Round` | src/ipset_reduce.c:54-104 | one prefix fewer within the allowance by a least merge; or a stop with nothing changed, where every merge reaches the threshold or exceeds the allowance |
| `CidrReduce.Prefixes.Reduce` | src/ipset_reduce.c:18-111 | the reduced output denotes the same addresses, its predicted size is its real size, it stays within the acceptable size; what is left is what merging least first, the coarsest among equals, leaves, and exactly the prefixes in use stay enabled; at the end no merge fits exactly when no merge of the unlimited reduction reaches the threshold |
| `CidrReduce.Prefixes.ReduceSet` | src/ipset_reduce.c:18-24 | any set is optimized first, keeping its addresses, and then reduced |
| `CidrReduce.StopExact` | src/ipset_reduce.c:54-104 | where the code may stop, no merge fits exactly when the unlimited reduction has no merge that reaches the threshold |
| `CidrReduce.Unwrapped` | src/ipset_reduce.c:54-56 | a threshold that does not wrap holds no merge back |
| `CidrReduce.WrappedThreshold` | src/ipset_reduce.c:54-77 | an optimized set and a requested size for which the wrapped threshold holds an acceptable merge back |
| `CidrReduce.SumIsLength` | src/ipset_reduce.c:26-46 | the counters sum to the number of printed blocks |
| `CidrReduce.PrintedSpan` | src/ipset_print.c:153-162 | the printed blocks' sizes sum to the set's address count |
| `CidrReduce.ProductsFit` | src/ipset_reduce.c:60-98 | the counter products never exceed 2^w, so the machine multiplication does not wrap |
| `Bits.OrDisjoint` | src/iprange.h:130-158 | bitwise or of numbers without common bits is their sum |
| `Bits.OrBits` | src/iprange.h:130-158 | a bit of the result is set exactly when it is set in either number |
| `Bits.BroadcastIsOr` | src/iprange.h:154-158 | the arithmetic last address of a block is the bitwise one |
| `Bits.SetBitIsOr` | src/iprange.h:130-137 | the arithmetic bit setting is the bitwise one |
| `Uint128.OneForm` | src/uint128.h:94-96 | two-limb numbers of equal value are equal, so comparing limbs compares values |
| `Uint128.LtIs` | src/uint128.h:94-96 | comparison of limbs is comparison of values |
| `Uint128.AddIs` | src/uint128.h:105-110 | addition modulo 2^128 |
| `Uint128.SubIs` | src/uint128.h:112-117 | subtraction modulo 2^128 |
| `Uint128.ShlIs` | src/uint128.h:148-161 | multiplication by a power of two modulo 2^128, every shift count |
| `Uint128.ShrIs` | src/uint128.h:163-176 | division by a power of two, every shift count |
| `Uint128.MulIs` | src/uint128.h:179-196 | multiplication by a 64-bit number modulo 2^128, from four half products |
| `Uint128.HalfProduct` | src/uint128.h:179-196 | no half product overflows 64 bits |
| `Uint128.Div10Is` | src/uint128.h:199-226 | quotient and remainder by ten, from four long-division digits |
| `Ipv6Bits.HostPart` | src/iprange6.h:50-56 | a netmask's complement is the mask of the host bits, for every prefix |
| `Ipv6Bits.Broadcast6Is` | src/iprange6.h:61-63 | two-limb last address of a block is the one of the splitting proof |
| `Ipv6Bits.SetBit6Is` | src/iprange6.h:75-80 | two-limb bit setting is the one of the splitting proof |
| `Decimal.ToDec` | src/iprange6.h:175-191 | the digits written at the buffer's end denote the value, without leading zeros, ended by a zero byte, within 39 characters |
| `Decimal.MeaningIs` | src/iprange6.h:175-191 | positional notation: a digit is worth its distance from 0 and those before it ten times as much |
| `Decimal.ParseField` | src/ipset6_binary.c:94-121 | a field is refused without digits or with other text after them, else it is the accumulated value |
| `Decimal.AccumulatedIs` | src/ipset6_binary.c:94-121 | an accepted value is the text's value modulo 2^128; a text that fits is accepted |
| `Decimal.AcceptedExactly` | src/ipset6_binary.c:94-121 | a text is accepted exactly when no digit makes the number read so far smaller modulo 2^128 |
| `Decimal.OverflowRejectedExactly` | src/ipset6_binary.c:94-121 | rejected, accepted with the right value and accepted with a wrong one, each exactly when: overflow that falls, no overflow, overflow that never falls |
| `Decimal.OverflowAccepted` | src/ipset6_binary.c:94-121 | an overflowing text that is accepted with a wrong value |
| `Decimal.RoundTrip` | src/iprange6.h:175-191 | parsing what was printed gives the value back, for all 128-bit values |
| `PinClose.NextKeeps` | v4/go/reader_public.go:239-276 | every atomic step of any goroutine keeps the invariant tying the pin counter, the closed flag and the goroutines' positions |
| `PinClose.RunKeeps` | v4/go/reader_public.go:239-307 | the invariant holds after every interleaving |
| `PinClose.NoReleaseUnderPin` | v4/go/reader_public.go:239-276 | in no interleaving is the file released while someone holds a pin |
| `PinClose.OneRelease` | v4/go/reader_public.go:239-250 | in no interleaving do two callers release |
| `PinClose.QuietCount` | v4/go/reader_public.go:263-307 | with no call in progress the counter is the number of pins held |
| `PinClose.PinAlone` | v4/go/reader_public.go:263-276 | after any history a Pin nobody races gets its pin exactly when the reader is open, raising the count by one, and else changes nothing |
| `PinClose.CloseAlone` | v4/go/reader_public.go:239-250 | after any history a Close nobody races releases an open reader without pins, and else leaves everything as it was |
| `PinClose.ClosePinAlone` | v4/go/reader_public.go:297-307 | closing a pin lowers the count by one |
| `PinClose.Reasons` | v4/go/reader_public.go:239-276 | in every interleaving a Pin was refused only having seen the reader closed and granted only having seen it open at the second look; a Close was refused only having found it closed or seen pins, and released only having seen none |
| `DnsPool.NextKeeps` | src/ipset_dns.c:75-283 | every step of the main thread and of any worker keeps the pool's invariant |
| `DnsPool.NextPlaces` | src/ipset_dns.c:75-283 | every step keeps every request in its one place |
| `DnsPool.RunKeeps` | src/ipset_dns.c:75-363 | the invariant holds after every interleaving |
| `DnsPool.Accounts` | src/ipset_dns.c:75-152 | requests made equal pending plus finished, and pending equals queued plus in work |
| `DnsPool.EveryRequestOnce` | src/ipset_dns.c:75-363 | in every interleaving over any number of batches each request is queued, in work or done, in one place, once, with its own host |
| `DnsPool.AttemptsBounded` | src/ipset_dns.c:132-177 | no request is asked more than 21 times, and one given up for temporary failures was asked exactly 21 times |
| `DnsPool.AllEnded` | src/ipset_dns.c:320-363 | when the main thread is done nothing is queued, in work or waiting, and every request of the batch ended, once |
| `DnsPool.NeverStuck` | src/ipset_dns.c:75-116 | while the main thread waits for pending requests some worker has a step to make |
| `DnsHistory.Conserved` | src/ipset_dns.c:199-283 | in every interleaving each address of each answer is passed over, in a worker's hand, among the replies or in the set, with multiplicity |
| `DnsHistory.NothingLost` | src/ipset_dns.c:320-363 | when the main thread is done the set has gained every address of every answer of the batch, except those passed over as unusable |
| `DnsHistory.RequestsEnded` | src/ipset_dns.c:285-363 | the requests that ended are the caller's requests of the batch, each once and with its own host |
| `DnsHistory.RetriedExactly` | src/ipset_dns.c:118-177 | the resolver has spoken on every request with at most 20 temporary failures and then an answer or a permanent failure, or with exactly 21 temporary failures |
| `DnsHistory.WaitingIsTemporary` | src/ipset_dns.c:132-148 | a queued request has only failed temporarily, at most 20 times |
| `RangeTree.SubtreeAt` | v4/go/internal/reader/cursor.go:68-124 | a page's records stand as one block in the tree's records, at the base computed from the path |
| `RangeTree.KeyIs` | v4/go/internal/reader/direct_cursor.go:64-101 | a branch key is the first address of the record at its child's base |
| `RangeTree.KeysRise` | v4/go/internal/reader/direct_cursor.go:64-101 | keys of a branch ascend, so binary search applies |
| `RangeCursor.LowerBound` | v4/go/internal/reader/direct_cursor.go:265-287 | the first position whose key is not below the target, and whether it equals it |
| `RangeCursor.LeafSeek` | v4/go/internal/reader/direct_cursor.go:148-190 | the leaf position where records from the target on start (or end, backwards) |
| `RangeCursor.Cursor.constructor` | v4/go/internal/reader/cursor.go:68-85 | a new cursor has the whole tree ahead, in order or reversed |
| `RangeCursor.Cursor.DescendEdge` | v4/go/internal/reader/cursor.go:90-124 | reaches the first (last) record under the page |
| `RangeCursor.Cursor.Advance` | v4/go/internal/reader/cursor.go:286-343 | moves by exactly one record across leaves and levels; finished exactly at the end |
| `RangeCursor.Cursor.OpenLeaf` | v4/go/internal/reader/cursor.go:350-365 | gives the leaf the cursor stands on and leaves the cursor as it was |
| `RangeCursor.Cursor.Next` | v4/go/internal/reader/direct_cursor.go:323-340 | yields the head of what is ahead and leaves the rest; no record exactly when nothing is ahead |
| `RangeCursor.Cursor.Drain` | v4/go/internal/reader/direct_cursor.go:323-340 | repeated Next yields all that is ahead, in order |
| `RangeCursor.Cursor.BranchSeek` | v4/go/internal/reader/direct_cursor.go:64-101 | picks the child in which the answer lies or right after which it starts |
| `RangeCursor.Cursor.SeekLeaf` | v4/go/internal/reader/cursor.go:132-180 | ends at the leaf near the target, or reports that nothing lies before it |
| `RangeCursor.Cursor.Seek` | v4/go/internal/reader/direct_cursor.go:297-319 | from any state, what is ahead becomes, in order, exactly the records not ending before the target (backwards: not starting after it, reversed) |
| `SlottedBytes.CopyWithin` | v4/go/internal/format/put.go:122-159 | every byte of the target area is the old byte of the source area, overlapping or not, every other byte its own |
| `SlottedPage.Insert` | v4/go/internal/format/put.go:94-117 | the page holds the records with the cell at its index; refused exactly for a bad index, an empty cell or lack of room, page unchanged |
| `SlottedPage.InsertRepr` | v4/go/internal/format/put.go:94-117 | the written bytes represent the longer record list: slots, payload without gap or overlap, zero gap, header |
| `SlottedPage.HoldsIs` | v4/go/internal/format/put.go:16-34 | a page holds records exactly when its bytes are laid out as published: count at byte 16, lower at 20, upper at 22, two-byte slots from 32, low byte first, zero gap, records packed against byte 4096 |
| `SlottedEdit.AdjustSlotsBefore` | v4/go/internal/format/put.go:446-467 | exactly the slots of records below the edited one move, by the given amount |
| `SlottedEdit.Replace` | v4/go/internal/format/put.go:122-159 | the page holds the records with one replaced, for growing, shrinking and equal sizes; refused exactly when invalid or too big |
| `SlottedEdit.Remove` | v4/go/internal/format/put.go:163-184 | the page holds the records without that one; refused exactly for a bad index or the only record |
| `SlottedSort.SortPhysical` | v4/go/internal/format/put.go:403-413 | in place by start offset, a permutation |
| `SlottedRepack.PlaceOne` | v4/go/internal/format/put.go:225-272 | moving a kept record up to its place destroys no record that is still to be moved |
| `SlottedRepack.RepackRepr` | v4/go/internal/format/put.go:225-272 | after all moves the page represents the kept records |
| `SlottedTrim.SortedChain` | v4/go/internal/format/put.go:225-272 | in start order the records of a page abut up to the page's end |
| `SlottedTrim.Pack` | v4/go/internal/format/put.go:225-272 | the descending loop places every kept record |
| `SlottedTrim.Truncate` | v4/go/internal/format/put.go:225-272 | the page holds the first records; refused exactly for zero or too many |
| `SlottedFixed.UniformPayload` | v4/go/internal/format/put.go:473-511 | records of one size fill the payload exactly |
| `SlottedFixed.FixedPositions` | v4/go/internal/format/put.go:473-511 | accepted exactly when all records have the cell size; the table gives the record in each cell |
| `SlottedFixed.PackCells` | v4/go/internal/format/put.go:189-220 | the descending loop over cells places every kept record |
| `SlottedFixed.RemoveFixedRange` | v4/go/internal/format/put.go:189-220 | the page holds the records without the range; refused exactly for an empty, outside or total range or other sizes |
| `SlottedFixed.TruncateFixed` | v4/go/internal/format/put.go:276-304 | the page holds the first records; keeping all needs no equal sizes; refused exactly otherwise |

## Left out

- Byte layout of bitmap pages (magic, checksum, dirty tags): pages are datatypes of words, children, summary and count.
- Corruption checks that a well-formed tree, page or event stream never triggers; the corrupt-count outcome of allocation is modelled.
- Page allocation from the free bitmap and reserve, and write budgets: the store hands out any unused page number.
- UsedShrink.RefreshChild: relinks a touched child at once and not after its refresh; the final pages are the same.
- UsedEdit.RemoveEmptyPath: an emptied page is discarded without first writing its zero count.
- Feed identifiers starting at 0 and ReadWords: identifiers start at 1 as for memberships and structures.
- Sweep sources are lists of selected runs; decoding, catalogs, name lookup, cancellation, heap charges and the check of announced range counts are left out.
- Segments handed to a sink callback are collected in a list.
- Overflow refusals of 32-bit counts and of the 129-bit address count: counts are unbounded.
- SweepOutput.OutputSink.Flush: the sequence cache is a map of bounded size and the intern bridge a table of words, not their storage.
- Array growth, line counts and file names of range sets.
- IpSets.IpSet.Optimize: sorting is modelled by its result, a stable insertion sort, not by the C library's algorithm.
- Parsing and printing of text files, and reading and writing of binary files apart from payload validation and decimal fields.
- Cidr.SplitTiles: a range reaching a disabled full-length prefix shifts out of range in the code; the model prints nothing there and the theorem excludes it.
- CidrReduce.Prefixes.Reduce: works on sorted entries, `ReduceSet` on any set; `acceptable * 10` and `total * acceptable_increase` wrap as size_t, the counter products are shown not to.
- IpSetCounts.ValidatePayload: models the IPv4 loader; the IPv6 loader, which takes the count of an unoptimized payload on trust, is left out.
- Prefix counters printed at the end of CIDR output.
- Limit on tree depth, page validation and the IPv6 twin of the cursor; branch keys are exactly the first keys of their children.
- Found, failed and retry statistics and progress display of the DNS pool.
- JoinOutput.Report: feeds are named by their place in the scope, and the segment count of the report is left out.
- Resolver calls: their answers are inputs of a step.
- The mirrored closed state for other readers; Pin.Close tests and sets its flag in one step.
- Slotted page builder, appender and record reading.
- Increment and decrement of 128-bit numbers, and the network address helper.
- Histogram, copy, load from DNS names, command line parsing: they would only add easy members.
