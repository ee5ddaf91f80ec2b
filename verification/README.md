# Verified model of samkhya's bounds, histograms, sidecars and statistics

A Dafny 4.11 model of the parts of samkhya that make provable promises, with the proofs.

* **The join ceiling** (`samkhya-core/src/degree.rs`, `lpbound.rs`). A join graph carries row
  counts and per-attribute degree bounds. The ceiling multiplies, over the connected components
  found by an in-place union-find, the best of the row product and the greedy spanning-tree
  bounds grown from every root, in saturating machine arithmetic. A database instance is a
  sequence of relations, each a sequence of rows; a row maps attributes to values, and an
  attribute it does not define is NULL and matches nothing. The join is the set of index tuples
  that satisfy every edge, so duplicates count. The main theorem: for every non-empty graph and
  every instance its statistics describe, `min(|join|, u64::MAX) <= ceiling`. Around it: the join
  is what nested loops emit; it is the product of its components' joins; the union-find's classes
  are the path-connected components; growth visits exactly the component and saturates only where
  it returns; the ceiling of two relations is a closed formula of their statistics; it is exact on
  trees of key joins; with row counts alone no lower ceiling is sound; and the legacy interface
  inherits all of this.
* **Histograms** (`samkhya-core/examples/histogram_baselines.rs`). The V-Optimal dynamic program
  is optimal over all ways of cutting its equi-depth anchors; MaxDiff cuts at the largest gaps;
  both conserve counts; range estimates grow with the range.
* **Puffin sidecars** (`samkhya-core/src/puffin.rs`). What the writer writes the reader reads
  back, exactly when the reader's limits allow it; on arbitrary bytes the reader stays in bounds.
* **Statistics scripts** (`bench-results/scripts/`). The two loops of Benjamini-Hochberg agree,
  and its adjusted values have a rank-free description; the exact Wilcoxon p-value is a proper,
  symmetric tail probability, twice one tail capped at 1, over tie-averaged ranks that always add up.
* **Plan rewriting** (`samkhya-datafusion/src/pre_join.rs`). For every plan and every corrector it is
  stated what the corrector is asked, which inputs are overridden and with which row count, and
  every counter is the number of decisions of its kind that the pass made, whether it succeeds or
  fails.
* **Sketches** (`samkhya-core/src/sketches/cms.rs`, `hll.rs`, `samkhya-core/src/portable.rs`). For
  every hash function Count-Min never undercounts unless it says so and the non-zero HyperLogLog
  registers never overcount; validating a snapshot makes decoding independent of blob order.

Values and builders of the source are datatypes with functions; loops, in-place arrays and
objects with state are methods and classes, each proved against a specification function or
predicate about which the theorems are then proved. Floating point is modelled over the reals.

## Layout

| file | contents |
|---|---|
| `machine.dfy`, `saturation.dfy`, `counting.dfy`, `sorting.dfy` | machine integers, saturating products, counting finite sets through fibres, stable sorting |
| `degree.dfy`, `instances.dfy`, `nested_loops.dfy` | join graphs, database instances and their joins |
| `sketches.dfy`, `statistics.dfy` | Count-Min and HyperLogLog sketches, where degree bounds come from |
| `join_counting.dfy`, `union_find.dfy`, `spanning_tree.dfy`, `ceiling.dfy` | the ceiling, from one attachment to the whole theorem |
| `product_comparison.dfy`, `tightness.dfy`, `lpbound.dfy` | the ceiling against the Cartesian product, exact cases, the legacy interface |
| `histogram.dfy`, `voptimal.dfy`, `maxdiff.dfy` | histograms |
| `puffin.dfy`, `portable.dfy`, `pre_join.dfy` | sidecar files, portable sketches, plan rewriting |
| `benjamini_hochberg.dfy`, `wilcoxon.dfy` | the statistics scripts |

## Where code and documentation differ

* `samkhya-core/src/degree.rs:434-435` calls the ceiling the minimum of the Cartesian product and
  the tree bounds. Across components it can exceed the product: the loop returns `u64::MAX` as
  soon as the running product fills a u64, before a later empty relation would bring it to zero.
  `ProductComparison.EarlyExitOvershoots` gives a graph, `ProductComparison.WithinProductIff` the
  exact condition on the graph; `ProductComparison.EdgeDirectionDecides` shows that exchanging the
  two ends of an edge can decide it. The ceiling stays sound.
* The Puffin layout at `samkhya-core/src/puffin.rs:5-19` has a head magic before the footer. The
  reader also accepts a file whose head magic is the footer's own
  (`Puffin.CoincidingMagicsAccepted`); such a file has no room for blobs, and every blob read on it
  fails.

## Model

| member | source | states |
|---|---|---|
| `Degree.Build` | samkhya-core/src/degree.rs:382-416 | Whatever edges are asked for, a built graph keeps its relations; each request between two different existing relations stands, in order and as often as asked for, after those kept before it; the rest are dropped |
| `Instances.ChoicesMembers` | samkhya-core/src/degree.rs:46-47 | The enumerated tuples over a scope are exactly the maps choosing one row of each relation in it |
| `Instances.PartialJoinMembers` | samkhya-core/src/degree.rs:27-47 | A partial join is exactly the choices that satisfy every edge inside its scope |
| `Instances.DegreeBoundsRows` | samkhya-core/src/degree.rs:353-358 | Attached or defaulted, the degree of a described relation bounds how many of its rows share any value |
| `NestedLoops.JoinIsNestedLoops` | samkhya-core/src/degree.rs:46-47 | The join's cardinality is the number of rows nested-loop evaluation of the query emits |
| `DegreeStatistics.Pigeonhole` | samkhya-core/src/degree.rs:56-60 | Every value other than the given one takes a row of its own |
| `DegreeStatistics.FromDistinctSound` | samkhya-core/src/degree.rs:143-187 | From a row-count ceiling and a distinct-count floor, including the zero and inconsistent fallbacks, no value occurs more often than the derived degree |
| `DegreeStatistics.FromDistinctTight` | samkhya-core/src/degree.rs:143-187 | Some relation with exactly that many rows and distinct values attains the derived degree |
| `DegreeStatistics.FromUpperBoundSound` | samkhya-core/src/degree.rs:189-220 | A frequency ceiling capped at the row count still bounds every value's frequency |
| `DegreeStatistics.FromUpperBoundTight` | samkhya-core/src/degree.rs:189-220 | Some relation within that row count and frequency ceiling attains the capped ceiling |
| `Sketches.ColumnIsRemainder` | samkhya-core/src/sketches/cms.rs:130-130 | The column is the hash less a multiple of the width |
| `Sketches.PositionInRow` | samkhya-core/src/sketches/cms.rs:129-132 | An item's position in a row is inside the table and belongs to that row and no other |
| `Sketches.RowStartIsProduct` | samkhya-core/src/sketches/cms.rs:131-131 | Adding up the widths of the rows before it gives the row-major start of a row |
| `Sketches.FrequencyWithinLoad` | samkhya-core/src/sketches/cms.rs:121-135 | In every row, what is counted at an item's position includes all its own additions, for every hash function |
| `Sketches.CountMinSketch.TryNew` | samkhya-core/src/sketches/cms.rs:62-77 | Refuses exactly a shape without rows or columns; otherwise a new empty sketch |
| `Sketches.CountMinSketch.Add` | samkhya-core/src/sketches/cms.rs:128-135 | In each row exactly the item's counter grows, saturating, so every counter stays the clamped sum of what was counted there |
| `Sketches.LeastCounterIsLeast` | samkhya-core/src/sketches/cms.rs:137-143 | The least clamped load over the rows is never below the item's frequency unless that does not fit a counter |
| `Sketches.CountMinSketch.Estimate` | samkhya-core/src/sketches/cms.rs:158-167 | The loop returns that least load, which is at least the item's frequency while no counter is full |
| `Sketches.CountMinSketch.IsSaturated` | samkhya-core/src/sketches/cms.rs:187-189 | True exactly when some counter is full |
| `Sketches.CountMinSketch.MaxFrequencyBound` | samkhya-core/src/sketches/cms.rs:214-219 | None exactly when a counter is full; otherwise the largest load of any position, which no item's frequency exceeds |
| `Sketches.CountMinSketch.Merge` | samkhya-core/src/sketches/cms.rs:221-232 | The sketch of both histories; other shapes are refused without change |
| `Sketches.HllSketch.TryNew` | samkhya-core/src/sketches/hll.rs:55-66 | Refuses exactly precisions outside 4 to 18; otherwise a new empty sketch |
| `Sketches.RegisterTakesTop` | samkhya-core/src/sketches/hll.rs:119-121 | The register is the number in the hash's top bits; what is left fits the bits below them |
| `Sketches.RankIsFirstOne` | samkhya-core/src/sketches/hll.rs:122-131 | The rank is the place, from the top, of the first one among the bits below the register's, and one more than their number if there is none; the cap at 255 never applies |
| `Sketches.HllSketch.Add` | samkhya-core/src/sketches/hll.rs:118-136 | Every register stays the largest rank of the items hashed to it |
| `Sketches.MaxRankOfSet` | samkhya-core/src/sketches/hll.rs:118-136 | A register depends on the set of items only, not on order or repetition |
| `Sketches.HllSketch.Merge` | samkhya-core/src/sketches/hll.rs:191-203 | The sketch of both inputs; another precision is refused without change |
| `Sketches.OccupiedWithinDistinct` | samkhya-core/src/sketches/hll.rs:205-229 | For every hash function the non-zero registers number at most the distinct items |
| `Sketches.HllSketch.NonzeroRegisters` | samkhya-core/src/sketches/hll.rs:230-232 | The number of occupied registers, at most the distinct items added |
| `DegreeStatistics.DegreeFromHllFloor` | samkhya-core/src/degree.rs:222-251 | The degree from an HLL sketch of a column is the rows less its occupied registers plus one, or the rows where there is none or too many; for every hash and encoding it bounds how often each value of the column occurs |
| `DegreeStatistics.DegreeFromCountMin` | samkhya-core/src/degree.rs:253-288 | The degree from a Count-Min sketch of a column is the smaller of the rows and the largest load, and the rows once a counter is full; it bounds every value's frequency too |
| `JoinCounting.ExtensionCount` | samkhya-core/src/degree.rs:39-44 | A partial tuple extends in exactly as many ways as the new relation has matching rows |
| `JoinCounting.AttachBounds` | samkhya-core/src/degree.rs:39-44 | If every partial tuple has between lo and hi matches, joining the relation in multiplies the count by between lo and hi |
| `JoinCounting.LinkedMatches` | samkhya-core/src/degree.rs:41-43 | The parent's row fixes the value the child must carry, so matches number at most the child's degree |
| `JoinCounting.AttachLinked` | samkhya-core/src/degree.rs:41-44 | Joining a relation over an edge multiplies the count by at most its degree on that attribute; all other edges only filter |
| `JoinCounting.AttachFree` | samkhya-core/src/degree.rs:54-55 | Joining a relation without an edge multiplies the count by at most its row count |
| `JoinCounting.UnlinkedProduct` | samkhya-core/src/degree.rs:458-466 | Two scopes with no edge between them join to exactly the product of their joins |
| `UnionFind.RootIsWhereParentsLead` | samkhya-core/src/degree.rs:476-482 | A forest's root map is determined by its parents: it is the one fixed point that climbing reaches |
| `UnionFind.HalvePath` | samkhya-core/src/degree.rs:478-479 | Pointing a node at its grandparent keeps the forest and every root |
| `UnionFind.Find` | samkhya-core/src/degree.rs:476-482 | Terminates on every forest, returns the node's root, and changes no node's root |
| `UnionFind.LinkRoots` | samkhya-core/src/degree.rs:487-489 | Hanging one root under another keeps a forest, with exactly the first tree's nodes re-rooted |
| `UnionFind.MergeEdge` | samkhya-core/src/degree.rs:484-490 | After merging an edge its ends and those of all earlier edges share roots, and nodes stay connected to their roots by paths |
| `UnionFind.SameRootIffConnected` | samkhya-core/src/degree.rs:469-498 | Once all edges are merged, two relations share a root if and only if an edge path joins them |
| `UnionFind.MergeAll` | samkhya-core/src/degree.rs:473-490 | The union loop leaves a forest whose roots are those of merging the edges in order, each left end's root under the right end's |
| `UnionFind.ListedOnce` | samkhya-core/src/degree.rs:492-497 | In the listing, a class's place and its root determine each other |
| `UnionFind.ComponentsArePartition` | samkhya-core/src/degree.rs:469-498 | Merging the edges in order and listing the classes puts every relation in exactly one component, and two in the same one exactly when a path joins them |
| `UnionFind.GroupByRoot` | samkhya-core/src/degree.rs:492-496 | The groups hold, for each root, exactly the relations below it, in ascending order |
| `UnionFind.ListGroups` | samkhya-core/src/degree.rs:497-497 | The loop lists the non-empty classes by ascending root |
| `UnionFind.Components` | samkhya-core/src/degree.rs:469-498 | The in-place union-find returns exactly the components of that specification, in its order |
| `SpanningTree.CheapestIsFirst` | samkhya-core/src/degree.rs:528-545 | Of all orientations crossing the frontier, edge by edge and left to right first, the scan picks the first of the cheapest, where an orientation costs the degree attached to the relation reached or, if none is, its row count |
| `SpanningTree.CheapestIsMinimal` | samkhya-core/src/degree.rs:528-547 | The scan finds a relation across the frontier exactly when there is one, and no orientation crossing it has a smaller factor |
| `SpanningTree.CheapestEdge` | samkhya-core/src/degree.rs:528-545 | The scan loop returns the earliest cheapest choice over both orientations of every edge |
| `SpanningTree.AttachSound` | samkhya-core/src/degree.rs:559-560 | For any root and any greedy choice, the widened bound covers all partial tuples over the visited relations with every edge among them applied |
| `SpanningTree.FillInSound` | samkhya-core/src/degree.rs:547-557 | The disconnected fallback, with its saturating products, stays sound |
| `SpanningTree.GrowSound` | samkhya-core/src/degree.rs:523-572 | From every root and sound intermediate state the returned value covers the join over the component, up to u64 saturation |
| `SpanningTree.ComponentIsGrowable` | samkhya-core/src/degree.rs:527-557 | On a connected component some edge crosses the frontier until every relation is visited |
| `SpanningTree.GrowIsTreeProduct` | samkhya-core/src/degree.rs:527-571 | On a component the fallback is never taken, no 128-bit product saturates, exactly the component is visited, and the result is the early-exit product of one factor per attachment |
| `SpanningTree.TreeProductExact` | samkhya-core/src/degree.rs:559-571 | The result is the exact tree product, clamped to u64, if and only if no zero factor follows a prefix that fills a u64; so always when no factor is zero |
| `SpanningTree.SpanningTreeCeiling` | samkhya-core/src/degree.rs:523-572 | The growth loop computes the function the theorems are about, on any scope, connected or not |
| `Saturation.EarlyExitExact` | samkhya-core/src/degree.rs:458-466 | Returning at the first product that fills a u64 differs from the clamped product exactly when a later factor is zero |
| `Saturation.EarlyExitCovers` | samkhya-core/src/degree.rs:458-466 | If each factor covers its component's size up to saturation, the early-exit product covers the product of sizes up to saturation |
| `Saturation.ProductBoundCeiling` | samkhya-core/src/lpbound.rs:88-92 | The saturating fold is the exact product clamped to u64, zero rows included |
| `Ceiling.ComponentSound` | samkhya-core/src/degree.rs:500-517 | The bound of a single component covers the join over it |
| `Ceiling.BestOverIsLeast` | samkhya-core/src/degree.rs:502-516 | The component bound is at most the row product and every root's tree bound, and is one of them |
| `Ceiling.ComponentWithinProduct` | samkhya-core/src/degree.rs:502-516 | Within one component the bound never exceeds the clamped row product, even with zero rows |
| `Ceiling.JoinFactors` | samkhya-core/src/degree.rs:458-466 | The join's cardinality is the product of the joins over the components |
| `Ceiling.CeilingSound` | samkhya-core/src/degree.rs:27-47 | min of the join size and u64::MAX is at most the ceiling, for every consistent instance |
| `Ceiling.ComponentCeiling` | samkhya-core/src/degree.rs:500-517 | The loop over roots computes the component bound |
| `Ceiling.JoinCeiling` | samkhya-core/src/degree.rs:428-467 | The value is fixed by the graph: 0 for the empty graph, otherwise the early-exit product of the components' bounds in their order; never below the true cardinality of any instance the statistics describe |
| `ProductComparison.ProductByComponents` | samkhya-core/src/degree.rs:458-466 | Grouping row counts by component does not change their product |
| `ProductComparison.WithinProductIff` | samkhya-core/src/degree.rs:434-435 | The ceiling is at most the Cartesian product unless a relation is empty and the bounds of components listed earlier already fill a u64, and only then is it above |
| `ProductComparison.EarlyExitOvershoots` | samkhya-core/src/degree.rs:462-464 | A two-relation graph whose ceiling is u64::MAX although its product is 0 |
| `ProductComparison.EdgeDirectionDecides` | samkhya-core/src/degree.rs:484-490 | Exchanging the ends of the only edge of a three-relation graph turns its ceiling from u64::MAX into 0, the product |
| `Tightness.TwoRelationCeiling` | samkhya-core/src/degree.rs:500-572 | For two joined relations the ceiling is exactly the least of their product and of either row count times the least degree the other has on a joined attribute, clamped |
| `Tightness.OrdersAndItems` | samkhya-core/src/degree.rs:78-96 | The documented foreign-key join of 10 and 100 rows has ceiling 100 |
| `Tightness.KeyTreeCeiling` | samkhya-core/src/degree.rs:56-60 | When every relation is reached from a root over edges on which it has degree at most 1, the ceiling is at most the root's row count, whatever other edges there are |
| `Tightness.KeyedCeiling` | samkhya-core/src/degree.rs:523-572 | If the graph is connected and every relation but the root has degree at most 1 on each of its edges, cycles included, the ceiling is at most the root's rows |
| `Tightness.KeyTreeJoin` | samkhya-core/src/degree.rs:619-630 | On such a tree, if each row finds exactly one partner, every prefix of the tree joins to as many tuples as the root has rows |
| `Tightness.KeyTreeExact` | samkhya-core/src/degree.rs:78-96 | Then the ceiling equals the true cardinality and the root's row count |
| `Tightness.RowCountsAloneGiveTheProduct` | samkhya-core/src/degree.rs:15-19 | Without informative degrees some consistent instance joins to the full product, and with no empty relation the ceiling is exactly that product |
| `LegacyBounds.AttachDegrees` | samkhya-core/src/lpbound.rs:179-199 | Each relation ends up with one degree per usable predicate touching it, derived from its own distinct count or unknown |
| `LegacyBounds.DegreeGraph` | samkhya-core/src/lpbound.rs:164-206 | The built graph is the one the row counts and usable pairs stand for; out-of-range and self pairs leave no trace, attribute numbers wrap at 32 bits |
| `LegacyBounds.LegacyJoinIsJoin` | samkhya-core/src/lpbound.rs:164-206 | The join described by the predicate pairs is the join of the built graph |
| `LegacyBounds.CountsAreConsistent` | samkhya-core/src/lpbound.rs:102-108 | If each supplied count is a floor for every join column of its relation, the derived statistics describe the database |
| `LegacyBounds.TwoRelations` | samkhya-core/src/lpbound.rs:132-149 | Two relations compared at least once come to exactly min(r0 r1, r0 (r1 - d1 + 1), r1 (r0 - d0 + 1)), clamped, a count outside 1..rows standing for the row count |
| `LegacyBounds.KeyedRelations` | samkhya-core/src/lpbound.rs:179-199 | If usable pairs lead from a root to every relation and every other relation has as many distinct values as rows, the ceiling is at most the root's rows |
| `LegacyBounds.LegacyCeiling` | samkhya-core/src/lpbound.rs:152-162 | Never below the true join size under that obligation; at most the clamped product when no relation is empty; exactly the product without counts or without predicates; with counts as in the two rows above; 0 for no relations |
| `Histogram.EstimateRange` | samkhya-core/examples/histogram_baselines.rs:108-131 | The loop adds up each bucket's share of the range; the estimate is the sum rounded down, within u64 |
| `Histogram.ShareIsProportional` | samkhya-core/examples/histogram_baselines.rs:119-128 | A bucket is shared out in proportion to the part of it in the range; a point bucket in the range counts in full |
| `Histogram.EpsilonIsSpacing` | samkhya-core/examples/histogram_baselines.rs:124-124 | The least width a bucket is divided by is 2^-52 |
| `Histogram.ShareBounds` | samkhya-core/examples/histogram_baselines.rs:119-128 | A bucket contributes between nothing and all of its count |
| `Histogram.EstimateMonotone` | samkhya-core/examples/histogram_baselines.rs:108-131 | A wider range never gets a smaller estimate |
| `Histogram.EstimateOfCover` | samkhya-core/examples/histogram_baselines.rs:108-131 | A range covering all boundaries is estimated at exactly the total count, clamped to u64 |
| `Sorting.OrderIsStable` | samkhya-core/examples/histogram_baselines.rs:208-209 | Sorting by key lists every position once, ascending, equal keys in input order |
| `Sorting.SortedValuesAscend` | samkhya-core/examples/histogram_baselines.rs:208-209 | The sorted values ascend and are a permutation of the input |
| `VOptimal.PrefixSSEIsSSE` | samkhya-core/examples/histogram_baselines.rs:221-232 | The prefix-sum formula is the sum of squared deviations from the bucket's mean, so clamping it at zero changes nothing |
| `VOptimal.PrefixSums` | samkhya-core/examples/histogram_baselines.rs:221-227 | The loop fills both arrays with the prefix sums of frequencies and of their squares |
| `VOptimal.BestLastCut` | samkhya-core/examples/histogram_baselines.rs:240-250 | The inner loop finds the first cheapest last cut and its cost |
| `VOptimal.FillRow` | samkhya-core/examples/histogram_baselines.rs:239-252 | One pass fills one row of both tables and leaves every other row alone |
| `VOptimal.FillTable` | samkhya-core/examples/histogram_baselines.rs:233-253 | Afterwards every row of both tables is the dynamic program's, with infinity where no split exists |
| `VOptimal.NoSplitIsCheaper` | samkhya-core/examples/histogram_baselines.rs:238-253 | No strictly increasing split of the first j items into nb buckets has a total squared error below the table entry |
| `VOptimal.BacktrackAttains` | samkhya-core/examples/histogram_baselines.rs:254-262 | The backtracked cuts run strictly increasing from 0 to j and cost exactly the table entry |
| `VOptimal.ReadCuts` | samkhya-core/examples/histogram_baselines.rs:254-262 | The backward loop and the reversal read those cuts from the table |
| `VOptimal.BacktrackIsEarliest` | samkhya-core/examples/histogram_baselines.rs:240-262 | Of the splits with the least error the one read back cuts earliest, compared from the last cut |
| `VOptimal.AnchorsTile` | samkhya-core/examples/histogram_baselines.rs:213-220 | Anchor counts are positive steps that add up to the input length |
| `VOptimal.AnchorsAreEquiDepth` | samkhya-core/examples/histogram_baselines.rs:213-220 | The first i of k anchors over n values hold the largest m with m k <= i n, and each holds n/k values or one more |
| `VOptimal.AnchorsStartRuns` | samkhya-core/examples/histogram_baselines.rs:216-219 | Each anchor's value is the first sorted value that no earlier anchor holds |
| `VOptimal.BucketsAreValid` | samkhya-core/examples/histogram_baselines.rs:263-273 | Counts add up to the input length; boundaries ascend from the least to the greatest value |
| `VOptimal.BuildVOptimal` | samkhya-core/examples/histogram_baselines.rs:201-274 | The histogram realises, over at most 500 equi-depth anchors, the earliest split of least total squared error among all splits into the same number of buckets, and conserves counts |
| `MaxDiff.MergesWithin` | samkhya-core/examples/histogram_baselines.rs:150-150 | A value not below the last merges with it exactly when it is nearer than the spacing of doubles, times the last value's size if that is above 1 |
| `MaxDiff.Reduce` | samkhya-core/examples/histogram_baselines.rs:146-157 | Sorted values become strictly rising representatives, each with the length of its run of values within the merge tolerance; the lengths add up to the input |
| `MaxDiff.ScoreIsArea` | samkhya-core/examples/histogram_baselines.rs:170-176 | A gap is scored by the rise or fall in frequency across it times its width |
| `MaxDiff.BestCuts` | samkhya-core/examples/histogram_baselines.rs:170-179 | The requested number of gaps, ascending, each of larger area than every gap left out, or of the same and before it |
| `MaxDiff.CutBuckets` | samkhya-core/examples/histogram_baselines.rs:180-192 | Each bucket runs from the value after one cut to the next cut's value |
| `MaxDiff.CutsAreValid` | samkhya-core/examples/histogram_baselines.rs:180-192 | Cutting neither loses nor repeats a count, and boundaries ascend |
| `MaxDiff.BuildMaxDiff` | samkhya-core/examples/histogram_baselines.rs:137-193 | For every input the histogram is valid, conserves counts, and cuts at best gaps unless there are no more values than buckets |
| `BenjaminiHochberg.InflatedIffThreshold` | bench-results/scripts/benjamini_hochberg.py:53-68 | m p / k is at most alpha exactly when p is at most k / m alpha |
| `BenjaminiHochberg.RunningIffPasses` | bench-results/scripts/benjamini_hochberg.py:53-71 | The right-to-left minimum at a rank is at most alpha exactly when some rank from there on passes its step-up threshold, for every alpha |
| `BenjaminiHochberg.QuotientWrittenOut` | bench-results/scripts/benjamini_hochberg.py:67-67 | What an adjusted value is the least of: m times a p-value over the number of p-values at most it |
| `BenjaminiHochberg.RunningIsAdjusted` | bench-results/scripts/benjamini_hochberg.py:63-71 | That minimum is the least of 1 and m q / #{p-values at most q} over the p-values q at least as large: ranks and tie order play no part |
| `BenjaminiHochberg.AdjustedMonotone` | bench-results/scripts/benjamini_hochberg.py:16-18 | Adjusted values grow with the p-value, and equal p-values have equal ones |
| `BenjaminiHochberg.LargestPassing` | bench-results/scripts/benjamini_hochberg.py:53-57 | The loop finds the largest passing rank, or -1 if none passes |
| `BenjaminiHochberg.RejectUpTo` | bench-results/scripts/benjamini_hochberg.py:58-61 | Exactly the hypotheses up to that rank are rejected, at their input positions |
| `BenjaminiHochberg.RunningMinima` | bench-results/scripts/benjamini_hochberg.py:63-71 | The backward loop stores the running minimum of every rank |
| `BenjaminiHochberg.Adjust` | bench-results/scripts/benjamini_hochberg.py:40-76 | An error, naming the first one, exactly when a p-value is outside the unit interval; otherwise each hypothesis gets its adjusted p-value and is rejected exactly when that is at most alpha; rejections are closed under smaller and equal p-values |
| `Wilcoxon.TieGroupRank` | bench-results/scripts/wilcoxon_paired.py:81-89 | A tie group's mid-rank is the number of smaller values plus the mean position among the equal ones |
| `Wilcoxon.RankAverage` | bench-results/scripts/wilcoxon_paired.py:76-90 | The loops give every value that order-free mid-rank, so equal values get equal ranks |
| `Wilcoxon.RanksFollowOrder` | bench-results/scripts/wilcoxon_paired.py:76-90 | One value is smaller than another exactly when its rank is |
| `Wilcoxon.RanksTotal` | bench-results/scripts/wilcoxon_paired.py:76-90 | Ranks add up to n(n+1)/2 whatever the ties |
| `Wilcoxon.RankSumsTotal` | bench-results/scripts/wilcoxon_paired.py:106-108 | W+ and W- add up to n(n+1)/2 |
| `Wilcoxon.AllBitsComplete` | bench-results/scripts/wilcoxon_paired.py:120-120 | The enumeration contains every sign vector |
| `Wilcoxon.AllHitsMirror` | bench-results/scripts/wilcoxon_paired.py:111-124 | Flipping all signs pairs the assignments that pass a test with those that pass its mirror image |
| `Wilcoxon.TailsAreEqual` | bench-results/scripts/wilcoxon_paired.py:111-124 | As many assignments have W+ at most w as have W+ at least total - w |
| `Wilcoxon.TwoTailedIsMinimum` | bench-results/scripts/wilcoxon_paired.py:111-114 | The two-sided condition is min(W+, W-) at most the observed w |
| `Wilcoxon.PValueDoublesTail` | bench-results/scripts/wilcoxon_paired.py:111-126 | The two-sided p-value is the smaller of 1 and twice the share of assignments with W+ at most w |
| `Wilcoxon.PValueInUnit` | bench-results/scripts/wilcoxon_paired.py:115-126 | The exact p-value lies in (0, 1], so clamping it changes nothing |
| `Wilcoxon.SwapChangesNothing` | bench-results/scripts/wilcoxon_paired.py:97-126 | Exchanging treatment and baseline changes neither the statistic, nor p, nor the number of pairs |
| `Wilcoxon.CountExtreme` | bench-results/scripts/wilcoxon_paired.py:118-124 | The loop counts the extreme assignments out of all 2^n |
| `Wilcoxon.NonZeroKeeps` | bench-results/scripts/wilcoxon_paired.py:99-99 | The differences tested are the non-zero ones, all of them and in order |
| `Wilcoxon.RanksAreBySize` | bench-results/scripts/wilcoxon_paired.py:103-104 | A difference's rank is the number of smaller squares plus half of one more than the number of equal ones |
| `Wilcoxon.AllHitsAreExtreme` | bench-results/scripts/wilcoxon_paired.py:111-124 | The count is the number of sign vectors of which one of the two rank sums is at most w |
| `Wilcoxon.SignedRank` | bench-results/scripts/wilcoxon_paired.py:97-126 | w is the smaller of the rank sums of the positive and the negative differences under those ranks; up to 25 pairs p is the fraction of all sign vectors that are extreme |
| `Puffin.Le32RoundTrip` | samkhya-core/src/puffin.rs:385-386 | A 32-bit value survives its little-endian encoding |
| `Puffin.TilesAreDisjoint` | samkhya-core/src/puffin.rs:289-303 | Recorded blob ranges start after the head magic, are pairwise disjoint, leave no gap and end where the footer begins |
| `Puffin.PuffinWriter.constructor` | samkhya-core/src/puffin.rs:230-247 | A new writer is empty and carries the two standard properties |
| `Puffin.TwoProperties` | samkhya-core/src/puffin.rs:230-247 | The standard properties are the creator with its version and the schema version 1, and no others |
| `Puffin.PuffinWriter.SetFileProperty` | samkhya-core/src/puffin.rs:249-253 | Sets one file property and nothing else |
| `Puffin.PuffinWriter.EnsureHead` | samkhya-core/src/puffin.rs:255-262 | The head magic is written once, lazily |
| `Puffin.PuffinWriter.AddBlobForSnapshot` | samkhya-core/src/puffin.rs:283-305 | The payload is appended and recorded with its offset, length and snapshot; the recorded ranges keep tiling the file |
| `Puffin.PuffinWriter.AddBlob` | samkhya-core/src/puffin.rs:276-280 | The same with -1 for unknown snapshot and sequence number |
| `Puffin.PuffinWriter.Finish` | samkhya-core/src/puffin.rs:372-390 | The result is head magic, payloads and footer; it fails exactly when the footer's length exceeds 32 bits |
| `Puffin.NoDefectIsFooter` | samkhya-core/src/puffin.rs:417-502 | Accepted bytes begin with the magic and end with magic, payload, its length in 32 bits, zero flags and magic |
| `Puffin.Open` | samkhya-core/src/puffin.rs:417-502 | On arbitrary bytes no subtraction underflows; the first defect in reading order is reported, and without one the footer and the end of the payload region are returned, where such a footer begins |
| `Puffin.ReadBlob` | samkhya-core/src/puffin.rs:513-541 | Whatever the footer claims, the result is the matching error or exactly the recorded range inside the payload region |
| `Puffin.FindBlob` | samkhya-core/src/puffin.rs:579-585 | The first blob of the kind, or none if there is none |
| `Puffin.FinishedFileOpens` | samkhya-core/src/puffin.rs:372-502 | A finished file opens, with its own footer, exactly when the footer is within the reader's length and count limits |
| `Puffin.TiledRangeHoldsPayload` | samkhya-core/src/puffin.rs:513-541 | Each recorded range of the file holds its payload, readable exactly when not longer than the reader's limit |
| `Puffin.WriteFile` | samkhya-core/src/puffin.rs:230-390 | Adding any sequence of blobs and finishing gives the file with those payloads and a footer with the two standard properties and, for each blob, its own metadata, -1 for snapshot and sequence number, and no codec |
| `Puffin.WriteThenRead` | samkhya-core/src/puffin.rs:201-220 | Write, open, read: every blob comes back byte for byte exactly when the reader's limits allow |
| `Puffin.MagicsCoincideOrAreApart` | samkhya-core/src/puffin.rs:471-485 | In an accepted file the two magics either coincide or do not overlap |
| `Puffin.CoincidingMagicsAccepted` | samkhya-core/src/puffin.rs:420-485 | Any decodable footer of at least four bytes is by itself an accepted file |
| `PreJoin.DerivedCeilingIsProduct` | samkhya-datafusion/src/pre_join.rs:408-429 | The derived ceiling is the exact product of the children's rows, for joins and one-input filters; there is none if a child's rows are unknown or the product does not fit below u64::MAX |
| `PreJoin.RowsAreReported` | samkhya-datafusion/src/pre_join.rs:439-444 | A plan's rows are known exactly as an override carries them or else as the engine reports them |
| `PreJoin.MaxDistinctIsGreatest` | samkhya-datafusion/src/pre_join.rs:446-453 | The greatest known distinct count: attained, an upper bound, and none exactly when none is known |
| `PreJoin.FiltersAreCounted` | samkhya-datafusion/src/pre_join.rs:455-460 | The number of Filter nodes of a plan, clamped to 32 bits |
| `PreJoin.DepthIsDepth` | samkhya-datafusion/src/pre_join.rs:462-474 | What the recursion computes, before clamping, is the most joins on any way down the plan |
| `PreJoin.AsksOnlyFeatures` | samkhya-datafusion/src/pre_join.rs:251-259 | What the corrector is asked about an input is exactly its native estimate, the rows and greatest distinct counts of the left and of the right input, and the clamped filter count and join depth of the input |
| `PreJoin.RewriteIffPublished` | samkhya-datafusion/src/pre_join.rs:211-326 | For every plan and corrector the rewrite succeeds with q exactly when q is the plan in which each input of each two-child join, from the leaves up, is overridden with max(native, min(proposal, ceilings, 2^40)) where that differs from native (without the maximum if going below is allowed), and left alone otherwise, both inputs judged on their un-overridden statistics |
| `PreJoin.EveryJoinPublished` | samkhya-datafusion/src/pre_join.rs:211-326 | At every two-child join anywhere in the rewritten plan both inputs have been published against each other's un-overridden statistics |
| `PreJoin.RewriteRecovers` | samkhya-datafusion/src/pre_join.rs:318-326 | Taking the added overrides away gives back the plan with the overrides it had |
| `PreJoin.EraseNothing` | samkhya-datafusion/src/pre_join.rs:318-326 | So for a plan without overrides erasing all of them gives back the plan |
| `PreJoin.DefaultPublishesLarger` | samkhya-datafusion/src/pre_join.rs:138-148 | With default options both inputs of every two-child join of the rewritten plan are left with the larger of the native estimate and the proposal cut to the derived ceiling and 2^40 |
| `PreJoin.ScaledBytes` | samkhya-datafusion/src/pre_join.rs:476-497 | Scaled byte sizes are the exact ratio rounded up, unless clamped to the largest usize; without a size or with no native rows none is published |
| `PreJoin.OutcomesBalance` | samkhya-datafusion/src/pre_join.rs:246-309 | Over any decisions, attempts are those applied, abstained, failed and unchanged together; only proposals are clamped, and what is floored is never applied |
| `PreJoin.DecisionsAreOverrides` | samkhya-datafusion/src/pre_join.rs:211-326 | A successful pass makes two decisions for each two-child join of the plan, and the overrides it adds are those it applies |
| `PreJoin.SamkhyaPreJoinRule.CorrectInput` | samkhya-datafusion/src/pre_join.rs:240-315 | Output as decided; the six counters move exactly by that one decision |
| `PreJoin.SamkhyaPreJoinRule.CorrectInputs` | samkhya-datafusion/src/pre_join.rs:211-238 | A join's two inputs are decided against the same pair of statistics and both decisions counted; nothing is counted when a statistic fails |
| `PreJoin.SamkhyaPreJoinRule.Optimize` | samkhya-datafusion/src/pre_join.rs:318-326 | The bottom-up pass computes the rewrite; each counter grows by the number of decisions of its kind made before the pass ended or failed; attempts grow by applied, abstained, errors and the inputs decided unchanged; overrides added equal corrections applied |
| `PreJoin.InstallPreJoinCorrector` | samkhya-datafusion/src/pre_join.rs:345-366 | Fails exactly without a join-selection rule; otherwise the rule stands right before the first one and all other rules keep their order |
| `PreJoin.ReinstallReplaces` | samkhya-datafusion/src/pre_join.rs:340-344 | Installing a second time gives what installing only the second rule would have given |
| `Portable.Validate` | samkhya-core/src/portable.rs:104-136 | Accepts exactly when every supported blob has one non-negative field and a decodable payload and no two share field and kind; otherwise reports the first defect of the first defective blob in order |
| `Portable.ValidIffNoDefect` | samkhya-core/src/portable.rs:108-136 | Checking each blob against earlier ones only decides validity as a whole |
| `Portable.DecodeColumn` | samkhya-core/src/portable.rs:138-173 | A negative field is an error, then the first defect of the snapshot; otherwise the sketch of every blob for the field, which validation has made unique |
| `Portable.OrderIsIrrelevant` | samkhya-core/src/portable.rs:149-159 | Reordering the blobs does not change the decoded column |

## Left out

- Floating point: scores, p-values, ranks and squared errors are reals; rounding, NaN and infinities of the inputs are not modelled (the infinity in the V-Optimal table is).
- Sketches: the xxHash function is an arbitrary function; the HLL estimate (floating logarithms), the probability of a Count-Min overestimate, and the serialised form are not modelled.
- Optimality or monotonicity of the greedy spanning tree: the source claims neither.
- `ceiling_hypergraph` and the LP solve: foreign solver over floating logarithms and exponentials.
- `clamp_estimate`, `saturating_clamp`, `AgmBound`: one-line members.
- Puffin.Open: seek and read errors of the underlying file, Zstd payloads, the JSON text of the footer (any codec whose decoding undoes its encoding), and positions other than the start of the file.
- Puffin.PuffinWriter.AddBlobForSnapshot: files of 2^64 bytes or more are excluded by its precondition.
- Wilcoxon.SignedRank: beyond 25 pairs only the statistic is modelled; the normal approximation and the dispatch to scipy are not.
- PreJoin.SamkhyaPreJoinRule.Optimize: failures of `with_new_children`, wrap-around of the counters and 32-bit usize are not modelled; the corrector and the engine's statistics are arbitrary functions.
- That the derived input ceiling bounds a join's output: true of inner and cross joins only, and the source does not look at the join type.
- Portable: decoders and the HLL estimate are arbitrary functions.
- The feedback store, the command line, benchmark runners, Arrow ingestion and engine adapters: plumbing over libraries.
