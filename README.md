# clusterMaker numeric core, modelled in Dafny

This project models the three in-memory numeric classes of the clusterMaker
Cytoscape plugin and proves properties of the model:

- `DistanceMatrix` computes a weight for every edge of a network in three
  passes. Pass 1 extracts an attribute value, pass 2 runs an injected
  converter, and pass 3 patches converter collisions. From those weights it
  builds a sparse node × node matrix on demand, filtered by a cutoff and
  optionally mirrored, and caches it until the cutoff or direction mode
  changes. On that matrix it normalizes entries, adjusts the diagonal (loops)
  and labels connected components online with `FindComponents`.
- `BaseMatrix` is a dense table of optional reals with weights and labels. It
  covers the row-major data constructor with its dimension check, uniform
  weights, cell access, tie-corrected ranks of a row through a stable index
  sort, a symmetric distance table through an injected metric, and the
  in-place `setMissingToZero` and `adjustDiagonals`.
- `Matrix` is the Cytoscape subclass. It covers the copy constructor, the
  blank constructor, `sortNodeList`, and the gene-array constructor. That
  constructor collects each node's numeric conditions into a map and lays
  the kept nodes out as the rows of a table, or as its columns when
  transposed.

Layout:

| file | module | contents |
|---|---|---|
| common.dfy | Common | `Option` (Java's null), `Result` (exceptions), `Node`, the `Double.MIN_VALUE`/`MAX_VALUE` constants, Java's truncating division |
| sorting.dfy | Sorting | insertion sort by a total preorder (`Arrays.sort`), and `String.compareTo`'s order on the UTF-16 code units of strings |
| ranks.dfy | Ranks | `IndexComparator`, the stable `indexSort`, mid-ranks and the tie-correction loops of `getRank` |
| weights.dfy | EdgeWeights | the three weight passes as functions of the edge list, and their properties |
| sparse.dfy | Sparse | the sparse matrix as a map of non-zero cells; the build, normalization and loop adjustment as functions |
| components.dfy | Components | `FindComponents`: its transitions as functions, its invariant, the class that performs them in place |
| distance.dfy | Distance | class `DistanceMatrix` and the loops of its methods, each proved against the functions above |
| basematrix.dfy | Base | class `BaseMatrix` and its loops |
| cymatrix.dfy | CyMatrix | class `Matrix` (holding a `BaseMatrix` as `base`), `sortNodeList`, the condition maps and the table layout |

Java `double`s are `real`s, and Java `int`s are unbounded integers. The
Colt sparse matrix is a `map<(int, int), real>` of its non-zero cells.
`forEachNonZero` is a loop that picks any cell not yet visited, so every
property proved about it holds for every visiting order. `Matrix extends
BaseMatrix` becomes composition: a `Matrix` holds its `BaseMatrix` part in
the field `base`.

In these places the code does something its comments or a first reading would not suggest. The model follows the code:

- Under the "none" attribute name, an edge without the attribute gets 1.0 in pass 1 and is then converted like any other weight (`EdgeWeights.NoneAttributeConverted`). It is not exempt from the converter.
- Edges with a missing attribute under any other name, or with a non-numeric attribute, keep the `Double.MIN_VALUE` sentinel in the final weight array (`EdgeWeights.SentinelKept`). The comment at src/clusterMaker/algorithms/DistanceMatrix.java:109 speaks of fixing the edge cases, but pass 3 fixes only the converter's collision cases.
- `adjustLoops` takes each column's maximum over all its stored cells. This includes the old diagonal cell, and the maximum starts from 0. The diagonal becomes 1.0 when that maximum is 0 (`Sparse.LoopsAdjusted`).
- Raising the cutoff can add a stored cell. A later parallel edge of weight 0 clears a cell, and a cutoff that drops that edge keeps the cell (`Sparse.CutoffCanAddCell`). Removal holds only when no weight is 0 (`Sparse.CutoffShrinks`).
- Undirected mode makes the matrix symmetric (`Sparse.BuildSymmetric`). The converse does not hold: a directed build can be symmetric too, for instance when no edge passes the cutoff.
- The copy constructor copies column weights, labels and nodes only while it handles row 0. A duplicate with no rows therefore yields 0.0 weights and null labels and nodes for its columns. `maxAttribute` and `symmetrical` are not copied.
- In the gene-array constructor, a condition map can hold null for a numeric condition when missing values are not ignored. The table then shows that cell as missing.

## Model

| member | source | states |
|---|---|---|
| Common.JavaDiv | src/clusterMaker/algorithms/attributeClusterers/BaseMatrix.java:91 | Java's int division truncates toward zero: the magnitude is the Euclidean quotient of magnitudes, the sign follows the divisor, and it is exact iff the divisor divides the dividend |
| Sorting.InsertionSort | src/clusterMaker/algorithms/attributeClusterers/Matrix.java:371 | sorting by a total preorder leaves the array sorted and a permutation (same multiset) of its old contents |
| Sorting.InsertLast | src/clusterMaker/algorithms/attributeClusterers/Matrix.java:371 | one insertion step extends the sorted prefix by one element and keeps the multiset |
| Sorting.SiftLeft | src/clusterMaker/algorithms/attributeClusterers/Matrix.java:371 | the exchanges of an insertion step stop where the moved element is below everything after it and above the element before it, keeping the multiset |
| Sorting.InsertedSorted | src/clusterMaker/algorithms/attributeClusterers/Matrix.java:371 | where the inserted element stops, the whole prefix is sorted |
| Sorting.CodeUnits | src/clusterMaker/algorithms/attributeClusterers/Matrix.java:371 | a character is one code unit below U+10000, otherwise a high and a low surrogate that decode back to it |
| Sorting.Utf16Injective | src/clusterMaker/algorithms/attributeClusterers/Matrix.java:371 | two strings with the same UTF-16 code units are equal |
| Sorting.SurrogatesFirst | src/clusterMaker/algorithms/attributeClusterers/Matrix.java:371 | the order is by code unit: U+10000 sorts before U+E000 |
| Sorting.LexLeTotal | src/clusterMaker/algorithms/attributeClusterers/Matrix.java:371 | any two strings compare under `String.compareTo`'s order on UTF-16 code units |
| Sorting.LexLeTransitive | src/clusterMaker/algorithms/attributeClusterers/Matrix.java:371 | the string order is transitive |
| Sorting.LexLeAntisymmetric | src/clusterMaker/algorithms/attributeClusterers/Matrix.java:371 | two strings that each compare at most the other are equal |
| Sorting.LexLeIsTotalPreorder | src/clusterMaker/algorithms/attributeClusterers/Matrix.java:371 | the string order is a total preorder, so `Arrays.sort` of names is well defined |
| Ranks.Compare | src/clusterMaker/algorithms/attributeClusterers/BaseMatrix.java:340-344 | the comparator is negative, zero or positive exactly as the first value is below, equal to or above the second |
| Ranks.CompareConsistent | src/clusterMaker/algorithms/attributeClusterers/BaseMatrix.java:340-351 | the comparator is antisymmetric and transitive, as `Arrays.sort` demands of it |
| Ranks.IndexLeIsTotalPreorder | src/clusterMaker/algorithms/attributeClusterers/BaseMatrix.java:297-303 | the order a stable sort by value leaves the indices in (value, then index) is a total preorder |
| Ranks.MultisetPermutation | src/clusterMaker/algorithms/attributeClusterers/BaseMatrix.java:298-301 | a rearrangement of 0..k-1 lists each index exactly once |
| Ranks.IndexSort | src/clusterMaker/algorithms/attributeClusterers/BaseMatrix.java:297-303 | `indexSort` yields a permutation of 0..nVals-1 with the data non-decreasing along it and equal values in index order |
| Ranks.CountsOf | src/clusterMaker/algorithms/attributeClusterers/BaseMatrix.java:252-262 | a value is counted among its equals, and the values below and equal to it fit in the row |
| Ranks.MidRankBounds | src/clusterMaker/algorithms/attributeClusterers/BaseMatrix.java:252-262 | every tie-corrected rank lies in [0, k-1] |
| Ranks.MidRankTies | src/clusterMaker/algorithms/attributeClusterers/BaseMatrix.java:252-262 | equal values get equal ranks |
| Ranks.MidRankStrict | src/clusterMaker/algorithms/attributeClusterers/BaseMatrix.java:252-262 | a strictly smaller value gets a strictly smaller rank |
| Ranks.ImageCard | src/clusterMaker/algorithms/attributeClusterers/BaseMatrix.java:253-258 | sorted positions lo..hi-1 of a permutation hold hi-lo distinct indices |
| Ranks.RunCounts | src/clusterMaker/algorithms/attributeClusterers/BaseMatrix.java:253-258 | a maximal tied run at sorted positions i..j-1 starts after exactly the i smaller values and holds exactly the j-i equal ones |
| Ranks.RunMidRanks | src/clusterMaker/algorithms/attributeClusterers/BaseMatrix.java:259-260 | the run's value i + (m-1)/2 is the mid-rank of each of its members, counted independently of the sort |
| Ranks.TieCorrectedRanks | src/clusterMaker/algorithms/attributeClusterers/BaseMatrix.java:245-263 | the sort, the rank table and the tie loop give every one of the first nVals values its mid-rank |
| Ranks.CorrectTies | src/clusterMaker/algorithms/attributeClusterers/BaseMatrix.java:252-262 | from ranks equal to sorted positions, the run loop leaves every value's mid-rank |
| Ranks.RunEnd | src/clusterMaker/algorithms/attributeClusterers/BaseMatrix.java:256-257 | the scan stops at the end of the maximal run of values equal to the one at position i |
| Ranks.AssignRun | src/clusterMaker/algorithms/attributeClusterers/BaseMatrix.java:260 | the run's members get the value and every other rank is unchanged |
| Ranks.RankExample | src/clusterMaker/algorithms/attributeClusterers/BaseMatrix.java:232-264 | the values 5, 1, 1, 3 rank 3, 0.5, 0.5, 2 |
| EdgeWeights.Extracted | src/clusterMaker/algorithms/DistanceMatrix.java:62-88 | pass 1 stores the numeric attribute's value, 1.0 for a missing one under the "none" name, and the sentinel otherwise |
| EdgeWeights.EdgeCases | src/clusterMaker/algorithms/DistanceMatrix.java:92-100 | the collision list holds exactly the indices whose value the converter turned into the sentinel |
| EdgeWeights.SentinelKept | src/clusterMaker/algorithms/DistanceMatrix.java:66-95 | an edge with a missing (not "none") or non-numeric attribute keeps the sentinel after pass 2 and in the final array, whatever the converter |
| EdgeWeights.NoneAttributeConverted | src/clusterMaker/algorithms/DistanceMatrix.java:68-112 | a missing attribute under the "none" name starts at 1.0 and ends with the converter's output for 1.0, or the collision weight |
| EdgeWeights.AttributeRange | src/clusterMaker/algorithms/DistanceMatrix.java:85-87 | every numeric value lies in [minAttribute, maxAttribute], and each bound is attained or still at its initial value |
| EdgeWeights.WeightRange | src/clusterMaker/algorithms/DistanceMatrix.java:103-106 | every converted non-sentinel value lies in [minWeight, maxWeight], each bound is attained or initial, and maxWeight is positive |
| EdgeWeights.CollisionAboveAll | src/clusterMaker/algorithms/DistanceMatrix.java:109-112 | a collision edge ends at the final maxWeight plus a tenth, strictly above every other edge's final weight |
| EdgeWeights.FinalWeight | src/clusterMaker/algorithms/DistanceMatrix.java:62-112 | each final weight is the sentinel, the collision weight or the converted value, by the case pass 1 and the converter put it in |
| Sparse.Set | src/clusterMaker/algorithms/DistanceMatrix.java:200-202 | after `set`, the cell reads the new value, it is stored iff non-zero, and every other cell is unchanged |
| Sparse.IndexOf | src/clusterMaker/algorithms/DistanceMatrix.java:197-198 | `indexOf` gives the first position holding the node, or -1 iff it is absent |
| Sparse.Build | src/clusterMaker/algorithms/DistanceMatrix.java:183-203 | the built matrix is n × n and stores only non-zero cells |
| Sparse.BuildStep | src/clusterMaker/algorithms/DistanceMatrix.java:187-203 | the last edge decides every cell it writes and leaves every other cell as the earlier edges built it |
| Sparse.BuildCellUnwritten | src/clusterMaker/algorithms/DistanceMatrix.java:183-203 | a cell that no passing edge writes reads 0 |
| Sparse.BuildCellLastWriter | src/clusterMaker/algorithms/DistanceMatrix.java:187-203 | a cell holds the weight of the last passing edge that writes it (target, source, and source, target when undirected) |
| Sparse.BuildSymmetric | src/clusterMaker/algorithms/DistanceMatrix.java:200-202 | with undirected edges, get(i, j) == get(j, i) for all i, j |
| Sparse.BuildKeys | src/clusterMaker/algorithms/DistanceMatrix.java:187-203 | with non-zero weights, a cell is stored iff some edge of weight at least the cutoff writes it |
| Sparse.CutoffShrinks | src/clusterMaker/algorithms/DistanceMatrix.java:190-194 | with non-zero weights, raising the cutoff only removes stored cells |
| Sparse.CutoffCanAddCell | src/clusterMaker/algorithms/DistanceMatrix.java:190-202 | with a zero weight, a higher cutoff can store a cell a lower one does not |
| Sparse.Normalized | src/clusterMaker/algorithms/DistanceMatrix.java:159 | normalization never adds a stored cell |
| Sparse.NormalizedCells | src/clusterMaker/algorithms/DistanceMatrix.java:316-318 | minWeight maps to 0 and maxWeight to factor, unstored cells stay 0, each stored cell is normalized, and values in range land in [0, factor] |
| Sparse.ColumnMaxUnique | src/clusterMaker/algorithms/DistanceMatrix.java:293-297 | a column has one maximum in the sense `MatrixFindMax` computes |
| Sparse.AdjustedDiagonalDominates | src/clusterMaker/algorithms/DistanceMatrix.java:234-251 | after the adjustment every diagonal cell is positive and at least every cell of its column |
| Components.Added | src/clusterMaker/algorithms/DistanceMatrix.java:357-362 | adding a node keeps the set of cluster ids and the counter |
| Components.Created | src/clusterMaker/algorithms/DistanceMatrix.java:364-371 | creating a cluster adds the counter's id and increments the counter |
| Components.CreatedIs | src/clusterMaker/algorithms/DistanceMatrix.java:364-371 | the new cluster holds the two nodes, in order, and both map to it |
| Components.Relabelled | src/clusterMaker/algorithms/DistanceMatrix.java:380-382 | after relabelling, every node of the list maps to the new cluster and every other node keeps its cluster |
| Components.RelabelledStep | src/clusterMaker/algorithms/DistanceMatrix.java:380-382 | relabelling one more node of the list is one more `put` |
| Components.Combined | src/clusterMaker/algorithms/DistanceMatrix.java:373-384 | merging distinct clusters removes cluster2 and keeps cluster1 and the counter |
| Components.ConnectedUnion | src/clusterMaker/algorithms/DistanceMatrix.java:373-384 | two connected disjoint clusters joined by a pair form a connected cluster |
| Components.AddedConsistent | src/clusterMaker/algorithms/DistanceMatrix.java:357-362 | adding an unclustered node keeps the two maps in agreement |
| Components.AddedKeepsInv | src/clusterMaker/algorithms/DistanceMatrix.java:341-349 | adding an unclustered node to its partner's cluster keeps the invariant, with the pair now seen |
| Components.CreatedConsistent | src/clusterMaker/algorithms/DistanceMatrix.java:364-371 | creating a cluster of two unclustered distinct nodes keeps the maps in agreement and every cluster at two or more nodes |
| Components.CreatedKeepsInv | src/clusterMaker/algorithms/DistanceMatrix.java:350-351 | creating a cluster for two unclustered nodes keeps the invariant, with the pair now seen |
| Components.CombinedConsistent | src/clusterMaker/algorithms/DistanceMatrix.java:373-384 | a merge keeps the two maps in agreement |
| Components.CombinedShaped | src/clusterMaker/algorithms/DistanceMatrix.java:373-384 | a merge keeps ids below the counter and lists distinct with two or more nodes |
| Components.CombinedKeys | src/clusterMaker/algorithms/DistanceMatrix.java:373-384 | a merge changes no node's clustered status |
| Components.CombinedKeepsInv | src/clusterMaker/algorithms/DistanceMatrix.java:344-345 | joining two clustered nodes, merging if their clusters differ, keeps the invariant |
| Components.StepKeepsInv | src/clusterMaker/algorithms/DistanceMatrix.java:339-353 | every off-diagonal cell keeps the invariant: maps agree, lists disjoint with two or more nodes, the clustered nodes are those of the pairs seen, each pair in one cluster, each cluster connected |
| Components.EmptyInv | src/clusterMaker/algorithms/DistanceMatrix.java:329-332 | the empty start satisfies the invariant for no pairs |
| Components.InvComponentMap | src/clusterMaker/algorithms/DistanceMatrix.java:324-385 | under the invariant, the cluster map lists the connected components of the pairs seen |
| Components.BlocksIncluded | src/clusterMaker/algorithms/DistanceMatrix.java:162-169 | every list of one component map of a pair set is a list of any other |
| Components.ComponentsUnique | src/clusterMaker/algorithms/DistanceMatrix.java:162-169 | component maps of the same pairs have the same lists up to ids, so the result does not depend on the visiting order |
| Components.NoPairsNoComponents | src/clusterMaker/algorithms/DistanceMatrix.java:334-338 | a matrix with only diagonal cells yields an empty component map |
| Components.TwoPairsReached | src/clusterMaker/algorithms/DistanceMatrix.java:364-371 | two disjoint cells create clusters 0 and 1 |
| Components.TwoPairsMerged | src/clusterMaker/algorithms/DistanceMatrix.java:373-384 | a cell joining them merges cluster 1 into cluster 0 |
| Components.ChainExample | src/clusterMaker/algorithms/DistanceMatrix.java:334-384 | cells (a, b), (c, d), (b, c) leave one cluster of all four nodes |
| Components.ComponentFinder.constructor | src/clusterMaker/algorithms/DistanceMatrix.java:329-332 | the finder starts with no clusters and counter 0 |
| Components.ComponentFinder.AddNodeToCluster | src/clusterMaker/algorithms/DistanceMatrix.java:357-362 | the in-place update is the `Added` transition |
| Components.ComponentFinder.CreateCluster | src/clusterMaker/algorithms/DistanceMatrix.java:364-371 | the in-place update is the `Created` transition |
| Components.ComponentFinder.CombineClusters | src/clusterMaker/algorithms/DistanceMatrix.java:373-384 | the in-place update, with its relabelling loop, is the `Combined` transition |
| Components.ComponentFinder.Join | src/clusterMaker/algorithms/DistanceMatrix.java:339-353 | the four branches perform the `Step` transition |
| Components.ComponentFinder.Apply | src/clusterMaker/algorithms/DistanceMatrix.java:334-355 | a diagonal cell changes nothing, any other cell is one `Step` with its pair recorded, the value comes back unchanged, and the invariant holds |
| Distance.ExtractAttributes | src/clusterMaker/algorithms/DistanceMatrix.java:59-88 | the pass 1 loop leaves the pass 1 array and the attribute range |
| Distance.ConvertAttributes | src/clusterMaker/algorithms/DistanceMatrix.java:92-107 | the pass 2 loop leaves the pass 2 array, the collision list and the weight range |
| Distance.PatchEdgeCases | src/clusterMaker/algorithms/DistanceMatrix.java:109-112 | exactly the listed edges get the collision weight |
| Distance.MaximaVisit | src/clusterMaker/algorithms/DistanceMatrix.java:293-296 | visiting one more cell keeps every column's running value the maximum of the cells visited |
| Distance.ColumnMaxima | src/clusterMaker/algorithms/DistanceMatrix.java:239-241 | visiting every stored cell in any order leaves each column's maximum, from 0 |
| Distance.SetDiagonals | src/clusterMaker/algorithms/DistanceMatrix.java:243-249 | the diagonal loop leaves the loop-adjusted matrix |
| Distance.NormalizeCells | src/clusterMaker/algorithms/DistanceMatrix.java:159 | visiting the cells in any order leaves the normalized matrix |
| Distance.VisitCell | src/clusterMaker/algorithms/DistanceMatrix.java:167 | one visit records the cell's node pair when it is off the diagonal and keeps the finder's invariant |
| Distance.LabelComponents | src/clusterMaker/algorithms/DistanceMatrix.java:166-168 | in any visiting order, the result lists the connected components of the off-diagonal cells |
| Distance.DistanceMatrix.constructor | src/clusterMaker/algorithms/DistanceMatrix.java:41-113 | the three passes leave the final weights, both ranges, cutoff 0, directed mode and no cached matrix |
| Distance.DistanceMatrix.GetDistanceMatrix | src/clusterMaker/algorithms/DistanceMatrix.java:179-206 | the cached matrix when there is one, else the build from the weights under the current cutoff and mode, which becomes the cache; weights and settings unchanged |
| Distance.DistanceMatrix.SetEdgeCutOff | src/clusterMaker/algorithms/DistanceMatrix.java:215-218 | the new cutoff is set and the cache is dropped; nothing else changes |
| Distance.DistanceMatrix.SetUndirectedEdges | src/clusterMaker/algorithms/DistanceMatrix.java:220-223 | the new mode is set and the cache is dropped; nothing else changes |
| Distance.DistanceMatrix.GetDistanceMatrixWith | src/clusterMaker/algorithms/DistanceMatrix.java:171-176 | always a fresh build under the given cutoff and mode, which become the settings and the cache |
| Distance.DistanceMatrix.GetEdgeValueFromMatrix | src/clusterMaker/algorithms/DistanceMatrix.java:119-124 | the cell of the current matrix (built if needed), or an out-of-bounds error outside n × n |
| Distance.DistanceMatrix.GetNormalizedValue | src/clusterMaker/algorithms/DistanceMatrix.java:150-153 | the result places the value in the weight range: 0 exactly at minWeight, 1 exactly at maxWeight, and scaling back gives the value |
| Distance.DistanceMatrix.NormalizeMatrix | src/clusterMaker/algorithms/DistanceMatrix.java:155-160 | the cached matrix becomes the normalization of the current one; weights and settings unchanged |
| Distance.DistanceMatrix.AdjustLoops | src/clusterMaker/algorithms/DistanceMatrix.java:234-251 | the cached matrix becomes the current one with loops adjusted: each diagonal its column's maximum or 1.0, other cells unchanged |
| Distance.DistanceMatrix.FindConnectedComponents | src/clusterMaker/algorithms/DistanceMatrix.java:162-169 | the result lists the connected components of the current matrix's off-diagonal cells |
| Base.ConformDims | src/clusterMaker/algorithms/attributeClusterers/BaseMatrix.java:88-100 | accepted dimensions multiply to the data length and keep every non-zero given dimension; both zero divides by zero; positive dimensions are accepted iff their product is the length |
| Base.InferredDimension | src/clusterMaker/algorithms/attributeClusterers/BaseMatrix.java:90-98 | with one dimension 0 the data is accepted iff its length is a multiple of the other, which it then divides |
| Base.NegativeRejected | src/clusterMaker/algorithms/attributeClusterers/BaseMatrix.java:90-114 | a negative dimension never yields a table |
| Base.RowMajorCell | src/clusterMaker/algorithms/attributeClusterers/BaseMatrix.java:102-108 | each cell has its own row-major position, from which its row and column are recovered |
| Base.RowMajorIndex | src/clusterMaker/algorithms/attributeClusterers/BaseMatrix.java:102-108 | every row-major position comes from a cell inside the table |
| Base.FillRowMajor | src/clusterMaker/algorithms/attributeClusterers/BaseMatrix.java:102-108 | cell (i, j) holds element i * cols + j of the data |
| Base.FillRow | src/clusterMaker/algorithms/attributeClusterers/BaseMatrix.java:105-107 | one row takes the next cols elements, and the other rows are unchanged |
| Base.RowMajorFilled | src/clusterMaker/algorithms/attributeClusterers/BaseMatrix.java:103-108 | the running counter k is the row-major position i * cols + j |
| Base.AllPlaced | src/clusterMaker/algorithms/attributeClusterers/BaseMatrix.java:102-108 | no element of the data is lost: element k is in cell (k / cols, k % cols) |
| Base.Present | src/clusterMaker/algorithms/attributeClusterers/BaseMatrix.java:234-239 | there are no more present values than cells |
| Base.PresentValues | src/clusterMaker/algorithms/attributeClusterers/BaseMatrix.java:234-242 | no value is present iff every cell is null, and the present values are those of the non-null cells |
| Base.PresentStep | src/clusterMaker/algorithms/attributeClusterers/BaseMatrix.java:236-239 | one more cell appends its value when present |
| Base.CollectPresent | src/clusterMaker/algorithms/attributeClusterers/BaseMatrix.java:234-239 | the row's present values, in column order, fill the front of an array as long as the row |
| Base.SetLabels | src/clusterMaker/algorithms/attributeClusterers/BaseMatrix.java:218-230 | the list's labels go to the first positions in order, and the rest keep theirs |
| Base.BaseMatrix.Init | src/clusterMaker/algorithms/attributeClusterers/BaseMatrix.java:111-121 | a rows × cols table with every cell missing, every label null, every weight 1.0, not transposed |
| Base.BaseMatrix.Blank | src/clusterMaker/algorithms/attributeClusterers/Matrix.java:147-153 | a rows × cols table with every cell missing, every label null, every weight 0.0 |
| Base.BaseMatrix.Unweighted | src/clusterMaker/algorithms/attributeClusterers/Matrix.java:330-335 | a rows × cols table with every cell missing and every label null, and no weight arrays |
| Base.BaseMatrix.FromData | src/clusterMaker/algorithms/attributeClusterers/BaseMatrix.java:88-109 | the dimension check's error, or a table of the checked size holding every data element at its row-major cell, with weights 1.0 |
| Base.BaseMatrix.HasValue | src/clusterMaker/algorithms/attributeClusterers/BaseMatrix.java:145-149 | a cell has a value iff `getValue` is not null |
| Base.BaseMatrix.SetValue | src/clusterMaker/algorithms/attributeClusterers/BaseMatrix.java:137-143 | the cell reads back the stored value (possibly null) and every other cell is unchanged |
| Base.BaseMatrix.SetUniformWeights | src/clusterMaker/algorithms/attributeClusterers/BaseMatrix.java:151-158 | every row and column weight becomes 1.0, the arrays are reused unless one was null, and nothing else changes |
| Base.BaseMatrix.GetRank | src/clusterMaker/algorithms/attributeClusterers/BaseMatrix.java:232-264 | null iff the row has no present value; otherwise, for each present value by position in column order, its mid-rank among them |
| Base.BaseMatrix.GetDistanceMatrix | src/clusterMaker/algorithms/attributeClusterers/BaseMatrix.java:266-278 | an nRows × nRows table with the metric of (i, j) for i ≤ j, and symmetric |
| Base.BaseMatrix.SetMissingToZero | src/clusterMaker/algorithms/attributeClusterers/BaseMatrix.java:317-324 | every null cell becomes 0.0 and present cells keep their value |
| Base.BaseMatrix.AdjustDiagonals | src/clusterMaker/algorithms/attributeClusterers/BaseMatrix.java:326-330 | the first nColumns diagonal cells become maxAttribute and nothing else changes |
| CyMatrix.NodeMap | src/clusterMaker/algorithms/attributeClusterers/Matrix.java:362-369 | the map's keys are the list's identifiers, each mapped to a node of the list carrying it |
| CyMatrix.NodeMapLast | src/clusterMaker/algorithms/attributeClusterers/Matrix.java:366-369 | the node kept for an identifier is the last one in the list carrying it |
| CyMatrix.IndexNodes | src/clusterMaker/algorithms/attributeClusterers/Matrix.java:364-369 | the first loop leaves the identifier array and the node map |
| CyMatrix.LookUpAll | src/clusterMaker/algorithms/attributeClusterers/Matrix.java:373-376 | each sorted name is replaced by its node in the map, in order |
| CyMatrix.SortNodeList | src/clusterMaker/algorithms/attributeClusterers/Matrix.java:361-378 | the result has the input's identifiers, with their multiplicities, in ascending `String.compareTo` order (by UTF-16 code unit), each position holding the last input node with that identifier |
| Sorting.DistinctRearranged | src/clusterMaker/algorithms/attributeClusterers/Matrix.java:371 | rearranging a list without repetitions leaves none |
| CyMatrix.SortPermutes | src/clusterMaker/algorithms/attributeClusterers/Matrix.java:361-378 | with unique identifiers the sorted list holds the same nodes, each once |
| CyMatrix.Stripped | src/clusterMaker/algorithms/attributeClusterers/Matrix.java:90-92 | each condition name is its weight attribute with the five-character prefix removed |
| CyMatrix.StrippedUnits | src/clusterMaker/algorithms/attributeClusterers/Matrix.java:90-92 | when the first five characters lie below U+10000, the condition name's code units are the attribute's from the sixth on, as `substring(5)` gives |
| CyMatrix.FirstStrippedUnits | src/clusterMaker/algorithms/attributeClusterers/Matrix.java:87-91 | for the first attribute, which starts with "node.", the condition name is exactly `substring(5)` |
| CyMatrix.StripPrefixes | src/clusterMaker/algorithms/attributeClusterers/Matrix.java:85-92 | the loop fills the array with the stripped names |
| CyMatrix.NodeConditionsStep | src/clusterMaker/algorithms/attributeClusterers/Matrix.java:277-295 | one more condition is `put` with the node's value exactly when it is recorded |
| CyMatrix.ConditionMapsStep | src/clusterMaker/algorithms/attributeClusterers/Matrix.java:273-298 | one more node is `put` with its condition map exactly when it is kept |
| CyMatrix.KeptIffSomeValue | src/clusterMaker/algorithms/attributeClusterers/Matrix.java:277-297 | without ignoring missing values every node is kept with every numeric condition; when ignoring them a node is kept iff some numeric condition has a value, and its map holds no null |
| CyMatrix.ConditionsOf | src/clusterMaker/algorithms/attributeClusterers/Matrix.java:275-295 | the inner loop leaves the node's condition map |
| CyMatrix.BuildConditionMaps | src/clusterMaker/algorithms/attributeClusterers/Matrix.java:273-298 | the outer loop leaves the map of kept nodes to their condition maps |
| CyMatrix.KeptMembers | src/clusterMaker/algorithms/attributeClusterers/Matrix.java:340-342 | the nodes the layout places are exactly the nodes of the list with an entry in the map |
| CyMatrix.MembersStep | src/clusterMaker/algorithms/attributeClusterers/Matrix.java:340-342 | one more distinct node adds itself to the kept set exactly when it has an entry |
| CyMatrix.KeptCount | src/clusterMaker/algorithms/attributeClusterers/Matrix.java:330-355 | from a list without repetitions the placed nodes are distinct and as many as the entries the list meets, so they fill the table's nodeCondMap.size() rows |
| CyMatrix.KeptSorted | src/clusterMaker/algorithms/attributeClusterers/Matrix.java:339-355 | the placed nodes keep the identifier order of the sorted list |
| CyMatrix.KeptPrefix | src/clusterMaker/algorithms/attributeClusterers/Matrix.java:339-355 | the nodes placed from a prefix of the list come first among all placed nodes, so the running counter indexes them |
| CyMatrix.PlaceRow | src/clusterMaker/algorithms/attributeClusterers/Matrix.java:343-353 | one node labels and holds its row, which it fills from its condition map; other rows are unchanged |
| CyMatrix.PlaceColumn | src/clusterMaker/algorithms/attributeClusterers/Matrix.java:317-326 | one node labels and holds its column, which it fills from its condition map; other columns are unchanged |
| CyMatrix.LayoutRows | src/clusterMaker/algorithms/attributeClusterers/Matrix.java:336-355 | the conditions label the columns, and the r-th placed node labels and fills row r from its map |
| CyMatrix.LayoutColumns | src/clusterMaker/algorithms/attributeClusterers/Matrix.java:309-330 | the conditions label the rows, and the c-th placed node labels and fills column c from its map |
| CyMatrix.LayoutIsTable | src/clusterMaker/algorithms/attributeClusterers/Matrix.java:300-356 | the placed nodes are those of the list that pass the keep rule, and each cell of the layout is the node's value for the condition, missing when not recorded |
| CyMatrix.LayOut | src/clusterMaker/algorithms/attributeClusterers/Matrix.java:300-356 | the table is kept-nodes × conditions with node labels and nodes on the rows, or exactly its transpose when transposed |
| CyMatrix.Prepare | src/clusterMaker/algorithms/attributeClusterers/Matrix.java:256-298 | the condition names, the sorted list and the condition maps: the placed nodes are the input's kept nodes, each once, in identifier order, as many as the map has entries |
| CyMatrix.CopyArray | src/clusterMaker/algorithms/attributeClusterers/Matrix.java:128-137 | the destination holds the source's elements |
| CyMatrix.CopyRowCells | src/clusterMaker/algorithms/attributeClusterers/Matrix.java:139-140 | copying only present values into an empty row reproduces the row, missing cells included |
| CyMatrix.CopyCells | src/clusterMaker/algorithms/attributeClusterers/Matrix.java:127-142 | the copy's cells equal the duplicate's, missing cells included |
| CyMatrix.CopyBaseValues | src/clusterMaker/algorithms/attributeClusterers/Matrix.java:127-142 | cells, row weights and labels copied; column weights and labels copied when there is a row |
| CyMatrix.CopyBase | src/clusterMaker/algorithms/attributeClusterers/Matrix.java:105-141 | fresh storage, weight arrays included, of the duplicate's size holding its values and transpose flag |
| CyMatrix.Matrix.constructor | src/clusterMaker/algorithms/attributeClusterers/Matrix.java:145-160 | a rows × cols table in fresh storage with all cells missing, labels null, weights 0.0, no node arrays, every flag false and maxAttribute 0.0 |
| CyMatrix.Matrix.CopyNodes | src/clusterMaker/algorithms/attributeClusterers/Matrix.java:117-137 | row nodes copied iff the duplicate has a row node 0, column nodes otherwise (filled only when there is a row); exactly one array allocated |
| CyMatrix.Matrix.Copy | src/clusterMaker/algorithms/attributeClusterers/Matrix.java:104-143 | same sizes, cells, weights, labels, nodes and flags as the duplicate, in fresh storage (table, weight, label and node arrays), as far as the loop reaches |
| CyMatrix.Matrix.GeneArray | src/clusterMaker/algorithms/attributeClusterers/Matrix.java:252-357 | the kept nodes, each once and in `String.compareTo` order of identifiers, in fresh node arrays, laid out against the stripped conditions as rows, or as columns when transposed, each cell the node's recorded value |

## Left out

- Cytoscape itself: the current network, the node and edge lists, selection and the attribute stores. Node and edge lists, attribute values and attribute types are parameters: `Edge.attribute`, `AttributeType`, `NodeAttributes`.
- The `EdgeAttributeHandler.NONEATTRIBUTE` name is not part of this model. The constructor takes a flag saying whether the attribute name is that one.
- Concrete `EdgeWeightConverter` and `DistanceMetric` implementations, and the `distanceTypes` table. The converter and the metric are function parameters.
- `scaleValue`, `hasDistanceValues` and `hasLogValues`, because they use `Math.log10` and infinite-distance sentinels. Floating-point rounding, NaN and infinities in general: doubles are reals.
- `doubleValue`, because it returns NaN for a missing cell.
- `printMatrixInfo`, `printMatrix` and `BaseMatrix.printMatrix`, because they only log.
- The plain getters and setters: `getEdgeValues`, the range getters, `getNodes`, `getEdges`, `nRows`, `nColumns`, the weight and label getters and setters, `isTransposed` and `isSymmetrical`. The model reads and writes the fields directly.
- The Colt library's storage. The sparse matrix is its map of non-zero cells, and `forEachNonZero` visits them in any order.
- `indexSort(int[])` and the `int` branch of `IndexComparator`. No caller in these files uses them.
- `buildSymmetricalMatrix`, and the edge-attribute and fall-through branches of the `Matrix(weightAttributes, …)` constructor. They need the Cytoscape adjacency lists.
- Java `int` overflow: rows * cols in the data constructor is computed without 32-bit wrap-around.
- Exceptions the model excludes by `requires` rather than modelling: array indices out of range (`getValue`, `setValue`, `hasValue`, `getRank`, `adjustDiagonals` with more columns than rows), `substring(5)` on a weight attribute shorter than five characters, `getRowNode(0)` on a copy source with row nodes but no rows, and copying a matrix whose weight arrays are null (the gene-array layout leaves them null), where the copy loop dereferences them.
- CyMatrix.Stripped: drops five characters, where `substring(5)` drops five UTF-16 code units. The two agree when the first five characters lie below U+10000 (`CyMatrix.StrippedUnits`), always the case for the first attribute, which starts with "node.". Otherwise `substring(5)` can split a surrogate pair, which a string of Unicode scalar values cannot hold, and the requires asks for five characters where Java needs only five code units.
- CyMatrix.Matrix.constructor: takes natural sizes. Java throws NegativeArraySizeException for a negative size (src/clusterMaker/algorithms/attributeClusterers/Matrix.java:149); the model has no such path for this constructor.
- Distance.DistanceMatrix.GetNormalizedValue: requires maxWeight != minWeight, because the Java division by a zero span gives NaN or an infinity.
- Distance.DistanceMatrix.NormalizeMatrix: requires maxWeight != minWeight, for the same reason.
- CyMatrix.Matrix.GeneArray: requires distinct node identifiers, as a Cytoscape network has. With shared identifiers the Java code relies on `HashMap` identity of nodes, which the model does not capture.
- CyMatrix.Matrix.Copy: copies the arrays one after another instead of in the single interleaved loop of the source. The final state is the same.
- CyMatrix.LayoutRows and CyMatrix.LayoutColumns: look conditions up by the condition name rather than by reading the label back from the label array. The two are equal once the labels are set.
- Base.BaseMatrix.GetRank: the Java sort is `Arrays.sort` (a merge sort); the model uses a stable insertion sort with the same result.
