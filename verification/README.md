# Skeleton candidates and greedy collapse, in Dafny

This project models the core of the ibexHelper skeleton pipeline. That
pipeline proposes candidate merges between segments of a 3D label volume,
writes them out for a classifier, reads the classifier's probabilities back,
and greedily collapses the segment graph.

- **Candidate generation** (`cnns/skeleton/generate_features.py`):
  - `ExtractNeighbors` is the nearest-neighbour scan over a window around a
    skeleton endpoint. It keeps, for every other label, the closest voxel
    whose network-radius box fits inside the grid.
  - The pair loop of `GenerateFeatures` turns each label found above the
    skeleton's own label into a candidate. It routes the candidate to the
    positive, negative or undetermined list by the segment-to-gold mapping.
- **Saving** (`SaveCandidates`): chooses one of three orderings. These are a
  class-balanced interleave (training), a shuffled concatenation (inference),
  or the shuffled undetermined list. It then writes an int32 count followed
  by six uint64 fields per candidate.
- **Collapse** (`algorithms/util.py`):
  - `RetrieveCandidates` reads the probability file and enforces a hard count
    check.
  - `CollapseGraph` visits edges by descending (probability, index). It
    rejects an edge when another neighbour of its first label already shares
    the second label's set, and merges the two labels otherwise. The volume
    is then relabelled by set representative.

One module per concern, each in its own file:

| module | file | what it holds |
|---|---|---|
| `Wrappers` | wrappers.dfy | `Result` and `Option` |
| `Bytes` | bytes.dfy | little-endian 'i' and 'Q' fields |
| `Candidates` | candidates.dfy | the candidate record (`SkeletonCandidate`) |
| `CandidateFile` | candidate_file.dfy | the candidate file layout, a strict decoder and both round trips |
| `ProbabilityFile` | probability_file.dfy | the probability reader and a writer for its round trip |
| `Balance` | balance.dfy | the three orderings of `SaveCandidates` and the class-balance properties |
| `Neighbors` | neighbors.dfy | the scan order, the enclosure test, the nearest-neighbour scan, the distances |
| `Generate` | generate.dfy | the per-skeleton search, the pair loop and the routing |
| `UnionFind` | union_find.dfy | the union-find forest by its contract (a representative map) |
| `VisitOrder` | visit_order.dfy | `sorted(zip(p, range(m)), reverse=True)` |
| `Collapse` | collapse.dfy | adjacency, the rejection test, the greedy loop, the relabelling |

Several inputs are not computed by the model:

- **Shuffles.** Every `random.shuffle` call is the given function `shuffle`,
  applied with the call's index. It is required to be a permutation.
- **Survivor of a union.** Which root survives a union is chosen by the
  per-edge flags `keepFirst`.
- **Endpoint windows.** The windows cut out around each endpoint are given.
- **Gold mapping.** The gold label of segment `l` around midpoint `p` is
  `gold(p, l)`.

The nearest-neighbour scan and the search are proved for any distance
function of a window's voxels and any initial distance. `GenerateCandidates`
then runs them with the corrected distance: squared, in world units, and
measured from the endpoint (see Findings).

## Model

| member | source | states |
|---|---|---|
| Bytes.U64Bytes | cnns/skeleton/generate_features.py:71 | a 'Q' field is 8 bytes and reads back as the value it encodes |
| Bytes.Int32Bytes | cnns/skeleton/generate_features.py:56 | an 'i' field is 4 bytes and reads back, two's complement, as the count it encodes |
| Bytes.FromLEToLE | cnns/skeleton/generate_features.py:71 | decoding a little-endian encoding gives back the value |
| Bytes.ToLEFromLE | cnns/skeleton/generate_features.py:71 | encoding a decoded field gives back its bytes: the encoding covers every byte string |
| Bytes.UnpackPack | cnns/skeleton/generate_features.py:71 | unpacking consecutive 'Q' fields gives back the packed values |
| Bytes.PackUnpack | cnns/skeleton/generate_features.py:71 | every multiple-of-8 byte string is the packing of its unpacked values |
| CandidateFile.RecordFields | cnns/skeleton/generate_features.py:59-71 | a record is six 8-byte fields: label_one, label_two, z, y, x, then ground_truth as 0 or 1 |
| CandidateFile.Encode | cnns/skeleton/generate_features.py:55-71 | writing succeeds exactly when the count fits an int32 and every field fits a uint64; the file is 4 + 48 n bytes, the header reads back as n, and record i sits at byte 4 + 48 i |
| CandidateFile.RoundTrip | cnns/skeleton/generate_features.py:55-71 | decoding any file the writer produces gives back the same candidate sequence, in order |
| CandidateFile.ReverseRoundTrip | cnns/skeleton/generate_features.py:55-71 | every byte string the strict decoder accepts is exactly the file the writer produces for the decoded candidates |
| ProbabilityFile.Read | algorithms/util.py:21-26 | reading succeeds exactly when a header is present, equals the candidate count, and that many 8-byte words follow; it fails with a count mismatch exactly when the header differs; on success value i is word i |
| ProbabilityFile.ReadWrite | algorithms/util.py:21-26 | reading a file of n words, with any trailing bytes, for n candidates gives back the n words |
| ProbabilityFile.MismatchFails | algorithms/util.py:22-23 | a file whose header disagrees with the candidate count is always refused |
| Balance.SaveOrder | cnns/skeleton/generate_features.py:18-52 | a present undetermined list wins and the output is a permutation of it; otherwise inference mode outputs a permutation of pos ++ neg; otherwise training succeeds exactly when both lists are empty or both non-empty, and the output is balanced |
| Balance.TrainingOrder | cnns/skeleton/generate_features.py:27-52 | the output has 2 max(\|pos\|, \|neg\|) entries; the even entries are a cyclic cover of pos (q full copies plus part of one more, q = pairs / \|pos\|) and the odd ones of neg; it raises exactly when one list is empty and the other is not |
| Balance.LongerExactlyOnce | cnns/skeleton/generate_features.py:28-52 | in a balanced output every element of the longer list appears exactly once, as a multiset |
| Balance.CountsPerElement | cnns/skeleton/generate_features.py:28-52 | each candidate occurs between floor(n/m) and ceil(n/m) times per copy of it in its class (n pairs, class size m), so exactly n/m times when m divides n |
| Balance.ClassesAlternate | cnns/skeleton/generate_features.py:38-40 | every even position holds a positive and every odd position a negative |
| Neighbors.ScanOrder | cnns/skeleton/generate_features.py:81-83 | the triple loop visits exactly the in-window offsets, each once, strictly increasing in z-y-x order |
| Neighbors.Consider | cnns/skeleton/generate_features.py:85-102 | one voxel updates its label's entry exactly when the label is not the reference label, its distance is strictly smaller and the box around its midpoint is enclosed; then only that entry changes, to this distance and midpoint |
| Neighbors.ExtractNeighbors | cnns/skeleton/generate_features.py:77-102 | distances never grow; each ends at most the distance of every qualifying voxel of its label; a lowered entry was set by the first qualifying voxel in scan order reaching the new minimum, and its midpoint is enclosed; an unlowered entry keeps its midpoint; the reference label is untouched |
| Neighbors.XorDistanceMisorders | cnns/skeleton/generate_features.py:89 | the distance as written puts voxel (2, 0, 0) below the corner voxel |
| Neighbors.XorSentinelZero | cnns/skeleton/generate_features.py:142 | the initial distance as written is 0 on a 2 x 2 x 2 unit grid, so nothing is ever closer |
| Neighbors.SquaredDistanceMonotone | cnns/skeleton/generate_features.py:89 | with squares in place of XOR, the distance of line 89 never decreases as a voxel moves away from the window's corner along any axis |
| Neighbors.CornerMisorders | cnns/skeleton/generate_features.py:88-89 | with unit resolution in a 1 x 1 x 4 window, line 89 as written scores the corner 2 and the voxel at the endpoint 4, and so do squares measured from the corner (0 against 4); measured from the centre, the endpoint's voxel scores below the corner |
| Neighbors.CentredFromEndpoint | cnns/skeleton/generate_features.py:88-93 | the centred distance of a voxel is the squared world distance between the midpoint it would record and the endpoint |
| Neighbors.CentredDistanceMonotone | cnns/skeleton/generate_features.py:88-89 | the endpoint's own voxel scores 0, and the centred distance never decreases as a voxel moves away from the endpoint along any axis |
| Neighbors.BelowSentinel | cnns/skeleton/generate_features.py:142-143 | every voxel of a window no larger than the grid is strictly closer to the endpoint than the squared-extent initial distance |
| Generate.SearchLabel | cnns/skeleton/generate_features.py:141-153 | distances stay at most the initial distance; an unfound label keeps the zero midpoint; a found label's midpoint is enclosed; the skeleton's own label is never found; each distance is the minimum over all qualifying voxels of all endpoints; it is reached by the first qualifying voxel in scan order of one endpoint, and every qualifying voxel of the endpoints before that one is strictly farther, so a tie goes to the earliest endpoint |
| Generate.FoundIffSeen | cnns/skeleton/generate_features.py:141-157 | a label is paired exactly when some endpoint saw a qualifying voxel of it strictly closer than the initial distance |
| Generate.FoundIffQualifies | cnns/skeleton/generate_features.py:141-157 | with the squared distance from the endpoint and windows no larger than the grid, a label is paired exactly when some endpoint's window holds a qualifying voxel of it |
| Generate.PairsFrom | cnns/skeleton/generate_features.py:156-174 | it fails exactly when a found label's midpoint has a zero coordinate; otherwise the second labels are exactly the found labels above the first, strictly increasing, each at its recorded midpoint, with ground truth the equality of the two gold labels |
| Generate.RouteByGold | cnns/skeleton/generate_features.py:170-180 | a candidate is undetermined iff either gold label is 0, positive iff both are non-zero and equal, negative iff both are non-zero and different |
| Generate.Classify | cnns/skeleton/generate_features.py:173-180 | the three lists split the input multiset, and each holds exactly the input candidates of its route |
| Generate.SearchDetermined | cnns/skeleton/generate_features.py:141-153 | any two results meeting the search's guarantees for a skeleton are equal: the minimum, the earliest winning endpoint and its first winning voxel fix every entry |
| Generate.Collect | cnns/skeleton/generate_features.py:138-180 | from given per-skeleton search results, the loop's output fails exactly when some skeleton's pairs fail |
| Generate.GenerateCandidates | cnns/skeleton/generate_features.py:138-180 | each skeleton visited gets a result meeting the search's guarantees with the distance from the endpoint and the squared-extent initial distance (unique, by SearchDetermined), and the output is the reference `Collect` over them: the routed pairs of every skeleton in turn, or the error of the first skeleton whose pairs fail; it succeeds exactly when every skeleton's pairs do; every listed candidate has label_one < label_two < max_label, an enclosed midpoint with no zero coordinate, ground truth from the gold labels, and sits in the list of its route |
| UnionFind.MakeSets | algorithms/util.py:50 | the forest starts as max_value singleton sets |
| UnionFind.MakeSetsRoots | algorithms/util.py:50 | a fresh forest of n labels has n sets |
| UnionFind.Find | algorithms/util.py:72 | the representative of a label represents itself |
| UnionFind.Union | algorithms/util.py:83 | afterwards both labels have one representative; two labels share a set exactly when they did before or both were in the two merged sets; no other label changes |
| UnionFind.UnionRoots | algorithms/util.py:83 | merging two different sets removes exactly one set; merging a set with itself changes nothing |
| VisitOrder.Order | algorithms/util.py:63-65 | the visit order of the first m candidates holds each index below m exactly once, by descending probability, ties by descending index (the collapse takes m = min(\|p\|, \|candidates\|), where zip stops) |
| VisitOrder.DescendingUnique | algorithms/util.py:65 | two such descending orders of the same indices are equal, so the order is exactly the sorted one |
| Collapse.MaxValue | algorithms/util.py:49 | max_value exceeds every voxel label, and max_value - 1 occurs in a non-empty volume |
| Collapse.AdjacencyAsWritten | algorithms/util.py:53-60 | the table as written exists exactly when every label is below the candidate count |
| Collapse.AdjacencyTooSmall | algorithms/util.py:53-60 | one candidate joining labels 1 and 2 makes the table as written raise, while a table of max_value slots holds the edge |
| Collapse.Adjacency | algorithms/util.py:55-60 | label l's set holds exactly the labels sharing a candidate with l, in either position |
| Collapse.FindConflict | algorithms/util.py:72-79 | the scan rejects exactly when some neighbour of label_one other than label_two has label_two's representative, whatever the set order |
| Collapse.VisitEdge | algorithms/util.py:66-83 | a preset flag skips the edge with no union; otherwise the edge is rejected exactly on a conflict, and labels are unioned exactly when it is not rejected |
| Collapse.SameSetConflicts | algorithms/util.py:68-83 | on a graph with no self-loops or repeated pairs, an edge whose labels already share a set always meets a conflict, so no accepted edge closes a cycle |
| Collapse.LinkedAfterUnion | algorithms/util.py:83 | after a union every label in a non-singleton set still has an accepted edge to another member of its set |
| Collapse.VisitAll | algorithms/util.py:63-83 | the run has a history of forests, starting from max_value singletons: the k-th edge of the order ends flagged exactly when it was flagged on entry or met a conflict in the forest before it, and the next forest unions its labels exactly when it is not flagged; the last forest is the result; edges outside the order keep their flags; on a simple graph accepted edges plus sets equals max_value |
| Collapse.GreedyDetermined | algorithms/util.py:63-83 | two runs over the same order, flags, candidates and survivor choices leave the same forests and the same flags |
| Collapse.CollapseGraph | algorithms/util.py:40-96 | it fails on an empty volume and on a label with no slot; otherwise the flags and the mapping are those of the greedy history over the sorted order and the max_value-slot adjacency; flags only go from false to true; the mapping is idempotent and within range; the two labels of every accepted edge map alike; voxel k becomes mapping[seg[k]]; on a simple graph every accepted edge merges two different sets (accepted edges + sets = max_value) |

## Left out

- File handling, `print` statistics, `PrecisionAndRecall`, `Prob2Pred` and `comparestacks.Evaluate` are not modelled. They are I/O and reporting.
- The ground-truth array in `CollapseGraph` is not modelled (algorithms/util.py:43-46, 85-86). It only feeds the precision report.
- Cutting windows out of the volume is not modelled (cnns/skeleton/generate_features.py:152, 162-167). This includes the uint64 wrap-around of the slice bounds. Windows are given per endpoint.
- `seg2gold.Mapping` is not computed. It is the parameter `gold`.
- `seg2seg.RemoveSmallConnectedComponents`, `dataIO` reads, `ReadSkeletons` and `GridPoint` are not computed. Skeletons, endpoints and centroids are given.
- `seg2seg.MapLabels` is modelled as the mapping applied voxel by voxel. Its code is not part of this model.
- `random.shuffle` is not modelled as a random number generator. Each call is an arbitrary permutation given as a parameter.
- The shuffles' in-place effect on the caller's lists is not modelled.
- The `unionfind` module is modelled by its contract: a representative map. Its code is not part of this model. Path compression does not change any `Find` result. The survivor of each union is a per-edge flag.
- Floating point is not modelled:
  - Probabilities are `real` keys, so NaN is not modelled.
  - The doubles in the probability file are opaque 64-bit words and are not converted.
- Resolutions and grid extents are non-negative integers, as Python's `^` needs them to be.
- Byte order is fixed to little-endian. The native 'QQQQQQ' format has no padding.
- The candidate decoder is this model's strict inverse of the writer. The code that reads candidate files is not part of this model.
- `bckup-train.py` is not modelled. It is model construction and training, not this core.
- The evaluation re-union of positive candidates is not modelled (cnns/skeleton/generate_features.py:199-213). It reuses the same union-find contract.
- The corner-measured distance of line 89 is modelled only as a function and a counterexample. The search runs with the distance from the endpoint (see Findings).
- The XOR initial distance of line 142 is modelled only as a function and a counterexample. The search runs with the squared world extent of the grid, `Sentinel` (see Findings).
- Distances and midpoints are unbounded integers. Only enclosed midpoints are stored, and those are at least the network radius, so the uint64 midpoint array never wraps.
- Collapse.CollapseGraph: the forest claim assumes a simple candidate graph: no self-loops and no unordered pair twice. This is the assumption under which the source's "skip if this creates a cycle" comment holds.
- Collapse.CollapseGraph: requires one survivor flag per candidate, and a flag array at least as long as the visited prefix.
- Collapse.CollapseGraph: sizes the adjacency table by max_value, one slot per label, not by the candidate count as algorithms/util.py:53 does. A candidate label at or above max_value gives `LabelOutOfRange` (see Findings).

## Findings

| source | as written | input that shows it | evidently intended | confidence | as-written member | corrected member |
|---|---|---|---|---|---|---|
| algorithms/util.py:53 | the adjacency table has one slot per candidate but is indexed by label | one candidate joining labels 1 and 2, volume labels 0..2: `adjacency_sets[1]` raises IndexError | one slot per label, max_value slots | high; not executed | Collapse.AdjacencyTooSmall | Collapse.CollapseGraph |
| cnns/skeleton/generate_features.py:89 | `(r*iz) ^ 2 + ...` is XOR, parsed as `A ^ (2 + B) ^ (2 + C) ^ 2` | unit resolution: voxel (2, 0, 0) scores 0, the corner voxel scores 2 | the squared world distance | high; not executed | Neighbors.XorDistanceMisorders | Neighbors.CentredDistanceMonotone |
| cnns/skeleton/generate_features.py:88-89 | the comment on line 88 speaks of a distance from the centre, but line 89 measures from offset (0, 0, 0), the window's corner | unit resolution, a 1 x 1 x 4 window with the endpoint at offset (0, 0, 2): as written the corner voxel scores 2 and the endpoint's voxel 4 (with squares, 0 and 4), so the corner's label wins | the squared world distance from the window's centre, the endpoint | high; not executed | Neighbors.CornerMisorders | Neighbors.CentredFromEndpoint |
| cnns/skeleton/generate_features.py:142 | the initial max_distance uses the same XOR expression over the grid shape | unit resolution, 2 x 2 x 2 grid: max_distance is 0, no voxel is ever closer, no candidate is produced | the squared world extent of the grid | high; not executed | Neighbors.XorSentinelZero | Generate.FoundIffQualifies |
