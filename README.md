# Kernighan–Lin graph bisection, modelled in Dafny

This project models `kl.py`, a Kernighan–Lin heuristic for splitting the vertices of an undirected
graph into two halves, A and B, with few edges between them. It covers:

- **Graph construction.** Every declared edge is attached to its left endpoint and then to its right
  endpoint. A vertex drops an edge when it already stores an edge with the opposite direction.
- **Cut cost.** The number of declared edges, repeats included, whose endpoints are on different
  sides.
- **D-value of a vertex.** Over the vertex's own edge list, the number of external edges minus the
  number of internal ones.
- **The partitioner.**
  - It starts from the split that puts the first ⌊n/2⌋ vertices on side A.
  - It then runs passes. Each pass takes ⌊n/2⌋ times the unvisited pair (a, b) of best gain
    `D[a] + D[b] - 2 c_ab`, the first such pair in scan order.
  - After each pair it updates the D-values of the unvisited vertices as if a and b were exchanged.
  - Then it picks the shortest prefix of the pairs with the largest gain sum, and commits it by
    relabelling when that sum is positive.
  - The passes stop when a pass finds no positive prefix.

Representation:

- Vertex `v` is the vertex at position `v` of the vertex list, with identifier `ids[v]`.
- Edge `k` is the `k`-th declared edge. Edge numbers stand for the identities of the edge objects,
  so `c_ab`, which the code computes as an intersection of edge objects, becomes the size of the
  intersection of two sets of edge numbers.
- The dictionary of D-values, keyed by the distinct vertex identifiers, is a sequence indexed by
  vertex.

The code is organised as follows:

- `graph_model.dfy`: the topology, and the edge lists that construction builds (`Wiring`).
- `cut_cost.dfy`: the cut cost and D-values as functions, with their lemmas.
- `gain.dfy`: `c_ab`, the pair gain, tentative exchanges, and the exactness of the incremental
  update.
- `graph.dfy`: the `Graph` class, whose constructor, edge insertion, D-value and cost loops are
  proved against those functions.
- `passes.dfy`: the value-level loops of a pass and their specification. This covers the greedy
  choice, the pools, the D-value update and the prefix choice.
- `partitioner.dfy`: the `KernighanLin` class, which changes the labels in place.

On every graph the model ties the run to the greedy passes. A committed round (`Committed`) from
labels L is the greedy pass of ⌊n/2⌋ exchanges from L, its shortest prefix of largest gain, that
gain when positive, and the labels with that prefix applied. Greedy passes are unique, so a run is
determined by its starting labels. `Partition` returns, as a ghost result, the labels after the
split and after every committed pass, each step a committed round. When it stops on its own, no
greedy pass from the final labels has a positive prefix (`NoPositivePrefix`).

A graph is *simple* when it has no self-loop and no edge that declares an earlier pair in the
opposite direction. On simple graphs the model proves three things:

- every recorded gain is exactly the drop in cut cost caused by the exchange;
- every committed pass lowers the cut cost by its reported gain;
- the main loop therefore stops after at most `initialCost` committed passes.

## Model

| member | source | states |
|---|---|---|
| GraphModel.IndexOf | kl.py:44-47 | the identifier lookup returns a vertex that carries that identifier |
| GraphModel.Other | kl.py:10-14 | the far endpoint of an edge, seen from one endpoint, touches the edge, and equals the near one exactly for a self-loop |
| GraphModel.OfferShape | kl.py:23-29 | offering edge k to a vertex appends k at the end of its list exactly when no stored edge declares the reverse pair; no other list changes |
| Graphs.Graph.AddEdge | kl.py:23-29 | the scan for a reverse twin either leaves the lists unchanged or appends k to the vertex's list, as `Offer` says |
| GraphModel.WiringStep | kl.py:46-51 | one constructor step changes only the lists of the edge's two endpoints; each gains k unless it stores a reverse twin, and a self-loop is stored once |
| GraphModel.WiringWellwired | kl.py:39-51 | after every edge, each list holds edges touching its vertex, without repeats, and an edge in one endpoint's list is in the other endpoint's list |
| GraphModel.Wired | kl.py:39-51 | the lists of the finished graph are well wired in the sense above |
| Graphs.Graph.constructor | kl.py:39-51 | the constructor's loop builds exactly the lists `Wired` describes, keeping the vertices and edges |
| GraphModel.SimpleWiring | kl.py:23-29 | on a simple graph construction drops nothing: every vertex lists exactly the edges that touch it, in declaration order |
| CutCost.Cut | kl.py:53-60 | the cut cost never exceeds the number of declared edges |
| CutCost.CutCountsCrossingEdges | kl.py:53-60 | the cut cost is the number of declared edges whose endpoints carry different labels |
| Graphs.Graph.PartitionCost | kl.py:53-60 | the loop over the declared edges returns the cut cost of the current labels |
| CutCost.OtherVertex | kl.py:10-14 | the vertex at the far end of an incident edge is a vertex touched by the edge, and is the vertex itself exactly for a self-loop |
| CutCost.DSumIsExternalMinusInternal | kl.py:7-21 | the D-value is external minus internal edges, every listed edge is one of the two, and so the D-value lies between minus and plus the list length |
| Graphs.Graph.DValue | kl.py:7-21 | the accumulator loop returns the D-value of the vertex over its own edge list |
| CutCost.FlipNeighbourD | kl.py:115-124 | moving another vertex a to the other side changes v's D-value by 2 for each edge of v leading to a, upward when a was on v's side and downward otherwise |
| CutCost.FlipCutUpTo | kl.py:53-60 | on a simple graph, moving one vertex across lowers the cut cost by exactly its D-value |
| Gain.Exchanged | kl.py:140-146 | exchanging a and b puts a on side B and b on side A and keeps every other label |
| Gain.SharedCountsEdgesTo | kl.py:101 | c_xa, the number of edges x and a have in common, is the number of edges of x whose far endpoint is a |
| Gain.IncrementalD | kl.py:115-124 | the update `+2 c_xa - 2 c_xb` (side A) and `+2 c_yb - 2 c_ya` (side B) gives exactly the D-value under the labels with a and b exchanged, on every graph |
| Gain.GainIsCutReduction | kl.py:101-102 | on a simple graph, the gain `D[a] + D[b] - 2 c_ab` is exactly the drop in cut cost when a and b are exchanged |
| Passes.Members | kl.py:80-87 | a group lists, in increasing vertex order, exactly the vertices carrying its label |
| Passes.MembersSplit | kl.py:83-87 | the two groups together hold every vertex once |
| Passes.MembersUpdate | kl.py:142-146 | relabelling one vertex changes the sizes of the groups by the one vertex that moved |
| Passes.ExchangeKeepsSizes | kl.py:140-146 | exchanging a vertex of side A with one of side B keeps the size of side A |
| Passes.InitialSizes | kl.py:68-72 | the initial split puts ⌊n/2⌋ vertices on side A and n - ⌊n/2⌋ on side B |
| Partitioner.KernighanLin.InitialSplit | kl.py:68-72 | the two loops label the first ⌊n/2⌋ vertices A and the rest B |
| Partitioner.KernighanLin.Groups | kl.py:80-87 | the scan builds the two groups as `Members` describes them |
| Partitioner.KernighanLin.DValues | kl.py:89 | the table holds the exact D-value of every vertex under the current labels |
| Passes.ScanRow | kl.py:100-106 | the scan over side B's pool for one vertex of side A continues the running maximum: afterwards no pair of this row or an earlier one beats the kept gain, and no pair examined before the kept one reaches it |
| Passes.SelectPair | kl.py:96-106 | the nested scan returns a pair with the largest gain over the two pools, and no pair scanned before it reaches that gain (the strict `>` keeps the first maximum) |
| Passes.SelectionIsBest | kl.py:96-106 | with exact D-values, the selected pair is the best unvisited pair under the tentative labels, and the first such pair in vertex order |
| Passes.RemainingPools | kl.py:109-112 | removing the selected vertices leaves each pool one shorter, still ordered, still disjoint |
| Passes.ShiftPool | kl.py:116-124 | one update loop adds `2 c_x,toward - 2 c_x,away` to every pool member's D-value and keeps every other entry |
| Passes.UpdateD | kl.py:115-124 | the two update loops together change the D-values of the remaining pool members as the code says and no other entry |
| Passes.DStep | kl.py:115-124 | after an update the D-values of the still unvisited vertices are exact under the tentative labels |
| Passes.BestPairUnique | kl.py:96-106 | after the same earlier exchanges there is only one best pair: the largest gain, and among equal gains the first in scan order |
| Passes.GreedyUnique | kl.py:93-113 | two greedy passes of the same length from the same labels are the same sequence of exchanges, so a pass is determined by the labels it starts from |
| Passes.GreedyExtend | kl.py:93-113 | appending a best pair of unvisited vertices to a greedy sequence of exchanges keeps it greedy |
| Passes.PoolKeepsLabel | kl.py:108-113 | a vertex no exchange has visited keeps the label it had when the pass began |
| Passes.PassStart | kl.py:80-90 | a pass starts with the two groups as its pools, no exchanges, and exact D-values |
| Passes.PassStep | kl.py:93-124 | one iteration keeps the pass state: the exchanges are greedy, the pools are the unvisited vertices, the D-values are exact |
| Partitioner.KernighanLin.Pass | kl.py:80-124 | a pass records ⌊n/2⌋ exchanges, each the first best pair of unvisited vertices under the labels with the earlier exchanges applied, with its exact gain |
| Passes.BestPrefix | kl.py:126-136 | the prefix choice returns the smallest j with the largest prefix sum of gains, and that sum; there is no prefix when there are no gains |
| Passes.NoPositivePrefixBy | kl.py:126-151 | when the pass from labels L has no prefix of positive gain, no greedy pass from L has one: stopping there is a property of the labels alone |
| Passes.DrawnKeepsSizes | kl.py:138-146 | exchanging any prefix of a pass's pairs keeps the size of side A |
| Passes.PrefixSumIsCutDrop | kl.py:126-146 | on a simple graph, exchanging the first j pairs of a pass lowers the cut cost by the sum of their recorded gains |
| Passes.CommitEffect | kl.py:138-146 | committing a prefix keeps the group sizes, and on a simple graph lowers the cut cost by the prefix's gain |
| Partitioner.KernighanLin.Commit | kl.py:138-146 | the relabelling loop leaves the labels the first jmax exchanges produce |
| Partitioner.KernighanLin.CommitBest | kl.py:138-151 | the decision after a pass commits exactly when the chosen prefix has a positive gain: then the labels become those the first jmax exchanges of the pass produce and the cut cost drops by that gain on a simple graph; otherwise the labels are unchanged and no greedy pass from them has a positive prefix |
| Partitioner.KernighanLin.PassAndCommit | kl.py:79-151 | a round runs the greedy pass of ⌊n/2⌋ exchanges from the current labels and picks the shortest prefix of largest gain; it returns that gain and commits that prefix exactly when the gain is positive, and otherwise leaves the labels unchanged with no positive prefix from them. It keeps the group sizes and, on a simple graph, lowers the cut cost by the committed gain |
| Partitioner.KernighanLin.MainLoop | kl.py:79-151 | the sequence of label states from the start of the loop is linked, state by state, by committed rounds whose gains are the recorded ones, all positive, with their sum as the total; the loop stops early only at labels with no positive prefix, and on a simple graph the cut cost has dropped by the total gain |
| Partitioner.RecordRound | kl.py:148-149 | appending a committed round to the record of the run keeps the record: one more label state, one more gain, and the total grows by that gain |
| Partitioner.KernighanLin.Partition | kl.py:67-153 | the run starts from the initial split and reports the initial and final cost; its label states are linked by one committed round per reported gain, each gain positive and the total their sum, with ⌊n/2⌋ vertices kept on side A. A run that stops on its own ends at labels with no positive prefix. On a simple graph the final cost is the initial cost minus the total gain, and the run stops on its own within `initialCost` passes |

## Left out

- File reading and the parsing of edge lines (`load_data`, kl.py:160-182) and `main` (kl.py:155-158)
  are input handling. The model takes the vertex identifiers and the declared edges as parameters.
  It requires what `load_data` guarantees and the construction's dictionary lookups assume: distinct
  identifiers, and every endpoint among them.
- The three `print` statements (kl.py:74, 150, 153) are output only. `Partition` returns a `Report`
  with the same numbers instead.
- The `float("inf")` sentinels (kl.py:96, 127) are modelled as "no candidate yet": a flag in
  `SelectPair` and `Option` in `BestPrefix`. Every real gain beats minus infinity, so the behaviour is
  the same.
- The Python 2 `/` on lengths (kl.py:69, 71, 93) is integer division on non-negative numbers, which is
  Dafny's `/` on `nat`.
- The `left_v`/`right_v` back-references of the edge objects are replaced by identifier lookups
  (`IndexOf`). The vertex objects are replaced by vertex numbers.
- Graphs.Graph.constructor: every label starts as A, whereas in the source a vertex has no label
  until `partition` runs. The partitioner sets all labels before it reads any.
- Partitioner.KernighanLin.Partition: the unbounded `while True` (kl.py:79) is run for at most
  `maxPasses` committed passes. Stopping on its own is proved only for simple graphs and
  `maxPasses > |edges|`. The equation "final cost = initial cost - total gain" is also proved only for
  simple graphs.
- Gain.GainIsCutReduction: stated only for simple graphs. With a self-loop, or with a pair declared
  in both directions, D-values are taken over the de-duplicated edge lists while the cut cost counts
  every declared edge. The gain then need not equal the drop in cut cost.
- Passes.PrefixSumIsCutDrop and Passes.CommitEffect: their cut equations hold only for simple graphs,
  for the same reason.
- Partitioner.KernighanLin.Commit: requires every recorded vertex to be a vertex of the graph. Its
  only caller establishes this from the greedy property of the pass.
