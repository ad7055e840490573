# Graphia core, modelled in Dafny

This project models five pieces of Graphia, the graph visualisation tool:

- **The Louvain clustering transform** (`LouvainTransform::apply`). Every node starts alone in a community. Passes then move each node to the neighbouring community of best positive modularity gain, until a pass moves nothing. The graph is coarsened onto its communities, one node per community, with parallel edges merged and their weights summed. Rounds repeat until one moves no node. Each input node is then walked back through the recorded rounds. Clusters are numbered by size and the nodes are labelled "Cluster k".
  - The transform's captured state (graph, weights, communities, weighted degrees, community degrees, iterations) is the class `Louvain.LouvainRun`.
  - Its pure parts are in `LouvainGraph`, `LouvainMoves`, `LouvainCoarsen` and `LouvainRanking`.
- **`TabularData`**, the cell store the file parsers fill while loading a table. It is one row-major buffer of trimmed strings that grows as cells arrive in any order, moves existing rows apart when rows widen, reserves space by a progress-driven policy and can be read transposed. It is the class `TabularData.Table`.
- **`TableProxyModel`**, the proxy in front of the node attribute table. It covers:
  - hidden columns and the user's column order;
  - the ordered and unordered column maps;
  - the most-recently-used list of sort keys and the multi-key row comparison;
  - the sub-selected rows.

  It is the class `TableProxyModel.TableProxy`.
- **`VisualisationsBuilder`**, which applies visualisations one after another to node or edge visuals. Per channel (size, colour, text) it records which elements each visualisation changed. It then flags visualisations that later ones override, fully (error) or partly (warning). It is the class `VisualisationsBuilder.Builder`, specified by the functions `BuildSpec` and `OverrideAlerts`.
- **`QCPColumnAnnotations`**, the correlation plot's annotation rows. Each stored row is drawn as maximal runs of equal adjacent values. It is the class `ColumnAnnotations.ColumnAnnotationsPlot`.

Every method is proved against a specification function. The properties the program relies on are proved as lemmas about those functions. Examples:

- the community degree table always equals the sum of its members' degrees;
- a node moves exactly to the best positive-gain neighbour community;
- relabelling numbers communities 0..k-1 by first appearance;
- coarsening preserves total edge weight and creates no parallel edges;
- the final labels are shared exactly by nodes of one community, and larger communities get smaller numbers;
- growing a table keeps every stored cell at its (column, row);
- the comparison used for sorting is a strict order;
- the override alerts are exactly the overlapping pairs of applied visualisations;
- the runs drawn for a row are its unique segmentation into maximal runs.

`wrappers.dfy` holds an `Option` type, the list 0..n-1 and a set minimum, and `Decimals.Decimal`, the decimal rendering `QString::number` gives a natural number.

## Model

Source paths are abbreviated in the table:

- `louvaintransform.cpp` = `source/app/transform/transforms/louvaintransform.cpp`
- `tabulardata.cpp` = `source/shared/loading/tabulardata.cpp`
- `tableproxymodel.cpp` = `source/shared/plugins/tableproxymodel.cpp`
- `visualisationbuilder.h` = `source/app/ui/visualisations/visualisationbuilder.h`
- `qcpcolumnannotations.cpp` = `source/plugins/correlation/qcpcolumnannotations.cpp`

The cells themselves give the full path.

| member | source | states |
|---|---|---|
| Decimals.Decimal | source/app/transform/transforms/louvaintransform.cpp:321 | the decimal rendering of a number is a non-empty string of digits |
| Decimals.DecimalInjective | source/app/transform/transforms/louvaintransform.cpp:321 | distinct numbers render as distinct strings, so "Cluster %1" labels of distinct clusters differ |
| LouvainGraph.SumWeightsAppend | source/app/transform/transforms/louvaintransform.cpp:51-55 | the accumulated weight of two edge lists in sequence is the sum of their accumulated weights |
| LouvainGraph.SumWeightsFrame | source/app/transform/transforms/louvaintransform.cpp:133-139 | changing the weight of an edge outside a list leaves the list's summed weight unchanged |
| LouvainGraph.SumWeightsBump | source/app/transform/transforms/louvaintransform.cpp:139 | adding w to the weight of an edge listed once adds exactly w to the list's summed weight |
| LouvainGraph.AddDegree | source/app/transform/transforms/louvaintransform.cpp:65-69 | `add` raises the degree of the joined community by the node's weighted degree and leaves every other community's degree unchanged |
| LouvainGraph.RemoveDegree | source/app/transform/transforms/louvaintransform.cpp:71-75 | `remove` lowers the degree of the left community by the node's weighted degree and leaves every other community's degree unchanged |
| LouvainGraph.AddRemoveInverse | source/app/transform/transforms/louvaintransform.cpp:65-75 | `remove` after `add` (and `add` after `remove`) of the same node and community restores every degree |
| LouvainGraph.MemberSumUpdate | source/app/transform/transforms/louvaintransform.cpp:65-75 | changing one node's community or degree changes a community's member-degree sum only by that node's contribution |
| LouvainGraph.AddKeepsConsistent | source/app/transform/transforms/louvaintransform.cpp:65-69 | after `add` of a community-less node, every community's degree is still the sum of its members' weighted degrees |
| LouvainGraph.RemoveKeepsConsistent | source/app/transform/transforms/louvaintransform.cpp:71-75 | after `remove`, every community's degree is still the sum of its members' weighted degrees |
| LouvainGraph.SetDegreeKeepsConsistent | source/app/transform/transforms/louvaintransform.cpp:158-159 | setting the weighted degree of a node that has no community yet keeps the degree table consistent |
| LouvainGraph.EmptyConsistent | source/app/transform/transforms/louvaintransform.cpp:244-246 | the reset state (no communities, empty degree table) is consistent |
| LouvainGraph.EmptyMemberSum | source/app/transform/transforms/louvaintransform.cpp:244-246 | with no communities assigned, every community's member sum is 0 |
| LouvainGraph.NonTail | source/app/transform/transforms/louvaintransform.cpp:153-156 | the nodes the loops visit are exactly the listed nodes that are not tails, in order |
| LouvainGraph.Singletons | source/app/transform/transforms/louvaintransform.cpp:152-162 | the initial communities are assigned to exactly the non-tail nodes |
| LouvainGraph.SingletonsNumbering | source/app/transform/transforms/louvaintransform.cpp:152-162 | the i-th non-tail node starts in community i, so every node starts alone |
| LouvainMoves.AddEdge | source/app/transform/transforms/louvaintransform.cpp:197 | `neighbourCommunityWeights[c] += w` adds w under c, creates c if absent, and leaves other communities unchanged |
| LouvainMoves.NeighbourWeightsMeaning | source/app/transform/transforms/louvaintransform.cpp:183-198 | a community is a key exactly when some non-loop edge joins the node to a non-tail member of it; its weight is the summed weight of those edges |
| LouvainMoves.NeighbourKeysStep | source/app/transform/transforms/louvaintransform.cpp:184-198 | one more edge keeps the keys equal to the communities reached |
| LouvainMoves.NeighbourSumStep | source/app/transform/transforms/louvaintransform.cpp:184-198 | one more edge keeps each key's weight equal to the summed weight of the edges reaching it |
| LouvainMoves.ComputeNeighbourWeights | source/app/transform/transforms/louvaintransform.cpp:183-198 | the neighbour loop computes the neighbour community weights over the node's incident edges (meaning proved by NeighbourWeightsMeaning) |
| LouvainMoves.BestAmongStep | source/app/transform/transforms/louvaintransform.cpp:206-219 | one candidate further on, the running choice is still the best positive gain seen, the earliest on ties, or the current community |
| LouvainMoves.BestAmongAll | source/app/transform/transforms/louvaintransform.cpp:203-219 | the choice over all candidates is a best move: its gain beats 0 and every other candidate (smallest id among equals), or no candidate has positive gain and the node stays |
| LouvainMoves.WalkStep | source/app/transform/transforms/louvaintransform.cpp:206 | iterating the std::map visits the candidate communities in ascending order |
| LouvainMoves.ChooseCommunity | source/app/transform/transforms/louvaintransform.cpp:203-219 | the gain loop returns the best move (largest positive deltaQ, smallest id on ties, otherwise the current community) |
| LouvainCoarsen.FirstAppearances | source/app/transform/transforms/louvaintransform.cpp:104-117 | the coarse nodes are the communities of the non-tail nodes, each once, in order of first appearance |
| LouvainCoarsen.FirstAppearancesMembers | source/app/transform/transforms/louvaintransform.cpp:104-117 | a community is a coarse node exactly when some non-tail node is in it |
| LouvainCoarsen.FirstAppearancesGrow | source/app/transform/transforms/louvaintransform.cpp:104-117 | the coarse nodes found for a prefix of the node list are a prefix of those for the whole list |
| LouvainCoarsen.Relabelled | source/app/transform/transforms/louvaintransform.cpp:77-94 | relabelling assigns a new id to exactly the nodes that had a community |
| LouvainCoarsen.RelabelledMeaning | source/app/transform/transforms/louvaintransform.cpp:77-94 | the new ids are 0..k-1, each node's new id is the first-appearance rank of its old community, and two nodes share a new id exactly when they shared the old one |
| LouvainCoarsen.RelabelStart | source/app/transform/transforms/louvaintransform.cpp:79-80 | the relabel loop starts with an empty id map and next id 0 |
| LouvainCoarsen.RelabelSkip | source/app/transform/transforms/louvaintransform.cpp:84-85 | passing over a tail keeps the relabel loop's invariant |
| LouvainCoarsen.RelabelUnvisited | source/app/transform/transforms/louvaintransform.cpp:87 | a node the relabel loop has not reached still holds its old community |
| LouvainCoarsen.RelabelNew | source/app/transform/transforms/louvaintransform.cpp:89-90 | a community not yet in the id map gets the next id, and the invariant holds one node on |
| LouvainCoarsen.RelabelKnown | source/app/transform/transforms/louvaintransform.cpp:91-92 | a community already in the id map reuses its id, and the invariant holds one node on |
| LouvainCoarsen.RelabelDone | source/app/transform/transforms/louvaintransform.cpp:82-93 | after the last node the communities are the relabelled ones |
| LouvainCoarsen.FindEdge | source/app/transform/transforms/louvaintransform.cpp:135 | firstEdgeIdBetween returns an edge joining the two communities, or null exactly when none does |
| LouvainCoarsen.CoarseShapeWellFormed | source/app/transform/transforms/louvaintransform.cpp:96-145 | a coarse graph with edges inside its nodes, sound incidence and no parallel edges is well formed and has no edge at a tail |
| LouvainCoarsen.WithEdgeWithin | source/app/transform/transforms/louvaintransform.cpp:136-137 | a new coarse edge between two coarse nodes keeps every edge between coarse nodes |
| LouvainCoarsen.WithEdgeIncident | source/app/transform/transforms/louvaintransform.cpp:136-137 | adding a coarse edge keeps each node's incident edge list sound |
| LouvainCoarsen.WithEdgeNoParallel | source/app/transform/transforms/louvaintransform.cpp:136-137 | adding an edge only where none joins the pair keeps the coarse graph free of parallel edges |
| LouvainCoarsen.WithEdgeKeeps | source/app/transform/transforms/louvaintransform.cpp:136-137 | adding a coarse edge where none existed keeps the coarse graph's shape |
| LouvainCoarsen.BumpSum | source/app/transform/transforms/louvaintransform.cpp:139 | `newWeights[e] += w` on an existing coarse edge raises the total coarse weight by w |
| LouvainCoarsen.NewSum | source/app/transform/transforms/louvaintransform.cpp:136-139 | weighting a newly created coarse edge with w raises the total coarse weight by w |
| LouvainCoarsen.CoarseStepShape | source/app/transform/transforms/louvaintransform.cpp:130-139 | one fine edge keeps the coarse graph's shape |
| LouvainCoarsen.CoarseStepSum | source/app/transform/transforms/louvaintransform.cpp:130-139 | one fine edge of weight w raises the coarse total by exactly w, with weights only on coarse edges |
| LouvainCoarsen.CoarseEdgesNext | source/app/transform/transforms/louvaintransform.cpp:123-140 | the coarse edge loop one edge further on is one more step, the edge's ends having communities |
| LouvainCoarsen.CoarseEdgesKeep | source/app/transform/transforms/louvaintransform.cpp:123-140 | the coarse edge loop keeps the coarse graph's shape, and its total weight is the fine edges' total weight |
| LouvainCoarsen.CoarsenedMeaning | source/app/transform/transforms/louvaintransform.cpp:96-145 | the coarsened graph is well formed and has no tails; its nodes are exactly the communities, no two of its edges join the same pair, and the total edge weight is preserved |
| LouvainCoarsen.Coarsened | source/app/transform/transforms/louvaintransform.cpp:96-145 | the coarse nodes are the communities in first-appearance order, there are no tails, and there are no more coarse edges than fine ones |
| LouvainCoarsen.CoarseEdgesCount | source/app/transform/transforms/louvaintransform.cpp:96-145 | the coarse edge loop keeps the given nodes, adds no tails and creates at most one coarse edge per fine edge |
| LouvainCoarsen.EdgesBetweenMembers | source/app/transform/transforms/louvaintransform.cpp:119-140 | the fine edges between two communities are exactly the listed edges whose ends lie in them, either way round |
| LouvainCoarsen.EdgesBetweenSymmetric | source/app/transform/transforms/louvaintransform.cpp:119-140 | the fine edges between s and t are those between t and s, as firstEdgeIdBetween ignores direction |
| LouvainCoarsen.CoarseEdgesCovered | source/app/transform/transforms/louvaintransform.cpp:119-140 | after the edge loop, the communities of every fine edge are joined by a coarse edge |
| LouvainCoarsen.CarriedStep | source/app/transform/transforms/louvaintransform.cpp:130-139 | one fine edge keeps every coarse edge carrying the summed weight of the fine edges between its ends |
| LouvainCoarsen.CoarseEdgesCarried | source/app/transform/transforms/louvaintransform.cpp:119-140 | after the edge loop, every coarse edge joins a pair some fine edge runs between and carries those fine edges' summed weight |
| LouvainCoarsen.CoarsenedPairs | source/app/transform/transforms/louvaintransform.cpp:119-140 | two communities are joined by a coarse edge exactly when some fine edge runs between them, and that coarse edge's weight is the summed weight of those fine edges |
| LouvainRanking.Lookup | source/app/transform/transforms/louvaintransform.cpp:286 | a lookup in an iteration is null exactly when the id is absent from it |
| LouvainRanking.Compose | source/app/transform/transforms/louvaintransform.cpp:281-290 | walking through no iterations leaves the community unchanged, and a null community stays null |
| LouvainRanking.ComposeAppend | source/app/transform/transforms/louvaintransform.cpp:281-290 | walking through two runs of iterations is walking through the first, then the second |
| LouvainRanking.ComposeChained | source/app/transform/transforms/louvaintransform.cpp:279-291 | when each round's communities are the next round's nodes, a node of the first round walks through every round to a community of the last |
| LouvainRanking.Find | source/app/transform/transforms/louvaintransform.cpp:296 | finds the histogram entry of a community, or reports none exactly when there is no entry |
| LouvainRanking.BumpKeys | source/app/transform/transforms/louvaintransform.cpp:296 | `communityHistogram[c]++` keeps keys distinct and adds exactly c to them |
| LouvainRanking.BumpCount | source/app/transform/transforms/louvaintransform.cpp:296 | after counting one more node, each entry's count is that community's number of occurrences |
| LouvainRanking.HistogramMeaning | source/app/transform/transforms/louvaintransform.cpp:294-296 | the histogram has one entry per distinct community (null included), and each count is the number of nodes in that community |
| LouvainRanking.CountAbsent | source/app/transform/transforms/louvaintransform.cpp:294-296 | a community that is not a histogram key occurs nowhere |
| LouvainRanking.CountSizes | source/app/transform/transforms/louvaintransform.cpp:294-296 | the counting loop builds the histogram (meaning proved by HistogramMeaning) |
| LouvainRanking.InsertBySize | source/app/transform/transforms/louvaintransform.cpp:300-301 | inserting an entry into a list sorted by decreasing size keeps it sorted and adds exactly that entry |
| LouvainRanking.SortBySize | source/app/transform/transforms/louvaintransform.cpp:300-301 | the std::sort by `a.second > b.second`: sorted by decreasing size, and a permutation of the histogram |
| LouvainRanking.SortKeepsEntries | source/app/transform/transforms/louvaintransform.cpp:297-301 | sorting keeps exactly the histogram's entries, with distinct keys |
| LouvainRanking.ClusterNumbersKeys | source/app/transform/transforms/louvaintransform.cpp:304-310 | exactly the non-null communities get a cluster number |
| LouvainRanking.ClusterNumbersAt | source/app/transform/transforms/louvaintransform.cpp:304-310 | the community at sorted place i gets 1 plus the number of non-null communities before it |
| LouvainRanking.ClusterNumbersMeaning | source/app/transform/transforms/louvaintransform.cpp:303-310 | non-null communities are numbered 1..N without gaps, in sorted order |
| LouvainRanking.ClusterNumberRange | source/app/transform/transforms/louvaintransform.cpp:303-310 | a non-null sorted community's number lies in 1..N |
| LouvainRanking.ClusterNumberOrder | source/app/transform/transforms/louvaintransform.cpp:303-310 | of two non-null communities, the one sorted earlier gets the smaller number |
| LouvainRanking.LargerFirst | source/app/transform/transforms/louvaintransform.cpp:300-310 | a strictly larger community gets a strictly smaller cluster number |
| LouvainRanking.NumberClusters | source/app/transform/transforms/louvaintransform.cpp:303-310 | the numbering loop computes the cluster numbers (meaning proved by ClusterNumbersMeaning) |
| LouvainRanking.Labels | source/app/transform/transforms/louvaintransform.cpp:312-322 | exactly the nodes with a non-null community get a label |
| LouvainRanking.LabelsMeaning | source/app/transform/transforms/louvaintransform.cpp:312-322 | two labelled nodes share a label exactly when their communities have the same cluster number |
| LouvainRanking.MakeLabels | source/app/transform/transforms/louvaintransform.cpp:312-322 | the labelling loop writes "Cluster k" for every node with a community |
| LouvainRanking.Finals | source/app/transform/transforms/louvaintransform.cpp:295-296 | one final community (possibly null) per input node, in node order |
| LouvainRanking.EntrySorted | source/app/transform/transforms/louvaintransform.cpp:294-301 | each community of the nodes has exactly one sorted entry, carrying its true size |
| LouvainRanking.NumberingMeaning | source/app/transform/transforms/louvaintransform.cpp:293-310 | every community gets a number from 1; two communities share a number exactly when they are the same; a larger community gets a smaller number |
| LouvainRanking.NodeLabelsMeaning | source/app/transform/transforms/louvaintransform.cpp:293-322 | the labelled nodes are those with a community, and two share a label exactly when they share a community |
| LouvainRanking.NodeLabels | source/app/transform/transforms/louvaintransform.cpp:312-322 | a node is labelled exactly when it is listed and has a final community |
| Louvain.DegreesKnownAdd | source/app/transform/transforms/louvaintransform.cpp:158-161 | giving a node both its weighted degree and a community keeps every known degree equal to the node's incident weight |
| Louvain.MoveKeepsSettled | source/app/transform/transforms/louvaintransform.cpp:200-221 | `remove` then `add` of one node keeps the state settled: coverage, known degrees, consistent table |
| Louvain.MoveStep | source/app/transform/transforms/louvaintransform.cpp:200-221 | moving a node to its best move changes only that node's community and the two degree entries, and keeps the state settled |
| Louvain.StayKeepsTable | source/app/transform/transforms/louvaintransform.cpp:201-221 | removing a node and adding it back to the same community leaves the degree table unchanged |
| Louvain.InitSkip | source/app/transform/transforms/louvaintransform.cpp:155-156 | passing over a tail keeps the initialisation invariant |
| Louvain.InitAddNumbering | source/app/transform/transforms/louvaintransform.cpp:161 | the next non-tail node receives the next community number |
| Louvain.SingletonsNext | source/app/transform/transforms/louvaintransform.cpp:152-162 | the initial communities of one more node extend those of the shorter list by that node's number |
| Louvain.NonTailNext | source/app/transform/transforms/louvaintransform.cpp:152-162 | the non-tail nodes of one more node are those of the shorter list plus that node when it is no tail |
| Louvain.InitAddConsistent | source/app/transform/transforms/louvaintransform.cpp:158-161 | a node with no community, given its degree and a fresh community, keeps the degree table consistent |
| Louvain.InitAdd | source/app/transform/transforms/louvaintransform.cpp:158-161 | initialising a non-tail node keeps the initialisation invariant one node on |
| Louvain.InitUnvisited | source/app/transform/transforms/louvaintransform.cpp:158-159 | a node not yet reached has no weighted degree yet, as resetElements left it |
| Louvain.InitStart | source/app/transform/transforms/louvaintransform.cpp:244-246 | the initialisation invariant holds of the reset maps |
| Louvain.InitDone | source/app/transform/transforms/louvaintransform.cpp:152-162 | after initialisation every non-tail node is alone in its own community and the state is settled |
| Louvain.NotYetVisitedStep | source/app/transform/transforms/louvaintransform.cpp:176-228 | visiting node k leaves later nodes where the pass found them |
| Louvain.PassSkip | source/app/transform/transforms/louvaintransform.cpp:180-181 | passing over a tail keeps the pass invariant |
| Louvain.PassStep | source/app/transform/transforms/louvaintransform.cpp:183-224 | visiting a node keeps the pass invariant, and `improved` is set exactly when the node changed community |
| Louvain.PassMoved | source/app/transform/transforms/louvaintransform.cpp:223-224 | a node that moves sets `improved` and keeps the pass invariant |
| Louvain.PassStayed | source/app/transform/transforms/louvaintransform.cpp:200-224 | a node that stays leaves the whole state unchanged and is locally optimal |
| Louvain.RoundStep | source/app/transform/transforms/louvaintransform.cpp:250-258 | relabelling, recording and coarsening a settled state keeps the between-rounds invariant: well formed, total weight kept, rounds chained from the input's non-tail nodes |
| Louvain.Start | source/app/transform/transforms/louvaintransform.cpp:269-276 | the finalising step starts every node that is not a tail of the last graph in its own community |
| Louvain.Assign | source/app/transform/transforms/louvaintransform.cpp:283-286 | writing one node's community (or null) changes no other node's |
| Louvain.FinalCommunities | source/app/transform/transforms/louvaintransform.cpp:269-291 | after the rounds, walking a node back through them gives a community exactly when the node is no tail |
| Louvain.AddCoarseEdge | source/app/transform/transforms/louvaintransform.cpp:130-139 | the coarse edge loop's body adds the fine weight to the existing coarse edge, or to a new one |
| Louvain.LouvainRun.constructor | source/app/transform/transforms/louvaintransform.cpp:51-63 | the total weight is the edges' summed weight and the per-node state starts empty |
| Louvain.LouvainRun.Add | source/app/transform/transforms/louvaintransform.cpp:65-69 | the node's community becomes c and the community degrees follow AddDegree |
| Louvain.LouvainRun.Remove | source/app/transform/transforms/louvaintransform.cpp:71-75 | the node loses its community and the community degrees follow RemoveDegree |
| Louvain.LouvainRun.DegreeOf | source/app/transform/transforms/louvaintransform.cpp:158-159 | the edge loop sums the node's incident edge weights |
| Louvain.LouvainRun.InitVisit | source/app/transform/transforms/louvaintransform.cpp:153-162 | one node of initialisation keeps the initialisation invariant |
| Louvain.LouvainRun.Init | source/app/transform/transforms/louvaintransform.cpp:152-162 | every non-tail node is alone in its community, numbered in order, and the state is settled |
| Louvain.LouvainRun.MoveNode | source/app/transform/transforms/louvaintransform.cpp:183-224 | the node moves to its best move (or stays); `moved` is true exactly when its community changed; the state stays settled |
| Louvain.LouvainRun.PassVisit | source/app/transform/transforms/louvaintransform.cpp:176-228 | one node of a pass keeps the pass invariant |
| Louvain.LouvainRun.MovePass | source/app/transform/transforms/louvaintransform.cpp:176-228 | a pass keeps the state settled; `improved` is true exactly when some community changed; a pass that moves nothing leaves every node locally optimal |
| Louvain.LouvainRun.MoveNodes | source/app/transform/transforms/louvaintransform.cpp:147-235 | unless some node moved, every node stays alone in its community; on convergence no node has a positive-gain move |
| Louvain.LouvainRun.RelabelVisit | source/app/transform/transforms/louvaintransform.cpp:82-93 | one node of `relabel` keeps the relabel invariant |
| Louvain.LouvainRun.Relabel | source/app/transform/transforms/louvaintransform.cpp:77-94 | the communities become their first-appearance relabelling (meaning proved by RelabelledMeaning) |
| Louvain.LouvainRun.CoarseNodes | source/app/transform/transforms/louvaintransform.cpp:104-117 | the node loop creates one coarse node per distinct community, in first-appearance order |
| Louvain.LouvainRun.CoarseEdgeLoop | source/app/transform/transforms/louvaintransform.cpp:119-140 | the edge loop builds the coarse edges and their summed weights |
| Louvain.LouvainRun.Coarsen | source/app/transform/transforms/louvaintransform.cpp:96-145 | the graph and weights become the coarsened graph (meaning proved by CoarsenedMeaning) |
| Louvain.LouvainRun.Round | source/app/transform/transforms/louvaintransform.cpp:240-261 | a round keeps the between-rounds invariant and the history of converged rounds; unless moveNodes converged after moving a node, the graph, weights, iterations and history are unchanged; when nothing moved every node is alone and settled, and locally optimal if moveNodes converged; a converged round that moved nodes appends one iteration |
| Louvain.LouvainRun.Settle | source/app/transform/transforms/louvaintransform.cpp:244-248 | after the reset and moveNodes the state is settled; unless a node moved every node is alone; on convergence no node has a positive-gain move |
| Louvain.LouvainRun.Advance | source/app/transform/transforms/louvaintransform.cpp:250-258 | the relabelled communities are appended as the new iteration, the graph is coarsened onto them, and the converged round is appended to the history, keeping the invariant |
| Louvain.LouvainRun.Run | source/app/transform/transforms/louvaintransform.cpp:237-262 | the rounds keep the between-rounds invariant and the history; when the loop ends because a converged moveNodes moved nothing, every node is alone in its community, settled and locally optimal |
| Louvain.LouvainRun.StartCommunities | source/app/transform/transforms/louvaintransform.cpp:269-276 | every input node that is not a tail of the last graph becomes its own community |
| Louvain.LouvainRun.WalkNode | source/app/transform/transforms/louvaintransform.cpp:281-290 | a node's community is looked up in each iteration in turn (a null stays null); no other node changes |
| Louvain.LouvainRun.WalkBack | source/app/transform/transforms/louvaintransform.cpp:278-291 | each input node's community is walked through every iteration |
| Louvain.LouvainRun.Finalise | source/app/transform/transforms/louvaintransform.cpp:269-291 | each input node ends with its own id walked through the iterations; after the rounds, a tail has no community and every other node has its own id walked through the iterations, never dropping out |
| Louvain.EdgeWeights | source/app/transform/transforms/louvaintransform.cpp:33-49 | every edge weighs 1, or the attribute's value when weighted |
| Louvain.Apply | source/app/transform/transforms/louvaintransform.cpp:17-330 | "Invalid parameter" exactly when weighted without an attribute; otherwise the weights are 1 or the attribute's values; with clusters, the rounds form a chain of converged rounds from the input graph (Trace), the last round left every node alone and locally optimal, each node's final community is its id walked through the iterations (none for a tail), the labels are NodeLabels of those, exactly the non-tail nodes are labelled, and two share a label exactly when they share a final community |
| Louvain.TraceStep | source/app/transform/transforms/louvaintransform.cpp:250-258 | a round that converged on the current graph, relabelled and coarsened, extends the chain of rounds by its state and its iteration |
| Louvain.TraceFirst | source/app/transform/transforms/louvaintransform.cpp:237-248 | the first recorded round worked on the input graph and its weights |
| Louvain.Cluster | source/app/transform/transforms/louvaintransform.cpp:237-291 | when the rounds are done: the chain of converged rounds, the last round settled with every node alone and locally optimal, and each node's final community its id walked through the iterations, exactly the non-tail nodes having one |
| Louvain.ClusterLabels | source/app/transform/transforms/louvaintransform.cpp:293-322 | the histogram, the sort by size, the numbering and the labelling loops together yield NodeLabels of the final communities |
| TabularData.TrimFront | source/shared/loading/tabulardata.cpp:113 | removes exactly the leading white space: the result is a suffix that starts with no space, and what was cut is all space |
| TabularData.TrimBack | source/shared/loading/tabulardata.cpp:113 | removes exactly the trailing white space |
| TabularData.Trimmed | source/shared/loading/tabulardata.cpp:113 | QString::trimmed: the result neither starts nor ends with white space and is no longer than the input |
| TabularData.TrimmedIsSlice | source/shared/loading/tabulardata.cpp:113 | the trimmed value is one contiguous slice of the input, with only white space around it |
| TabularData.TrimmedKeepsClean | source/shared/loading/tabulardata.cpp:113 | a value without surrounding white space is stored unchanged |
| TabularData.TrimmedIdempotent | source/shared/loading/tabulardata.cpp:113 | trimming twice is trimming once |
| TabularData.RowStartIsProduct | source/shared/loading/tabulardata.cpp:43-45 | row r of width w starts at r * w |
| TabularData.RowStartMono | source/shared/loading/tabulardata.cpp:43-45 | later rows start later |
| TabularData.RowStartWider | source/shared/loading/tabulardata.cpp:72-80 | a row starts no earlier in a wider layout, so rows only move towards the end |
| TabularData.Area | source/shared/loading/tabulardata.cpp:64 | newSize = columns * rows is the buffer length of the grid |
| TabularData.CellInBounds | source/shared/loading/tabulardata.cpp:38-48 | a cell inside the grid has an index inside the buffer |
| TabularData.CellBelowRows | source/shared/loading/tabulardata.cpp:72-80 | a cell in a row past the first h rows lies past those rows' part of the buffer |
| TabularData.CellInjective | source/shared/loading/tabulardata.cpp:38-48 | distinct (column, row) pairs of a grid have distinct indices |
| TabularData.GridGrows | source/shared/loading/tabulardata.cpp:62-64 | growing both dimensions never shrinks the buffer |
| TabularData.ReserveSize | source/shared/loading/tabulardata.cpp:86-110 | reserves at least the need; below 10% progress twice the need; from 10% at most 102/10 of the need; from 102% exactly the need |
| TabularData.EstimateBounds | source/shared/loading/tabulardata.cpp:99 | the estimate (102 * newSize) / progressHint is at most 10.2 times the need, and at most the need from a hint of 102 |
| TabularData.NewCapacity | source/shared/loading/tabulardata.cpp:66-110 | capacity never shrinks and always covers the new size; it is unchanged when the size fits, and set by the reservation policy when unshifted growth overflows it |
| TabularData.Table.constructor | source/shared/loading/tabulardata.cpp:121-127 | a new table is empty, untransposed, with nothing reserved |
| TabularData.Table.Moved | source/shared/loading/tabulardata.cpp:3-11 | move construction takes over the other table's cells, shape and orientation and resets the other table |
| TabularData.Table.MoveAssign | source/shared/loading/tabulardata.cpp:13-26 | move assignment does the same, and changes nothing when assigned to itself |
| TabularData.Table.Reset | source/shared/loading/tabulardata.cpp:121-127 | reset clears the cells, the shape and the orientation, and keeps the reservation |
| TabularData.Table.Reserve | source/shared/loading/tabulardata.cpp:28-31 | the capacity becomes at least columns * rows, and never shrinks |
| TabularData.Table.ShrinkToFit | source/shared/loading/tabulardata.cpp:116-119 | the capacity becomes the number of stored cells |
| TabularData.Table.SetTransposed | source/shared/loading/tabulardata.cpp:38-58 | toggling the orientation swaps the reported columns and rows, and cell (c, r) reads what (r, c) read before |
| TabularData.Table.ShapeMatchesBuffer | source/shared/loading/tabulardata.cpp:50-58 | numColumns * numRows equals the number of stored cells in either orientation |
| TabularData.Table.IsEmpty | source/shared/loading/tabulardata.cpp:33-36 | the table is empty exactly when it has no column or no row |
| TabularData.Table.Index | source/shared/loading/tabulardata.cpp:38-48 | a cell inside the table as read has an index inside the buffer |
| TabularData.Table.IndexInjective | source/shared/loading/tabulardata.cpp:38-48 | distinct cells of the table as read are stored at distinct indices |
| TabularData.RowStartSwap | source/shared/loading/tabulardata.cpp:50-58 | r rows of width w take as many cells as w rows of width r, so either orientation covers the buffer |
| TabularData.Table.NumColumns | source/shared/loading/tabulardata.cpp:50-53 | the columns as read: that many columns of the rows as read fill exactly the stored cells |
| TabularData.Table.NumRows | source/shared/loading/tabulardata.cpp:55-58 | the rows as read: that many rows as wide as the table as read fill exactly the stored cells |
| TabularData.Table.ValueAt | source/shared/loading/tabulardata.cpp:129-132 | reads cell (c, r) of the row-major buffer, or cell (r, c) when transposed; the index lies inside the buffer |
| TabularData.Table.SetValueAt | source/shared/loading/tabulardata.cpp:60-114 | the grid grows to take in (column, row); that cell reads the trimmed value; every other stored cell keeps its (column, row) and new cells are empty; the capacity follows the reservation policy |
| TabularData.Table.Store | source/shared/loading/tabulardata.cpp:113 | writes exactly the one cell at (column, row) |
| TabularData.Table.Grow | source/shared/loading/tabulardata.cpp:62-110 | the shape grows to include (column, row), cells keep their (column, row), and the capacity is as NewCapacity says |
| TabularData.Table.Regrow | source/shared/loading/tabulardata.cpp:66-112 | the buffer is regrown to the new shape with every old cell at its old (column, row) and empty strings elsewhere |
| TabularData.Table.ShiftRows | source/shared/loading/tabulardata.cpp:72-80 | each of the first h rows moves from width w to width w2, with empty cells after it and after the last row |
| TabularData.Table.ShiftRow | source/shared/loading/tabulardata.cpp:74-79 | one turn of the loop moves one row and keeps the loop invariant |
| TabularData.Table.MoveBackward | source/shared/loading/tabulardata.cpp:77-79 | std::move_backward moves the range to end at dLast and leaves empty strings in the cells it vacated |
| TabularData.ShiftingStart | source/shared/loading/tabulardata.cpp:72 | the shifting invariant holds before the first (last-row) move |
| TabularData.ShiftingMove | source/shared/loading/tabulardata.cpp:74-79 | the cells row o moves over are empty, so the move is a plain relocation |
| TabularData.ShiftingStep | source/shared/loading/tabulardata.cpp:72-80 | after row o moves, the shifting invariant holds for row o - 1 |
| TabularData.ShiftedRow | source/shared/loading/tabulardata.cpp:74-79 | the moved row lands at its place for width w2, followed by empty cells |
| TabularData.ShiftedBefore | source/shared/loading/tabulardata.cpp:74-79 | moving row o leaves earlier rows untouched and empties the gap |
| TabularData.ShiftedLater | source/shared/loading/tabulardata.cpp:74-79 | moving row o leaves later (already moved) rows and the tail untouched |
| TabularData.ShiftingDone | source/shared/loading/tabulardata.cpp:72-80 | when the loop ends, every row sits at its place for width w2 with empty cells after it |
| TabularData.GrownCellsShifted | source/shared/loading/tabulardata.cpp:66-84 | after the rows move apart, the buffer is the old grid regrown |
| TabularData.GrownCellsInPlace | source/shared/loading/tabulardata.cpp:66-112 | when no row moves (same width, no row, or one row), padding at the end regrows the grid |
| TabularData.RegrownWrite | source/shared/loading/tabulardata.cpp:112-113 | writing the new cell leaves every other cell as the regrowth placed it |
| Collections.Range | source/shared/plugins/tableproxymodel.cpp:138-139 | std::iota gives 0, 1, ..., n - 1 (also the ids of new coarse edges, in creation order) |
| TableProxyModel.SetDifference | source/shared/plugins/tableproxymodel.cpp:142 | keeps exactly the elements of the order that are not hidden |
| TableProxyModel.SetDifferenceSnoc | source/shared/plugins/tableproxymodel.cpp:142 | the difference is an order-preserving filter: one more element extends it by that element when kept |
| TableProxyModel.SetDifferenceCounts | source/shared/plugins/tableproxymodel.cpp:142 | each kept value occurs as often as in the order; hidden ones never |
| TableProxyModel.SetDifferenceIncreasing | source/shared/plugins/tableproxymodel.cpp:142 | removing hidden columns from an ascending list leaves it ascending |
| TableProxyModel.VisibleExtremes | source/shared/plugins/tableproxymodel.cpp:28-32 | with no column hidden every source column shows; with every column hidden none does |
| TableProxyModel.VisibleColumns | source/shared/plugins/tableproxymodel.cpp:117-121 | the proxy's columns are ascending and are exactly the non-hidden source columns |
| TableProxyModel.OrderedMatchesVisible | source/shared/plugins/tableproxymodel.cpp:135-143 | a column order that rearranges all columns, filtered, has the proxy's columns and column count |
| TableProxyModel.ProxyToSourceColumns | source/shared/plugins/tableproxymodel.cpp:114-121 | the first loop lists the accepted source columns in ascending order |
| TableProxyModel.InvertColumns | source/shared/plugins/tableproxymodel.cpp:123-130 | the second loop inverts the list: each listed source column maps back to its proxy position, and every other column maps to -1 |
| TableProxyModel.Insert | source/shared/plugins/tableproxymodel.cpp:105 | inserting into an ascending list keeps it ascending and adds exactly the element |
| TableProxyModel.SortColumns | source/shared/plugins/tableproxymodel.cpp:105 | std::sort of the hidden columns: ascending, and a permutation |
| TableProxyModel.FindColumn | source/shared/plugins/tableproxymodel.cpp:177-181 | std::find_if returns the first key on the column, or the end exactly when none is |
| TableProxyModel.FindKey | source/shared/plugins/tableproxymodel.cpp:177-181 | the search loop finds what FindColumn specifies |
| TableProxyModel.OthersAppend | source/shared/plugins/tableproxymodel.cpp:185-191 | the keys on other columns of a joined list are those of its parts |
| TableProxyModel.RemoveKeepsOthers | source/shared/plugins/tableproxymodel.cpp:185-189 | erasing the column's key keeps every other key, in order |
| TableProxyModel.RemoveKeepsUnique | source/shared/plugins/tableproxymodel.cpp:185-189 | erasing a key keeps the columns distinct and removes the erased column |
| TableProxyModel.ConsKeepsUnique | source/shared/plugins/tableproxymodel.cpp:191 | emplace_front of a new column keeps columns distinct |
| TableProxyModel.MoveToFrontKeys | source/shared/plugins/tableproxymodel.cpp:170-191 | the column goes first with its old direction (ascending if new); other keys keep their relative order; columns stay distinct |
| TableProxyModel.AsWrittenComparesWrongColumn | source/shared/plugins/tableproxymodel.cpp:253-257 | with a hidden column before the sort column, the comparison as written reads the wrong column and orders two rows the other way round |
| TableProxyModel.BeforeStrict | source/shared/plugins/tableproxymodel.cpp:259-275 | the value order is irreflexive, asymmetric and total on distinct values; invalid values come after valid ones |
| TableProxyModel.BeforeTransitive | source/shared/plugins/tableproxymodel.cpp:259-275 | the value order is transitive |
| TableProxyModel.LexLessIrreflexive | source/shared/plugins/tableproxymodel.cpp:246-279 | no row sorts before itself |
| TableProxyModel.LexLessTransitive | source/shared/plugins/tableproxymodel.cpp:246-279 | if row a sorts before b and b before c, then a sorts before c; with irreflexivity, the comparison is a strict order |
| TableProxyModel.LexLessAsymmetric | source/shared/plugins/tableproxymodel.cpp:246-279 | if a sorts before b, b does not sort before a; the comparison fails in one direction exactly when it fails in the other |
| TableProxyModel.Flip | source/shared/plugins/tableproxymodel.cpp:268-275 | every key with its direction reversed |
| TableProxyModel.LexLessFlip | source/shared/plugins/tableproxymodel.cpp:268-275 | reversing every direction compares the rows the other way round |
| TableProxyModel.LexLess | source/shared/plugins/tableproxymodel.cpp:246-279 | the comparison is defined whenever every key's column lies inside the source-to-proxy map |
| TableProxyModel.LexLessAsWritten | source/shared/plugins/tableproxymodel.cpp:246-279 | as written, the comparison is likewise defined whenever every key's column lies inside the map |
| TableProxyModel.RowsOf | source/shared/plugins/tableproxymodel.cpp:60-62 | the sub-selected rows are exactly the rows of the selection's indexes |
| TableProxyModel.TableProxy.constructor | source/shared/plugins/tableproxymodel.cpp:97-101 | starts with nothing hidden, no order, no sort keys and no sub-selection |
| TableProxyModel.TableProxy.SortColumn | source/shared/plugins/tableproxymodel.cpp:162-168 | the front key's column, or -1 exactly when there is no key |
| TableProxyModel.TableProxy.SortOrder_ | source/shared/plugins/tableproxymodel.cpp:198-204 | the front key's direction, or descending when there is no key |
| TableProxyModel.TableProxy.FilterAcceptsColumn | source/shared/plugins/tableproxymodel.cpp:28-32 | a source column is accepted exactly when it is not hidden, that is, when it is one of the proxy's columns |
| TableProxyModel.TableProxy.ColumnCount | source/shared/plugins/tableproxymodel.cpp:84-88 | the accepted columns: at most the source's count, all of it when every column is accepted, 0 when none is |
| TableProxyModel.TableProxy.SetSortColumn | source/shared/plugins/tableproxymodel.cpp:170-196 | a negative or current column changes nothing; otherwise the column moves to the front with its earlier direction (ascending if new), and keys stay distinct |
| TableProxyModel.TableProxy.SetSortOrder | source/shared/plugins/tableproxymodel.cpp:206-215 | with keys and a new direction, only the front key's direction changes; otherwise nothing |
| TableProxyModel.TableProxy.CalculateOrderedProxySourceMapping | source/shared/plugins/tableproxymodel.cpp:133-154 | an order of the wrong length is replaced by the identity, and the ordered map is the order without hidden columns |
| TableProxyModel.TableProxy.CalculateUnorderedSourceProxyColumnMapping | source/shared/plugins/tableproxymodel.cpp:111-131 | each shown source column maps to its proxy position; hidden ones map to -1 |
| TableProxyModel.TableProxy.InvalidateFilter | source/shared/plugins/tableproxymodel.cpp:217-226 | both maps are rebuilt from the current hidden columns and order |
| TableProxyModel.TableProxy.SetHiddenColumns | source/shared/plugins/tableproxymodel.cpp:103-109 | the hidden columns are the given ones, sorted, and the maps are rebuilt |
| TableProxyModel.TableProxy.SetColumnOrder | source/shared/plugins/tableproxymodel.cpp:156-160 | the order is stored (the identity if its length is wrong) and the maps are rebuilt |
| TableProxyModel.TableProxy.MapOrderedToSourceColumn | source/shared/plugins/tableproxymodel.cpp:82-95 | -1 past the last column or while the ordered map disagrees with the column count; otherwise the ordered map's entry; a failure exactly for a negative position reaching `at` |
| TableProxyModel.TableProxy.MapOrderedIsOneToOne | source/shared/plugins/tableproxymodel.cpp:82-95 | with current maps, each ordered position shows a distinct, non-hidden source column |
| TableProxyModel.TableProxy.LessThan | source/shared/plugins/tableproxymodel.cpp:246-279 | the key loop compares the rows by the first key whose values differ, a descending key swapping them; rows equal on every key are not less |
| TableProxyModel.TableProxy.SetSubSelection | source/shared/plugins/tableproxymodel.cpp:54-68 | stores the selection; the sub-selected rows are exactly its rows, and the class invariant holds |
| TableProxyModel.TableProxy.IsSubSelected | source/shared/plugins/tableproxymodel.cpp:36-37 | data(SubSelectedRole) is true exactly when some index of the sub-selection lies on the index's row |
| VisualisationsBuilder.ApplyAt | source/app/ui/visualisations/visualisationbuilder.h:49-64 | `apply` keeps the record lists' shape and the applied count |
| VisualisationsBuilder.ApplyAtRecords | source/app/ui/visualisations/visualisationbuilder.h:53-63 | the element takes the new visual; each channel's flag says exactly whether its part changed; nothing else moves |
| VisualisationsBuilder.InsertByRank | source/app/ui/visualisations/visualisationbuilder.h:191-195 | inserting into a list sorted by collation rank keeps it sorted and adds exactly the value |
| VisualisationsBuilder.SortByRank | source/app/ui/visualisations/visualisationbuilder.h:191-195 | the shared values sorted by collation rank, as a permutation |
| VisualisationsBuilder.SortKeepsValues | source/app/ui/visualisations/visualisationbuilder.h:184-195 | sorting keeps exactly the shared values |
| VisualisationsBuilder.NumberMap | source/app/ui/visualisations/visualisationbuilder.h:197-203 | every sorted value, and only those, maps to a non-empty number string |
| VisualisationsBuilder.NumberMapNumbers | source/app/ui/visualisations/visualisationbuilder.h:197-203 | distinct shared values are numbered 0, 1, 2, ... in sorted order, no two alike |
| VisualisationsBuilder.NumberMapAt | source/app/ui/visualisations/visualisationbuilder.h:197-203 | the k-th sorted value maps to the number k |
| VisualisationsBuilder.NumberShared | source/app/ui/visualisations/visualisationbuilder.h:197-203 | the numbering loop builds the number map |
| VisualisationsBuilder.Shown | source/app/ui/visualisations/visualisationbuilder.h:214-216 | an empty value stays empty and a non-empty one stays non-empty; without shared values it is unchanged |
| VisualisationsBuilder.ApplyEach | source/app/ui/visualisations/visualisationbuilder.h:146-219 | the element loop changes only the visuals and this build's record, and leaves skipped and unlisted elements untouched |
| VisualisationsBuilder.LookUpValue | source/app/ui/visualisations/visualisationbuilder.h:214-216 | the value handed to the channel: the shared-value number, or the value itself |
| VisualisationsBuilder.Appended | source/app/ui/visualisations/visualisationbuilder.h:114-115 | each build adds one blank record per channel |
| VisualisationsBuilder.BuildSpec | source/app/ui/visualisations/visualisationbuilder.h:109-228 | a build adds one record per channel under its index and changes no earlier record; with the count advanced on every path the records stay counted; an empty element list yields an error alert |
| VisualisationsBuilder.CountsMeaning | source/app/ui/visualisations/visualisationbuilder.h:78-93 | bothSet <= sourceSet; bothSet > 0 exactly when the later record overlaps the earlier; bothSet == sourceSet exactly when it covers it |
| VisualisationsBuilder.PairAlertsMeaning | source/app/ui/visualisations/visualisationbuilder.h:91-103 | a pair yields an alert exactly when they overlap: an error when fully overridden, otherwise a warning |
| VisualisationsBuilder.RowAlertsMembers | source/app/ui/visualisations/visualisationbuilder.h:75-104 | the j loop's alerts are exactly those earned by later records |
| VisualisationsBuilder.ChannelAlertsMembers | source/app/ui/visualisations/visualisationbuilder.h:71-105 | the i loop's alerts are exactly those of the overlapping pairs |
| VisualisationsBuilder.AlertsUpToMembers | source/app/ui/visualisations/visualisationbuilder.h:69-106 | the channel loop's alerts are exactly those of some channel |
| VisualisationsBuilder.AlertsUpToStep | source/app/ui/visualisations/visualisationbuilder.h:69-106 | one channel further, the alerts are those of the earlier channels plus this one |
| VisualisationsBuilder.ChannelFlagsMeaning | source/app/ui/visualisations/visualisationbuilder.h:71-105 | an alert of a channel is that of some applied pair p < q that overlaps |
| VisualisationsBuilder.OverrideAlertsMeaning | source/app/ui/visualisations/visualisationbuilder.h:67-107 | findOverrideAlerts flags exactly the applied visualisations some later applied one overlaps on some channel: an error when fully overridden there, otherwise a warning |
| VisualisationsBuilder.CountOverlap | source/app/ui/visualisations/visualisationbuilder.h:78-89 | the counting loop yields bothSet and sourceSet |
| VisualisationsBuilder.ChannelOverrideAlerts | source/app/ui/visualisations/visualisationbuilder.h:71-105 | the i loop yields the channel's alerts |
| VisualisationsBuilder.RowOverrideAlerts | source/app/ui/visualisations/visualisationbuilder.h:75-104 | the j loop yields record i's alerts, warning or error by the counts |
| VisualisationsBuilder.NoRangeBuild | source/app/ui/visualisations/visualisationbuilder.h:138-142 | a range-requiring channel on a numeric attribute whose min equals max stops with a warning after adding the records |
| VisualisationsBuilder.TextBuild | source/app/ui/visualisations/visualisationbuilder.h:174-219 | a string build without shared values writes each element's text through the channel |
| VisualisationsBuilder.Scenario | source/app/ui/visualisations/visualisationbuilder.h:117-227 | three builds leave three records per channel |
| VisualisationsBuilder.TextStepRecords | source/app/ui/visualisations/visualisationbuilder.h:206-219 | a text build writes the text and flags only the text channel, in the record numbered by the count |
| VisualisationsBuilder.FirstBuildRecords | source/app/ui/visualisations/visualisationbuilder.h:138-142 | the numeric build without a range leaves blank records and a warning |
| VisualisationsBuilder.AsWrittenSecond | source/app/ui/visualisations/visualisationbuilder.h:227 | as written, the second build records its change in record 0, the first build's |
| VisualisationsBuilder.AsWrittenThird | source/app/ui/visualisations/visualisationbuilder.h:227 | as written, the third build records its change in record 1 |
| VisualisationsBuilder.CorrectedSecond | source/app/ui/visualisations/visualisationbuilder.h:114-121 | counting the early return, the second build records its change in its own record 1 |
| VisualisationsBuilder.CorrectedThird | source/app/ui/visualisations/visualisationbuilder.h:114-121 | counting the early return, the third build records its change in its own record 2 |
| VisualisationsBuilder.ScenarioAsWritten | source/app/ui/visualisations/visualisationbuilder.h:109-228 | the records the scenario leaves as written |
| VisualisationsBuilder.ScenarioCorrected | source/app/ui/visualisations/visualisationbuilder.h:109-228 | the records the scenario leaves with the early returns counted |
| VisualisationsBuilder.AsWrittenMisattributesOverride | source/app/ui/visualisations/visualisationbuilder.h:138-142 | as written, the override is blamed on visualisation 0; counting early returns blames visualisation 1 |
| VisualisationsBuilder.SingleElementPair | source/app/ui/visualisations/visualisationbuilder.h:78-103 | with one element, a pair is flagged exactly when both set it, and then as an error |
| VisualisationsBuilder.ThreeChannels | source/app/ui/visualisations/visualisationbuilder.h:69-106 | the alerts are the size channel's, then the colour channel's, then the text channel's |
| VisualisationsBuilder.TwoApplied | source/app/ui/visualisations/visualisationbuilder.h:71-77 | with two applied records, the alerts are those of their single pair |
| VisualisationsBuilder.ThreeApplied | source/app/ui/visualisations/visualisationbuilder.h:71-77 | with three applied records, the alerts are those of the pairs (0,1), (0,2), (1,2) in that order |
| VisualisationsBuilder.AsWrittenAlerts | source/app/ui/visualisations/visualisationbuilder.h:67-107 | the as-written records yield one error on visualisation 0 |
| VisualisationsBuilder.CorrectedAlerts | source/app/ui/visualisations/visualisationbuilder.h:67-107 | the corrected records yield one error on visualisation 1 |
| VisualisationsBuilder.Builder.constructor | source/app/ui/visualisations/visualisationbuilder.h:23-27 | starts with the given elements and visuals, no records, and an applied count of 0 |
| VisualisationsBuilder.Builder.Apply | source/app/ui/visualisations/visualisationbuilder.h:49-64 | the new state is ApplyAt with the channel's new visual |
| VisualisationsBuilder.Builder.ApplyToElements | source/app/ui/visualisations/visualisationbuilder.h:146-219 | the element loop leaves the state ApplyEach describes |
| VisualisationsBuilder.Builder.ApplyStrings | source/app/ui/visualisations/visualisationbuilder.h:174-221 | the string branch numbers the sorted shared values, reports them, and visits the elements |
| VisualisationsBuilder.Builder.Build | source/app/ui/visualisations/visualisationbuilder.h:109-228 | build, with the count advanced on every path: the new state and info are BuildSpec's, and the records stay counted |
| VisualisationsBuilder.Builder.FindOverrideAlerts | source/app/ui/visualisations/visualisationbuilder.h:67-107 | returns the override alerts (meaning proved by OverrideAlertsMeaning) |
| ColumnAnnotations.RowValues | source/plugins/correlation/qcpcolumnannotations.cpp:121-123 | the values a row shows, one per index, each the annotation's value at that index |
| ColumnAnnotations.Extend | source/plugins/correlation/qcpcolumnannotations.cpp:121-135 | a cell equal to the pending value widens the last run; otherwise it starts a new one |
| ColumnAnnotations.Segments | source/plugins/correlation/qcpcolumnannotations.cpp:103-137 | a row has no runs exactly when it has no values |
| ColumnAnnotations.ExtendTiles | source/plugins/correlation/qcpcolumnannotations.cpp:121-135 | one more cell keeps the runs tiling the row without gaps |
| ColumnAnnotations.ExtendHolds | source/plugins/correlation/qcpcolumnannotations.cpp:121-135 | one more cell keeps every run holding its value |
| ColumnAnnotations.ExtendAlternates | source/plugins/correlation/qcpcolumnannotations.cpp:125-131 | one more cell keeps neighbouring runs different |
| ColumnAnnotations.ExtendSegmentation | source/plugins/correlation/qcpcolumnannotations.cpp:121-135 | one more cell keeps the runs a maximal-run segmentation |
| ColumnAnnotations.SegmentsAreMaximalRuns | source/plugins/correlation/qcpcolumnannotations.cpp:103-137 | the drawn runs tile the row, each holds one value, and neighbours differ |
| ColumnAnnotations.LastRunIff | source/plugins/correlation/qcpcolumnannotations.cpp:137 | only the last run reaches the end of the row |
| ColumnAnnotations.RunNotWider | source/plugins/correlation/qcpcolumnannotations.cpp:103-137 | of two segmentations whose i-th runs start together, neither's run is wider |
| ColumnAnnotations.SegmentationUnique | source/plugins/correlation/qcpcolumnannotations.cpp:103-137 | the maximal-run segmentation of a row is unique |
| ColumnAnnotations.ExpandAppend | source/plugins/correlation/qcpcolumnannotations.cpp:127 | drawing one more run appends its cells |
| ColumnAnnotations.Repeat | source/plugins/correlation/qcpcolumnannotations.cpp:127 | a run of width n draws n cells, each holding the run's value |
| ColumnAnnotations.ExpandExtend | source/plugins/correlation/qcpcolumnannotations.cpp:121-135 | one more cell appends that cell to what the runs draw |
| ColumnAnnotations.ExpandSegments | source/plugins/correlation/qcpcolumnannotations.cpp:121-137 | drawing the runs cell by cell reproduces the row |
| ColumnAnnotations.PendingStep | source/plugins/correlation/qcpcolumnannotations.cpp:123-134 | one cell of the loop: equal to the pending value it widens it; otherwise the pending run is rendered and a new one starts |
| ColumnAnnotations.SegmentRow | source/plugins/correlation/qcpcolumnannotations.cpp:105-137 | the run loop of a non-empty row renders the segmentation of its values, at least one run |
| ColumnAnnotations.DrawRow | source/plugins/correlation/qcpcolumnannotations.cpp:103-137 | the runs drawn for one stored row, none when it has no indices |
| ColumnAnnotations.ColumnAnnotationsPlot.constructor | source/plugins/correlation/qcpcolumnannotations.cpp:23-25 | starts with no rows |
| ColumnAnnotations.ColumnAnnotationsPlot.SetData | source/plugins/correlation/qcpcolumnannotations.cpp:45-49 | `emplace` inserts the row at y only when y has none; an existing row is kept |
| ColumnAnnotations.ColumnAnnotationsPlot.Draw | source/plugins/correlation/qcpcolumnannotations.cpp:93-139 | every stored row, in ascending y, drawn as its runs; rows without indices are skipped |

## Left out

- Louvain resolution: the granularity-to-resolution conversion (log10 and pow, louvaintransform.cpp:19-29) is floating point. The resolution is a parameter.
- Louvain weights: weights are natural numbers and gains are `real`s. Floating-point rounding is not modelled. Neither are negative attribute values.
- Louvain community degrees: the degree table is a map to `int`. The program stores double sums in an `int` map, which truncates fractional weights. With natural weights nothing is truncated.
- Louvain zero total weight: deltaQ divides by the total weight. A total weight of 0 is modelled as "no move", which is what the NaN comparison in the program amounts to.
- Louvain.LouvainRun.MoveNodes: runs at most `fuel` passes. A moveNodes cut short by that bound is not converged; its round records nothing, and Louvain.LouvainRun.Run stops there with `done` false. Run also runs at most `rounds` rounds. `Louvain.Apply` reports `Unfinished` in both cases. Termination of the unbounded do-while loops is not proved.
- Louvain.Apply: requires that no edge touches a tail node. For such an edge the program hands a null community id to the graph, and that graph code is not part of this model.
- Louvain cancellation, progress reporting and phase names are not modelled. Neither is the attribute creation at louvaintransform.cpp:324-329 (name, description, flags). The result is the label map it would expose.
- Louvain community ids: `CommunityId` reuses `NodeId`, and the element arrays are modelled as maps from natural numbers.
- Louvain graph internals: MutableGraph is not part of this model. `firstEdgeIdBetween` is treated as unordered in its two ends. New coarse edges take ids 0, 1, 2, ... in creation order. `numericValueOf` is a given map.
- LouvainRanking.CountSizes: builds the histogram in order of first appearance, not std::map's ascending key order. With the unstable std::sort, equal-size communities are numbered in an unspecified order. `NumberingMeaning` states only what holds for any tie order.
- VisualisationsBuilder.SortByRank: the numeric-mode collator can rank two different strings equal ("1" and "01"), and std::sort then orders them unspecifiedly. The model's insertion sort fixes one order, so which of two equal-ranked values gets which number in NumberMapNumbers is the model's choice.
- TabularData.Table.SetValueAt: requires, for a transposed table, that the cell lie inside the transposed grid. This is the `Q_ASSERT` in `index`. In a release build the unchecked index either throws from `at` or, when it still falls inside the buffer, silently writes a different cell, depending on the coordinates.
- TabularData.Table.ValueAt: requires the cell to lie inside the table as read. Outside it the program's `at` throws std::out_of_range, which is not modelled.
- TabularData: QString's move assignment is modelled as a swap, so std::move_backward leaves empty strings behind. The exact amount std::vector reserves when `resize` outgrows the capacity is not modelled; NewCapacity states only that it fits.
- TableProxyModel: the locale-aware collator and QVariant type dispatch are replaced by integer keys compared by `<`, with invalid values last, as Qt's variant comparison puts them. `filterAcceptsRow`, the forwarding branch of `data` (tableproxymodel.cpp:39-51), `buildRowSelectionRange`, `mapToSourceRow` and the header model are not modelled because they forward to Qt's model classes. Emitted signals are not modelled.
- TableProxyModel.SetDifference: `u::setDifference` is modelled as an order-preserving filter. The container helpers are not part of this model.
- VisualisationsBuilder: numeric normalisation and inversion (visualisationbuilder.h:154-167) are floating point. The channel is handed the element, and `findRangeforElements` is the attribute's given min and max. Colours and channel internals are abstract functions.
- VisualisationsBuilder.Builder.Build: requires every non-empty value of a visualised element to be among the shared values, as `m.at` demands.
- ColumnAnnotations: pixel geometry, clipping, colours, fonts and text fitting (`renderRect`, `selectTest`, the axis ranges) are not modelled. A drawn run is its (left, width, value) with the row and its selection flag.
- ColumnAnnotations.ColumnAnnotationsPlot.SetData: requires every index to name a value of the annotation, which `valueAt` relies on when drawing.

## Findings

| source | as written | input that shows it | evidently intended | confidence | as-written member | corrected member |
|---|---|---|---|---|---|---|
| source/shared/plugins/tableproxymodel.cpp:253-257 | the sort key's source column is mapped to its proxy column, and that proxy column is used to index the source model | source column 0 hidden (map [-1, 0, 1]); sort ascending on source column 2; rows [0, 5, 1] and [0, 3, 2]: as written row 0 is not less (5 against 3), intended row 0 is less (1 against 2) | read the sort key's own source column, skipping hidden ones | not executed; medium: the sort could be meant to follow another column convention, but one of the two mappings points the wrong way whenever a column before the sort column is hidden | TableProxyModel.AsWrittenComparesWrongColumn | TableProxyModel.TableProxy.LessThan |
| source/app/ui/visualisations/visualisationbuilder.h:117-121 | the early returns for "No Elements To Visualise" and "No Numeric Range To Map To" (also 138-142) skip `_numAppliedVisualisations++` (227) after the records were appended | one element; visualisation 0 numeric with min == max on a range-requiring channel, then visualisations 1 and 2 both set the element's text: as written the override is reported on visualisation 0, and visualisation 1 is not flagged | count every build, so each build records into, and is blamed through, its own record | not executed; high | VisualisationsBuilder.AsWrittenMisattributesOverride | VisualisationsBuilder.Builder.Build |
