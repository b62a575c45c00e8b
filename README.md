# PageRank with back edges, modelled in Dafny

This project models `BackedgesPageRank` from
`pagerank/backedges_page_rank.py`. It is a PageRank computation over a
keyed collection of node records, written as a chain of map, reduce and
sort stages. Each node also keeps part of its previous weight, which models
the browser's back button. The model covers the three parts of that class.

- **Initialisation** (`initialize_nodes`).
  - Every edge line `source target` is read with `split()` and `int()`.
  - Each line becomes three provisional records: `(source, {target})`,
    `(source, {})` and `(target, {})`.
  - `reduceByKey(reduce_edges)` merges the records of one node by set union.
  - `initialize_weights` seeds every node with `(1.0, 1.0, targets)`.
  - Modules `LineParsing` and `Initialization`.
- **One round** (`update_weights`).
  - `distribute_weights` sends each node a self tuple
    `(weight, 0.05*weight + 0.1*old_weight, targets)`.
  - It then sends `0.85/k` of the weight to each of the node's `k` targets.
    A dangling node instead sends `0.85/(num_nodes-1)` of it to every other
    id in `0 .. num_nodes-1`.
  - `groupByKey` gathers the tuples per recipient.
  - `collect_weights` rebuilds `(old_weight, weight, targets)` from each group.
  - `distribute_weights` and `collect_weights` are loops in the source. They
    are methods with loop invariants here (`Distribution.DistributeWeights`,
    `Collection.CollectWeights`), each proved equal to a specification
    function (`Distribute`, `Collect`).
  - The whole round is the ghost function `Rounds.UpdateWeights`.
- **Output** (`format_output`).
  - The records are re-keyed as `(weight, node)` and sorted by key, largest
    first.
  - They are then turned back into `(node, weight)`. Module `Output`.

Weights are reals. Every failure of the source becomes `None`:

| failure | where it happens |
|---|---|
| `ValueError` | an edge line that is not two integers |
| `ZeroDivisionError` | a dangling node other than `0` when `num_nodes == 1` |
| `UnboundLocalError` | a group in which no tuple has a nonzero first component |

The order of the records and the iteration order of a frozenset are
unspecified. The model takes them as parameters (`order`, `ks`) or picks
them with the ghost function `Sequences.Enumerate`. Every property below is
proved for all such orders.

Main results:

- **Initialisation.** The node ids are exactly the endpoints of the input's
  edges. Each node's targets are exactly the targets of its edges. Every node
  starts at `(1.0, 1.0)`. Any malformed line makes the whole step fail.
- **One round on a well-formed graph.** Well-formed means the ids are
  exactly `0 .. num_nodes-1`, every target is a node, a lone node is not
  dangling, and weights are positive. On such a graph a round:
  - succeeds and keeps the node set and every target set;
  - gives every node its previous weight as old weight;
  - gives every node the new weight `0.05*weight + 0.1*old_weight` plus what
    the nodes pass to it (a node with a self-loop passes a share to itself);
  - maps total weight `W` and total old weight `O` to `0.9*W + 0.1*O` and `W`.
- **Across rounds.** Starting from an initialised graph whose ids are
  exactly `0 .. num_nodes-1`, every round succeeds, every node keeps its
  targets, and the total weight stays `num_nodes` through any number of
  rounds.
- **Failures.** A round fails when a share is sent to an id that is not a
  node. The input `0 2` with `num_nodes == 2` is an example: the dangling
  node `2` sends a share to the missing id `1`. A graph whose ids are not
  `0 .. num_nodes-1` need not fail when no share reaches a missing id.
- **Output.** The output lists every node exactly once with its weight, in
  non-increasing weight order.

## Model

| member | source | states |
|---|---|---|
| LineParsing.Split | pagerank/backedges_page_rank.py:32 | `line.split()` yields only non-empty tokens free of whitespace |
| LineParsing.SplitBlank | pagerank/backedges_page_rank.py:32 | a line of whitespace only splits into no tokens |
| LineParsing.SplitPair | pagerank/backedges_page_rank.py:32 | two tokens separated by one space split into exactly those two tokens |
| LineParsing.SplitTriple | pagerank/backedges_page_rank.py:32 | three space-separated tokens split into exactly those three |
| LineParsing.ParseShowInt | pagerank/backedges_page_rank.py:32 | `int()` reads the decimal form of every integer back as that integer |
| LineParsing.ParseEdgeLine | pagerank/backedges_page_rank.py:32 | the line `"s t"` is read as the pair `(s, t)` for all integers `s`, `t` |
| LineParsing.ParseEdgeSingle | pagerank/backedges_page_rank.py:32 | a line holding one integer fails to unpack into `source, target` |
| LineParsing.ParseEdgeTriple | pagerank/backedges_page_rank.py:32 | a line holding any three integers fails to unpack into `source, target` |
| Initialization.EmitEdges | pagerank/backedges_page_rank.py:27-39 | an empty or `#` line emits nothing; it fails exactly on a malformed line; otherwise it emits three records `(s,{t})`, `(s,{})`, `(t,{})`, where `(s,t)` is the line's parsed pair |
| Initialization.EmitEdgesOfEdgeLine | pagerank/backedges_page_rank.py:32-39 | the line `"s t"` emits exactly `[(s,{t}), (s,{}), (t,{})]` |
| Initialization.ReduceEdgesLaws | pagerank/backedges_page_rank.py:42-43 | the merge is commutative, associative and idempotent |
| Initialization.ReduceByKey | pagerank/backedges_page_rank.py:52 | the keys are exactly the ids of the records; a key's set holds exactly the targets of that id's records |
| Initialization.ReduceByKeyOrderFree | pagerank/backedges_page_rank.py:52 | reordering or repeating records does not change the merged collection |
| Initialization.FlatMapLinesIsProvisional | pagerank/backedges_page_rank.py:50-51 | `flatMap(emit_edges)` fails iff some line is malformed; otherwise it yields the three records of every edge line, in line order |
| Initialization.ProvisionalMembers | pagerank/backedges_page_rank.py:34-39 | a record is emitted iff it is one of the three records of some edge |
| Initialization.ProvisionalKeys | pagerank/backedges_page_rank.py:34-52 | an id is a node iff it is the source or the target of some edge |
| Initialization.ProvisionalTargets | pagerank/backedges_page_rank.py:34-52 | `t` is among node `k`'s targets iff `(k, t)` is an edge of the input |
| Initialization.InitializeNodesMeaning | pagerank/backedges_page_rank.py:25-54 | initialisation fails iff some line is malformed; otherwise the ids are exactly the edges' endpoints, each node's targets are exactly its edges' targets, and every node starts at `(1.0, 1.0)` |
| Distribution.OtherIds | pagerank/backedges_page_rank.py:88-89 | the ids of `range(0, num_nodes)` other than the node are exactly the other ids, `num_nodes - 1` of them when the node is in range |
| Distribution.OtherIdsAscending | pagerank/backedges_page_rank.py:88-89 | those ids come in ascending order, each once |
| Distribution.DistributeWeights | pagerank/backedges_page_rank.py:77-91 | the loops build exactly the list `Distribute` specifies, and the recorded iteration order lists every target once; the method fails exactly for a dangling node other than `0` when `num_nodes == 1`, and otherwise returns a list that starts with the self tuple |
| Distribution.DistributeOutcome | pagerank/backedges_page_rank.py:78-90 | `distribute_weights` fails iff the node is dangling, `num_nodes == 1` and the node is not `0`; otherwise the list starts with the self tuple |
| Distribution.DistributeShape | pagerank/backedges_page_rank.py:79-90 | every tuple after the self tuple has first component `0.0` and the `[]` placeholder as third |
| Distribution.DistributeForward | pagerank/backedges_page_rank.py:81-86 | a node with `k > 0` targets emits `k` further tuples, one per target in iteration order, each `(0.0, 0.85/k*weight, [])`, together worth `0.85*weight` |
| Distribution.DistributeDangling | pagerank/backedges_page_rank.py:87-90 | a dangling node in `0 .. num_nodes-1` with `num_nodes >= 2` emits `num_nodes - 1` further tuples, one to each other id in ascending order, each `(0.0, 0.85/(num_nodes-1)*weight, [])`, together worth `0.85*weight` |
| Distribution.DanglingSendsTo | pagerank/backedges_page_rank.py:87-90 | a dangling node sends its share to every other id in `0 .. num_nodes-1` |
| Distribution.DistributeMass | pagerank/backedges_page_rank.py:79-90 | when the node holds a frozenset of targets and, if that set is empty, `num_nodes >= 2` and the node is in `0 .. num_nodes-1`, the tuples it emits total `0.9*weight + 0.1*old_weight` |
| Distribution.SharesTotal | pagerank/backedges_page_rank.py:84-86 | `k` equal shares total `k` times the share |
| Distribution.SharesSplitWeight | pagerank/backedges_page_rank.py:85 | `k` shares of `0.85/k*w` total `0.85*w` |
| Collection.CollectWeights | pagerank/backedges_page_rank.py:103-118 | the nested loops compute `Collect`: the last nonzero first component as old weight, the sum of the second components as weight, the last frozenset as targets, and a failure when no first component is nonzero |
| Collection.CollectFails | pagerank/backedges_page_rank.py:113-118 | `collect_weights` fails iff every value of the group has first component `0.0` |
| Collection.CollectSingleSource | pagerank/backedges_page_rank.py:103-118 | when one value alone has a nonzero first component and every other carries `[]`, the result is that value's first component, the sum of all second components and that value's targets |
| Collection.CollectOrderFree | pagerank/backedges_page_rank.py:103-122 | with a single source, the order in which `groupByKey` delivers the values does not change the result |
| Rounds.TargetOrder | pagerank/backedges_page_rank.py:84 | a frozenset is iterated in some order that lists each target once |
| Rounds.GroupAppend | pagerank/backedges_page_rank.py:122 | grouping distributes over concatenation of the emitted tuples |
| Rounds.GroupMembers | pagerank/backedges_page_rank.py:122 | a value is in `d`'s group iff a tuple `(d, value)` was emitted |
| Rounds.SharesGroupSum | pagerank/backedges_page_rank.py:84-90 | shares sent to distinct ids give `d` one share if it is among them and nothing otherwise |
| Rounds.DistributeGroupSum | pagerank/backedges_page_rank.py:79-90 | what one node sends to `d` is its retained term when `d` is itself plus its contribution to `d` |
| Rounds.EmitAllSome | pagerank/backedges_page_rank.py:120-121 | `flatMap(distribute_weights)` fails iff some node is dangling, not `0`, with `num_nodes == 1` |
| Rounds.EmitAllShape | pagerank/backedges_page_rank.py:79-121 | every emitted tuple is a node's self tuple or has first component `0.0` and `[]` as third |
| Rounds.EmitAllDests | pagerank/backedges_page_rank.py:81-121 | on a well-formed graph every tuple is addressed to a node |
| Rounds.EmitAllGroupSum | pagerank/backedges_page_rank.py:77-122 | the values grouped under `d` sum to `d`'s retained term plus everything the nodes pass to `d` |
| Rounds.EmitAllMass | pagerank/backedges_page_rank.py:77-121 | all emitted tuples together total `0.9*Σweight + 0.1*Σold_weight` |
| Rounds.Regroup | pagerank/backedges_page_rank.py:122 | summing group by group gives the sum over all tuples when every tuple goes to one of the groups |
| Rounds.GroupSource | pagerank/backedges_page_rank.py:79-118 | a node with nonzero weight whose self tuple arrives gets back its weight as old weight and its own targets |
| Rounds.CollectAllSucceeds | pagerank/backedges_page_rank.py:122-123 | when every group collects, the result has one node per recipient, holding that group's collected value |
| Rounds.CollectAllFails | pagerank/backedges_page_rank.py:122-123 | one failing group fails the whole round |
| Rounds.EmittedToNodes | pagerank/backedges_page_rank.py:77-123 | on a well-formed graph the recipients are exactly the nodes and each group collects to `(weight, sum, targets)` |
| Rounds.UpdateWeightsByGroups | pagerank/backedges_page_rank.py:120-123 | on a well-formed graph a round keeps the node set; each node gets its weight as old weight, its group's sum as weight, and its targets |
| Rounds.UpdateWeightsRule | pagerank/backedges_page_rank.py:77-123 | on a well-formed graph each node's new weight is `0.05*weight + 0.1*old_weight` plus what the nodes pass to it (itself included, through a self-loop) |
| Rounds.ContributionNonNegative | pagerank/backedges_page_rank.py:85-90 | a share of a non-negative weight is non-negative |
| Rounds.IncomingNonNegative | pagerank/backedges_page_rank.py:84-90 | what a node receives from nodes of non-negative weight is non-negative |
| Rounds.UpdateWeightsPreserves | pagerank/backedges_page_rank.py:120-123 | a round of a well-formed graph with positive weights succeeds and yields a well-formed graph with positive weights |
| Rounds.UpdateWeightsMass | pagerank/backedges_page_rank.py:77-123 | a round maps total weight `W` and total old weight `O` to `0.9*W + 0.1*O` and `W` |
| Rounds.RoundsConserve | pagerank/backedges_page_rank.py:120-123 | when total weight equals total old weight, any number of rounds succeeds, keeps the node set and each node's targets, and keeps both totals |
| Pipeline.RangeCount | pagerank/backedges_page_rank.py:88 | a set of ids that is exactly `0 .. n-1` has `n` elements |
| Pipeline.InitialGraphClosed | pagerank/backedges_page_rank.py:25-54 | after initialisation every target is a node, every weight is 1.0, and a lone node `0` has a target |
| Pipeline.UnitGraphReady | pagerank/backedges_page_rank.py:47-48 | a graph of unit weights on ids `0 .. n-1` whose targets are nodes is well-formed and has both totals `n` |
| Pipeline.InitialGraphReady | pagerank/backedges_page_rank.py:25-54 | an initialised graph on ids `0 .. n-1` is well-formed with both totals `n` |
| Pipeline.WeightConservedFromInput | pagerank/backedges_page_rank.py:25-123 | from an initialised graph on ids `0 .. n-1`, any number of rounds succeeds, keeps the nodes and each node's targets, and keeps the total weight at `n` |
| Pipeline.StrayRecipientFails | pagerank/backedges_page_rank.py:113-123 | a tuple addressed to an id that is not a node makes the round fail |
| Pipeline.DanglingToMissingIdFails | pagerank/backedges_page_rank.py:87-118 | a dangling node makes the round fail when an id in `0 .. num_nodes-1` is not a node |
| Pipeline.OneEdgeMerge | pagerank/backedges_page_rank.py:42-52 | the records of the edge `s -> t` merge into `{s: {t}, t: {}}` |
| Pipeline.OneEdgeGraph | pagerank/backedges_page_rank.py:25-54 | the single line `"s t"` initialises to node `s` with target `t` and dangling node `t`, both at `(1.0, 1.0)` |
| Pipeline.GapGraphOfInput | pagerank/backedges_page_rank.py:25-54 | the input `0 2` initialises to the two nodes `0` and `2` |
| Pipeline.GapInIdsFails | pagerank/backedges_page_rank.py:87-118 | that graph has two nodes, and a round with `num_nodes == 2` fails, because node 2's share goes to the missing id 1 |
| Pipeline.TwoNodeGraphOfInput | pagerank/backedges_page_rank.py:25-54 | the input `0 1` initialises to node `0` linking to the dangling node `1` |
| Pipeline.TwoNodeReady | pagerank/backedges_page_rank.py:77-90 | that graph is well-formed for `num_nodes == 2` at any positive weight |
| Pipeline.TwoNodeIncoming | pagerank/backedges_page_rank.py:81-90 | in it each node receives `0.85` of the other's weight |
| Pipeline.FixedPoint | pagerank/backedges_page_rank.py:120-123 | a well-formed graph in which every old weight equals the weight, and every node receives `0.85` of its weight, is left unchanged by a round |
| Pipeline.TwoNodeRound | pagerank/backedges_page_rank.py:77-123 | the graph of `0 1` with equal weights is a fixed point of a round |
| Output.InsertPermutes | pagerank/backedges_page_rank.py:135 | inserting adds exactly the inserted pair |
| Output.InsertKeepsOrder | pagerank/backedges_page_rank.py:135 | inserting into a descending sequence keeps it descending |
| Output.SortByKeyDescendingSorts | pagerank/backedges_page_rank.py:135 | `sortByKey(ascending = False)` yields a permutation of its input with non-increasing keys |
| Output.FormatOutputSorted | pagerank/backedges_page_rank.py:132-136 | the output is a permutation of the records' `(node, weight)` pairs, with non-increasing weights |
| Output.FormatGraph | pagerank/backedges_page_rank.py:132-136 | for any order of a graph's records, the output lists every node once with its weight, in non-increasing weight order, and nothing else |

## Left out

- The execution engine behind `flatMap`, `reduceByKey`, `groupByKey`, `map`
  and `sortByKey` (partitioning, parallelism, scheduling) is not modelled.
  - Each primitive is a sequential function over sequences.
  - The order in which records are visited is taken as a parameter or picked
    by `Sequences.Enumerate`.
- `simple_page_rank` is not part of this model. Its `__init__` and the round
  driver `compute_pagerank` are outside it. `Rounds.Iterate` applies
  `update_weights` a given number of times with `num_nodes` fixed across
  rounds.
- Floating-point rounding is not modelled. Weights are exact reals, so the
  proved sums (`0.85*weight`, conservation of total weight) hold exactly
  here but only approximately for Python floats.
- The float/int distinction of the type test at line 111 is not modelled.
  Every number is a real, and `Collection.Slot` only separates numbers,
  frozensets and the `[]` list.
- The kind of exception is not modelled. Every raising path is `None`.
- Python 2 `int()` accepts surrounding whitespace; that plays no role after
  `split()`. `ParseInt` accepts an optional sign followed by decimal digits
  and nothing else.
- Output.SortByKeyDescending: fixes one order among pairs of equal weight.
  The engine's sort leaves that order open, so the contracts about the output
  (permutation, non-increasing weights) state only what every tie order
  satisfies.
- The round lemmas `Rounds.UpdateWeightsRule`, `Rounds.UpdateWeightsMass`
  and `Rounds.RoundsConserve` are proved for well-formed graphs
  (`Rounds.Closed`, `Rounds.Positive`). The model shows these failures for
  some other graphs: `Pipeline.GapInIdsFails`, `Pipeline.StrayRecipientFails`,
  `Pipeline.DanglingToMissingIdFails`, `Distribution.DistributeOutcome` and
  `Collection.CollectFails`.
- Distribution.DistributeOutcome: with `num_nodes == 1`, a dangling node
  other than `0` divides by `num_nodes - 1 == 0` at line 90, which raises;
  the model gives `None` there. A dangling node `0` skips the only id of
  `range(0, 1)`, divides by nothing and succeeds.
