# Supervised optimum-path forest: the training step

This project models `SupervisedOPF.fit` from opfython, the training step of the
supervised Optimum-Path Forest (OPF) classifier. The input is a training
graph whose nodes already carry their prototype flags. `fit` does three things:

- It seeds a local `costs` array: 0 for prototypes, `FLOAT_MAX` for every
  other node.
- It gives every prototype `pred = NIL` and its own label as predicted label,
  then inserts it into an indexed priority queue.
- It runs an extract-and-relax loop. Each pass removes a node `p` from the
  queue, appends it to `idx_nodes` and sets its `cost` field to `costs[p]`.
  It then offers every other node `q` the minimax candidate
  `max(costs[p], weight(p, q))`. On a strict improvement, `q` takes `p` as
  predecessor, copies `p`'s predicted label, and the queue receives
  `update(q, candidate)`.

The model follows the code as written. Inside the loop the local `costs`
array is never written: `update` changes only the queue's own key. So:

- every guard compares the seed costs, and only a prototype can improve a
  node, and only a standard node at weight below `FLOAT_MAX`;
- a settled standard node keeps `cost == FLOAT_MAX`;
- a standard node ends up hanging from the *last* settled prototype that
  improves it, not the nearest one;
- prototypes are inserted without a key, so they wait in the queue at
  `FLOAT_MAX`, while every node a prototype improves is queued below it. The
  queue therefore settles each prototype's improved nodes before the next
  prototype, and the `cost` fields along `idx_nodes` need not be
  non-decreasing (`LineExample.AsWrittenTrace` shows 0, `FLOAT_MAX`,
  `FLOAT_MAX`, 0).
  The model tracks the queue keys (`Forest.Key`) and proves that `idx_nodes`
  is the one order the queue's least-key, lowest-index rule produces.

The OPF algorithm this class implements (Papa, Falcão and Suzuki, 2009, the
reference in the class docstring) lowers the cost together with the queue
key. It promises a forest with costs non-decreasing along the settling
order and every node labelled through its cheapest path. The code does not
deliver that, so the model follows the code (see "## Findings"). The module
`Intended` holds the corrected step, with those forest properties proved
about it.

Files:

- `constants.dfy`: `FLOAT_MAX`, the largest finite double as an exact
  real, and `NIL`, plus the node status and queue colors.
- `heap.dfy`: the priority queue through its observable contract. Each index
  has a key and a color (White: never queued, Gray: queued, Black: removed).
  `Remove` hands out a Gray index of least key.
- `subgraph.dfy`: the node record and the graph. The graph is an array of
  nodes plus the `idxNodes` settling order.
- `forest.dfy`: the meaning of `fit` as pure functions. `Initialise` and
  `Settle` give one pass, `Run` replays a whole removal order, and
  `Outcome`/`LastImprover` give a closed form of the result. `Key`,
  `Chosen` and `HeapOrder` describe which order the heap hands the nodes out
  in, and `HeapOrderUnique` shows that order is determined by the input. The
  lemmas about the result are here.
- `supervised.dfy`: the classifier class and `Fit`, written imperatively
  over the node array, the `costs` array and the heap. It is proved against
  `Run` and `HeapOrder`: the heap keys it leaves are `Key`, and every removal
  is the node `Chosen` describes.
- `intended.dfy`: the corrected training step and its optimum-path-forest
  invariant.
- `example.dfy`: four samples on a line, showing the discrepancy and its
  correction.

Costs are exact reals. Only `max` and `<` are applied to them, so no
rounding is involved.

## Model

| member | source | states |
|---|---|---|
| Supervised.SupervisedOpf.constructor | opfython/models/supervised.py:21-35 | The classifier stores whether distances are pre-computed, `false` unless given, and no graph exists before `fit`. |
| Supervised.SupervisedOpf.Fit | opfython/models/supervised.py:37-89 | The trained graph is exactly `Run` over `idxNodes`, and `idxNodes` is a heap order that empties the heap, so by `Forest.HeapOrderUnique` it is the single order the input determines. It holds each node once: exactly the prototypes plus the standard nodes some prototype improves. |
| Supervised.InitialiseRoots | opfython/models/supervised.py:56-67 | Every prototype gets pred `NIL`, `costs[i] == 0`, its own label as predicted label, and is queued. Every other node is untouched, not queued, and keeps `costs[i] == FLOAT_MAX`. The heap keys stay `FLOAT_MAX`, which is `Key` with nothing settled. |
| Supervised.SettleAll | opfython/models/supervised.py:69-89 | The main loop ends with nothing queued and `Progress` intact. It returns the counter `i`, which equals the number of removals, and the nodes settled before the loop stay at the head of `idxNodes`. |
| Supervised.Advance | opfython/models/supervised.py:69-89 | One pass keeps `Progress`: the removed node is the one `Chosen` describes after the nodes already settled, and the graph is `Run` over the longer order. |
| Supervised.SettleNext | opfython/models/supervised.py:71-89 | One pass removes a Gray index `p` of least key (ties to the lowest index), which is `Chosen`, and appends it to `idxNodes`. The graph takes one `Settle` step, and the removed set grows by `p` alone. Colors and keys still agree with `idxNodes`. The `costs` array is unchanged. |
| Supervised.Visit | opfython/models/supervised.py:71-75 | `remove` hands out a queued index of least key, lowest index on ties. It is appended to `idxNodes` and its cost field set to `costs[p]`; nothing else in the graph changes. |
| Supervised.RelaxFrom | opfython/models/supervised.py:77-89 | Node `q` takes `pred := p` and `p`'s predicted label exactly when `p != q`, `costs[p] < costs[q]` and `max(costs[p], weight) < costs[q]`. Its heap key then becomes that maximum and a never-queued `q` is queued. Otherwise nothing changes, and no removed index is re-queued. |
| Supervised.Offer | opfython/models/supervised.py:78-89 | For one pair `(p, q)`: the three guards, the weight read by original identities in pre-computed mode, and on success the new predecessor, label and heap key. Nothing else changes. |
| Supervised.HeapAfterStep | opfython/models/supervised.py:71-89 | Removing the least-key Gray node and relaxing from it yields the colors and keys that `Key` and `LastImprover` give for the order with `p` appended, and `p` is `Chosen`. |
| Supervised.RemovedIsChosen | opfython/models/supervised.py:71 | When Gray means queued and the keys are `Key`, the index `remove` returns is the one `Chosen` describes. |
| Supervised.KeysAfterStep | opfython/models/supervised.py:85-89 | After a pass the heap keys are again `Key` over the longer order. |
| Supervised.ColorsAfterStep | opfython/models/supervised.py:71-89 | After a pass, the Black indices are exactly the entries of `idxNodes`, which holds no duplicates. The ever-queued indices are the prototypes plus the nodes some settled node improves. |
| Supervised.Drained | opfython/models/supervised.py:69 | Once no index is Gray, no node is queued. The settled nodes are exactly the prototypes plus the nodes some settled node improves. |
| PriorityQueue.Heap.constructor | opfython/models/supervised.py:53 | A fresh heap of `n_nodes` indices: all White, all keys `FLOAT_MAX`. |
| PriorityQueue.Heap.IsEmpty | opfython/models/supervised.py:69 | True exactly when no index is queued. |
| PriorityQueue.Heap.Insert | opfython/models/supervised.py:67 | Queues a never-queued index. The keys are unchanged. |
| PriorityQueue.Heap.Update | opfython/models/supervised.py:89 | Sets the key of `q`, queues `q` if it was never queued, and never re-queues a removed index. |
| PriorityQueue.Heap.Remove | opfython/models/supervised.py:71 | Returns a queued index of least key (ties go to the lowest index) and marks it removed. The unremoved set shrinks by exactly that index. |
| Graph.Subgraph.constructor | opfython/models/supervised.py:47 | The graph holds the given nodes and nothing is settled yet. |
| Forest.WeightByIdentity | opfython/models/supervised.py:80-84 | `Weight` reads the matrix by the two nodes' original identities in pre-computed mode, and applies the distance to their features otherwise, so nothing else about the nodes matters. |
| Forest.Max | opfython/models/supervised.py:85 | The minimax candidate is at least `costs[p]` and at least the weight, and equals one of them. |
| Forest.SeedCost | opfython/models/supervised.py:56-65 | The `costs` entry of a node is 0 exactly for a prototype and `FLOAT_MAX` exactly for a standard node. |
| Forest.Improves | opfython/models/supervised.py:78-86 | Because the costs are never lowered, the three guards hold exactly when `p` is a prototype, `q` is a standard node and the weight is below `FLOAT_MAX`. |
| Forest.Initialise | opfython/models/supervised.py:62-66 | Only `pred` and the predicted label change: a prototype gets `NIL` and its own label, and a standard node is untouched. |
| Forest.Settle | opfython/models/supervised.py:71-89 | `p`'s cost field becomes its seed cost. Any other node either stays as it was or is improved by `p` and then takes `p` as predecessor and `p`'s predicted label; nothing else about it changes. |
| Forest.Run | opfython/models/supervised.py:56-89 | Replaying the initialisation and a removal order yields one node per input node. |
| Forest.LastImprover | opfython/models/supervised.py:79-89 | The node it returns was settled and improves `q`. |
| Forest.LastImproverExists | opfython/models/supervised.py:79-89 | Some settled node improves `q` if and only if `LastImprover` finds one. |
| Forest.LastImproverIsLast | opfython/models/supervised.py:79-89 | The node found is settled at a position after which no settled node improves `q`. |
| Forest.RunStep | opfython/models/supervised.py:71-89 | Settling one more node is one `Settle` step. The last improver changes to `p` exactly when `p` improves `q`. |
| Forest.Key | opfython/models/supervised.py:53-89 | The heap key of `q` never exceeds `FLOAT_MAX`, and is below it exactly when some settled node improves `q`. Nothing improves a prototype, so a prototype, inserted without a key, waits at `FLOAT_MAX`. |
| Forest.KeyStep | opfython/models/supervised.py:85-89 | Settling `p` changes exactly the keys of the nodes `p` improves, each to `max(costs[p], weight)`. |
| Forest.HeapOrderStep | opfython/models/supervised.py:69-71 | A heap order followed by the node chosen after it is a heap order. |
| Forest.HeapOrderPrefix | opfython/models/supervised.py:69-71 | Every prefix of a heap order is a heap order. |
| Forest.ChosenUnique | opfython/models/supervised.py:71 | After a given prefix, at most one node is chosen. |
| Forest.HeapOrderAgree | opfython/models/supervised.py:69-71 | Two heap orders agree on every common prefix length. |
| Forest.HeapOrderExtends | opfython/models/supervised.py:69-71 | The shorter of two heap orders is a prefix of the longer, and the node the longer settles next is still queued after the shorter. |
| Forest.HeapOrderUnique | opfython/models/supervised.py:69-89 | Two heap orders that both leave the heap empty are equal: the settling order, and with it the trained graph, is determined by the input. |
| Forest.SettledExactly | opfython/models/supervised.py:69-89 | When the loop stops, a node was settled if and only if it is a prototype or some prototype improves it. |
| Forest.RunOutcome | opfython/models/supervised.py:56-89 | The replayed graph equals the closed form, node by node. A prototype is a root with its own label. A standard node hangs from its last improving prototype and carries that prototype's label. The cost field of a settled node is its seed cost. |
| Forest.SettledCosts | opfython/models/supervised.py:56-65 | A settled prototype has cost 0 and a settled standard node has cost `FLOAT_MAX`. An unsettled node keeps its incoming cost. |
| Forest.ForestOfStars | opfython/models/supervised.py:62-89 | The result is a forest of depth one. A prototype is a root labelled by its own label. An improved standard node hangs from a settled prototype root that improves it, and carries that root's label. Any other node keeps its pred and label. |
| Forest.AssignedLabelsFromPrototypes | opfython/models/supervised.py:66-88 | Every predicted label assigned to a reached node is the true label of some prototype. |
| Forest.LaterImproverWins | opfython/models/supervised.py:86-89 | Of two prototypes that both improve `q`, the one settled earlier is never `q`'s final predecessor. |
| Forest.SameImprovers | opfython/models/supervised.py:79-89 | Two nodes improved by the same settled nodes end up with the same last improver. |
| LineExample.OuterImprovers | opfython/models/supervised.py:78-86 | In the four-sample example, each outer sample is improved by exactly the two prototypes. |
| LineExample.AsWrittenMislabels | opfython/models/supervised.py:79-89 | As written, in every settling order that holds a prototype, both outer samples get the same label, so one of them is mislabelled. Each settled outer sample, 0 or 3, keeps cost `FLOAT_MAX` instead of 1. |
| LineExample.AsWrittenTrace | opfython/models/supervised.py:53-89 | As written, the heap settles the example in the order 1, 0, 3, 2. The cost fields along `idxNodes` read 0, `FLOAT_MAX`, `FLOAT_MAX`, 0, so they are not non-decreasing. Sample 0 hangs from prototype 2 with label 1. |
| LineExample.TraceIsHeapOrder | opfython/models/supervised.py:69-89 | The order 1, 0, 3, 2 follows the heap and empties it. |
| LineExample.ChosenAt | opfython/models/supervised.py:71 | Each entry of 1, 0, 3, 2 is the node `remove` returns after the entries before it. |
| LineExample.IntendedLabelsCorrectly | opfython/models/supervised.py:79-89 | In any optimum-path forest over the example, sample 0 hangs from prototype 1 with label 0 and cost 1, and sample 3 hangs from prototype 2 with label 1 and cost 1. |
| LineExample.OuterSettled | opfython/models/supervised.py:79-89 | In such a forest, once an outer sample's nearest prototype is settled, the sample hangs from it at cost 1 and carries its label. |
| LineExample.SettledAt | opfython/models/supervised.py:79-89 | In such a forest, an outer sample whose nearest prototype is settled is itself settled. |
| LineExample.FarWeights | opfython/models/supervised.py:80-85 | In the example, the nearest prototype is at weight 1 and every other node is at weight 10 or more. |
| Intended.InitialiseRoots | opfython/models/supervised.py:56-67 | The corrected initialisation leaves the graph `Initialise` gives, as the original does, and queues exactly the prototypes. Each node's seed cost also becomes its heap key (0 for a prototype), so the loop invariant holds with nothing settled. |
| Intended.RelaxFrom | opfython/models/supervised.py:77-89 | `q` is lowered to the candidate exactly when the guards hold against the current costs. The `costs` entry and the heap key move together. |
| Intended.Offer | opfython/models/supervised.py:78-89 | For one pair `(p, q)`: `q` takes `p` as predecessor and `p`'s label, and both `costs[q]` and the heap key drop to the candidate. This happens exactly when the guards hold against the current costs. Nothing else changes. |
| Intended.SettleNext | opfython/models/supervised.py:71-89 | One corrected pass keeps the loop invariant and removes exactly one unremoved node. |
| Intended.SettleAll | opfython/models/supervised.py:69-89 | The corrected loop ends with nothing queued and the invariant intact. |
| Intended.Fit | opfython/models/supervised.py:37-89 | The corrected training step builds an optimum-path forest. Every prototype is a settled root with cost 0 and its own label. Every other settled node hangs from an earlier settled node with cost `max(pred cost, weight)` and its label. Costs are non-decreasing along `idxNodes`. No settled node offers another a cheaper path. No settled node reaches an unsettled node below `FLOAT_MAX`. |
| Intended.StepBasics | opfython/models/supervised.py:76-89 | The removed node was not yet settled. A pass never lowers a settled node, never raises a key, and lowers no unsettled key below the removed node's key. The removed node keeps its key and takes it as its cost field. |
| Intended.StepShape | opfython/models/supervised.py:71-72 | After a pass, the removed nodes are still exactly the entries of `idxNodes`, without duplicates. |
| Intended.StepKeys | opfython/models/supervised.py:86-89 | After a pass, every key lies in `[0, FLOAT_MAX]`. A never-queued node is a standard node at `FLOAT_MAX`, and a queued or settled standard node has a key below `FLOAT_MAX`. Prototypes keep key 0, pred `NIL` and their own label. |
| Intended.StepSettled | opfython/models/supervised.py:71-75 | After a pass, settled costs equal their keys and are non-decreasing along `idxNodes`. They are at most every unsettled key. |
| Intended.StepOptimal | opfython/models/supervised.py:79-89 | After a pass, no settled node offers any other node a cheaper path than its current key. |
| Intended.StepTree | opfython/models/supervised.py:86-88 | After a pass, every standard node with a finite key hangs from a settled predecessor with the minimax cost and its label. Every settled standard node's predecessor was settled before it. Prototypes are roots with pred `NIL`, as `Intended.StepKeys` states. |
| Intended.StepInv | opfython/models/supervised.py:69-89 | One pass preserves the whole loop invariant. |
| Intended.InitialInv | opfython/models/supervised.py:56-67 | The initial graph and keys satisfy the invariant. |
| Intended.Finished | opfython/models/supervised.py:69 | The invariant with nothing queued is an optimum-path forest. |
| Intended.LabelFromPrototype | opfython/models/supervised.py:66-88 | In an optimum-path forest, every settled node carries the true label of some prototype. |

## Left out

- Logging (opfython/models/supervised.py:10, 29, 35) has no bearing on the result and is not modelled.
- Distances: the computed branch, `log_euclidean_distance`, is not part of this model. It becomes the function parameter `distance`, and the pre-computed branch becomes a matrix indexed by original identity. Non-negativity of the weights is not assumed, because no property here needs it.
- Supervised.SupervisedOpf.constructor: `__init__` takes only `pre_computed_distance`; the matrix `distances` and the distance function come from the OPF base class and the distance module, neither of which is part of this model, so the constructor takes them as extra parameters.
- Building `Subgraph(X, Y)` from numpy arrays is not part of this model. The node sequence is the input.
- `_find_prototypes` is not part of this model. The prototype flags arrive on the nodes.
- Heap internals (sift-up, sift-down, the position map) are not part of this model. The heap is modelled by its contract.
- Heap initial keys: the heap module is not part of this model. Initial keys are `FLOAT_MAX`, ties go to the lowest index, and `update` on a removed index changes only the key.
- `predict` (opfython/models/supervised.py:92-103) has the body `pass`, so there is no behaviour to model.
- Supervised.SupervisedOpf.Fit: requires `Covers`, that the matrix has an entry for every pair of node identities in pre-computed mode. With a smaller matrix the lookup at line 81 raises `IndexError`; that failure is not modelled.
- Supervised.SupervisedOpf.Fit: nodes are immutable records in an array rather than shared objects, so aliasing between node objects is not modelled. The loop counter `i` is returned by `Supervised.SettleAll` but `fit` discards it, as the code does.
- Supervised.SupervisedOpf.Fit: its contract states the result through `Run` and `HeapOrder`. The properties of the result (Forest.RunOutcome and the lemmas after it, Forest.HeapOrderUnique) are separate lemmas.
- Floating point (NaN, rounding of distances) is not modelled. Costs are exact reals.
- The example driver scripts under `examples/` only call functions outside this model.

## Findings

| source | as written | input that shows it | evidently intended | confidence | as-written member | corrected member |
|---|---|---|---|---|---|---|
| opfython/models/supervised.py:53-89 | The guards read the local `costs` array, which is never written inside the loop; `update` changes only the heap key, and prototypes are queued at key `FLOAT_MAX`. So only prototypes relax nodes, standard nodes can be settled before prototypes, a standard node keeps the last improving prototype rather than the nearest, and its cost field stays `FLOAT_MAX`. | Samples at 0, 1, 10, 11 with labels 0, 0, 1, 1, prototypes 1 and 2, linear distance: the heap settles 1, 0, 3, 2, both outer samples end up under prototype 2 with label 1, so sample 0 is mislabelled, and its cost is `FLOAT_MAX`, not 1. | Lower `costs[q]` with the heap key (and give the prototypes key 0), so the step builds an optimum-path forest: sample 0 hangs from 1 with label 0, sample 3 from 2 with label 1, both at cost 1. | not executed | LineExample.AsWrittenTrace | Intended.Fit |
