# Slot allocation strategies (alina-algos)

This project models three strategies for handing out time slots to
applications, together with the data model they share. Each application
requests a few slots. Each slot can be reserved by at most one application,
and each application reserves at most one slot. Every strategy returns the
number of applications left without a slot.

- **Data model** (`applications.py`): slots, a slot space `[lo, hi]` that
  slots are drawn from, applications with an identifier, their requested slots
  and one reservation, and generating a scenario of applications. The module
  is `Applications`, with the error results in `Wrappers`.
- **Random order** (`random-order.py`): shuffle the applications. Then give
  each one, in the new order, the first of its requested slots that nobody
  holds yet. The module is `RandomOrder`.
- **Prefer sparse** (`prefer_sparse.py`): map every requested slot to the
  applications requesting it, and sort the slots by how many applications
  want them, with a stable sort. Then, rarest slot first, give the slot to
  the first requester that holds nothing yet. The modules are `PreferSparse`,
  `RequestMap` (the requester map, which is shared with the graph strategy)
  and `StableSort` (Python's `sorted`).
- **Graph colouring** (`graph_coloring.py`): build a conflict graph with one
  node per application identifier. There is an edge for every pair of
  applications that request a common slot, once per shared slot. Starting
  from the first node, a depth-first traversal colours each node with its
  requested slots that no node has used yet. Each application then reserves
  its node's colour. The modules are `GraphColoring` (the `Node` and `Graph`
  classes and the strategy), `ConflictEdges` (the graph the edge loops build)
  and `GraphSearch` (`dfs` and the colouring traversal as functions on a
  graph value).

The imperative parts are classes and methods that mirror the Python code:
- `Slot`, `SlotSpace`, `Application`, `Node` and `Graph`;
- the loops of every strategy;
- the in-place shuffle of an `array`.

Each method is proved against a specification function: `Allocation`,
`SparseAllocation`, `ColorVisit`/`ColorFrom`, `ConflictGraph` or
`ColoringAllocation`. The lemmas then prove what the strategies promise about
those functions:
- every reservation is one of the application's own requests;
- no slot is held twice;
- an application is left out only when the slots it asked for are held by
  others (random order and prefer sparse);
- the graph colouring is proper; it visits only nodes connected to the
  start, and with distinct ids it visits all of them.

The strategies are generic in the slot type `T`. Read with `T := Slot`, a
class compared by identity, they behave as the Python code does: `Slot`
defines no `__eq__`. Read with `T := int`, they compare slot values. The
Finding below is about the difference.

Randomness is nondeterministic choice (`:|`), in these places:
- `random.randint` in `pull`;
- `uuid.uuid4` in `generate_id`;
- the index drawn at each step of `random.shuffle`, which is modelled as a
  Fisher–Yates loop that only promises a permutation.

Printing, timing and the pandas report are not modelled. The count the
strategies return is computed directly as the number of `None` reservations.

Behaviour of the code that the model keeps as written:
- **`color_node` keeps the last option that is free when the loop reaches
  it.** Its option loop has no `break`, so every free option is claimed and
  added to `used_colors`. The node keeps the last one claimed
  (`GraphSearch.OptionsKeepLastFree`). A neighbour visited from an earlier
  claim may take a later option first.
- **Only nodes reached from inside a claim are visited.** When no two
  applications share a slot there are no edges, so the traversal colours only
  the first node, and one application of four is resolved
  (`GraphColoring.DisjointScenario`).
- **`SlotSpace(lo, hi)` fails only when `hi == lo`.** The failure is a
  division by zero in `360 / self.range`. A negative range is accepted, and
  `pull` then raises ValueError.
- **`generate_id` takes the first characters of a uuid**, where its
  docstring says the last `length`. The model keeps only their number
  (`IdLength`).

## Model

| member | source | states |
|---|---|---|
| Applications.Slot.constructor | applications.py:12-13 | a slot holds the given value; equality is object identity |
| Applications.SlotSpace.constructor | applications.py:23-28 | stores both bounds and `range == hi - lo`; callable only with a non-zero range |
| Applications.NewSlotSpace | applications.py:23-28 | `SlotSpace(lo, hi)` fails with ZeroDivisionError exactly when `hi == lo`; otherwise a fresh space with those bounds and range |
| Applications.SlotSpace.Pull | applications.py:30-32 | succeeds exactly when `lo <= hi` (ValueError otherwise); the result is a fresh slot whose value lies in `[lo, hi]` |
| Applications.SlotSpace.Color | applications.py:34-39 | succeeds exactly when the slot lies in the closed interval (ValueError otherwise), giving its offset `value - lo` in `[0, hi - lo]` |
| Applications.Application.constructor | applications.py:49-52 | an application holds its id, its slot space and its requested slots, and starts unreserved |
| Applications.Application.Reserve | graph_coloring.py:104 | `reserve(slot)` overwrites the reservation with the given value, None included |
| Applications.GetSlots | applications.py:54-59 | `amount` pulls: fails with ValueError exactly when a pull can fail; otherwise `max(amount, 0)` pairwise distinct fresh slots, all in the space |
| Applications.NewApplication | applications.py:49-52 | a fresh unreserved application with a six-character id, in the given space, requesting `max(amount, 0)` distinct fresh slots of that space |
| Applications.GenerateApplications | applications.py:67-72 | `amount` distinct fresh unreserved applications, three slots each, all in the space; no slot is requested by two of them |
| Applications.CountUnreserved | prefer_sparse.py:42-54 | the returned count is the number of applications whose reservation is None |
| Applications.HeldNoneCount | random-order.py:22-28 | the held slots plus the None reservations account for every application |
| Applications.HeldMembers | random-order.py:22-28 | a slot is among the held ones exactly when some reservation is that slot |
| Applications.HeldDistinct | random-order.py:22-28 | when the held slots are pairwise distinct, no slot is held by two applications |
| RandomOrder.FirstFree | random-order.py:24-28 | the slot chosen for one application is one it requested that is not yet taken, and there is none exactly when all its requests are taken |
| RandomOrder.FirstFreeIsFirst | random-order.py:24-28 | the chosen slot is the earliest of the application's requests that is not taken (`break` after the first) |
| RandomOrder.AllocationPrefix | random-order.py:22-28 | the first `i` applications are served as if the list ended after them |
| RandomOrder.AllocationAt | random-order.py:22-28 | application `i` gets the first of its requests not held by the applications before it |
| RandomOrder.AllocationFromRequests | random-order.py:24-27 | every reservation is one of the application's own requests |
| RandomOrder.AllocationHeldDistinct | random-order.py:22-27 | the slots held are pairwise distinct (the `reserved` list never gets a duplicate) |
| RandomOrder.AllocationNoSlotHeldTwice | random-order.py:22-27 | no two applications hold the same slot |
| RandomOrder.AllocationBlockedByEarlier | random-order.py:24-28 | an application left without a slot finds each of its requests held by an EARLIER application |
| RandomOrder.AllocationUnresolvedOnlyIfBlocked | random-order.py:23-28 | an application is left out only when every slot it requested is held by another application |
| RandomOrder.AllocationTakesFirstFree | random-order.py:24-28 | a resolved application holds one of its requests, and every request listed before it is held by an earlier application |
| RandomOrder.AllocationCount | random-order.py:22-28 | the unresolved count equals the number of applications minus the number of slots handed out |
| RandomOrder.Shuffle | random-order.py:15 | the array ends as a permutation of its old contents |
| RandomOrder.ReserveInOrder | random-order.py:22-28 | application `k` of the list ends reserving `Allocation(...)[k]`, or keeps its old reservation when that is None |
| RandomOrder.RandomOrder | random-order.py:8-49 | the list is permuted; the reservations follow `Allocation` of the new order (exactly, when all started unreserved); an empty list fails with ZeroDivisionError, assuming the report succeeds on an empty list; otherwise the result is the None count |
| RandomOrder.HeldFromEarlier | random-order.py:22-26 | a slot held after the first `n` applications is requested by one of them |
| RandomOrder.DistinctRequestsNeverContend | random-order.py:24-28 | when no slot is requested twice, every application with a request gets its first requested slot |
| RandomOrder.SameValueHeldTwice | random-order.py:25 | with identity equality, two distinct slot objects of the same value can both be held |
| RandomOrder.ValuesHeldOnce | random-order.py:22-28 | comparing slot values, no value is held twice and every reservation is one of the application's requested values |
| RandomOrder.ValueContention | random-order.py:22-28 | three applications requesting the same single value: the first gets it, the other two get nothing |
| RequestMap.DedupFacts | prefer_sparse.py:17-23 | the dictionary keys are the requested slots, each once, in order of first appearance |
| RequestMap.RequestersMembers | prefer_sparse.py:17-23 | a tag is on the list of slot `s` exactly when an application with that tag requested `s` |
| RequestMap.RequestersCount | prefer_sparse.py:17-23 | with distinct tags, application `i` appears on the list of `s` as often as it requested `s` |
| RequestMap.RequestersOrdered | prefer_sparse.py:17-23 | labelled by position, each list is in application order and holds only valid positions |
| RequestMap.AddRequests | prefer_sparse.py:19-23 | the inner loop for one application appends its tag to the list of each of its requested slots and adds unseen slots as new keys, in order |
| RequestMap.BuildRequesters | prefer_sparse.py:17-23 | the keys are the distinct requested slots in first-appearance order, and each slot's list is exactly its requesters in order |
| StableSort.SortSorted | prefer_sparse.py:25 | the sorted map is ordered by list length |
| StableSort.SortPermutes | prefer_sparse.py:25 | the sorted map is a permutation of the original |
| StableSort.SortStable | prefer_sparse.py:25 | the sort is stable: the entries of each length keep their relative order |
| PreferSparse.ItemsOf | prefer_sparse.py:25 | definition: the dictionary items, in key order, pair each key with its list; what the loop does with them is stated by `PreferSparse.PreferSparse` and the Sparse lemmas |
| PreferSparse.ScanKeeps | prefer_sparse.py:30-33 | scanning one slot's requesters never takes away an existing reservation or a reserved slot |
| PreferSparse.ScanTaken | prefer_sparse.py:31 | a slot already in `reserved` changes nothing |
| PreferSparse.ScanGrantsFirst | prefer_sparse.py:29-33 | a free slot goes to the first requester on its list that holds nothing, and nothing changes when they all hold something |
| PreferSparse.ScanCovers | prefer_sparse.py:29-33 | after the scan, each requester on the list holds something or the slot is reserved |
| PreferSparse.AssignKeeps | prefer_sparse.py:29-33 | the outer loop never takes away a reservation or a reserved slot |
| PreferSparse.AssignCovers | prefer_sparse.py:29-33 | after the outer loop, every listed requester holds something or its slot is reserved |
| PreferSparse.GrantConsistent | prefer_sparse.py:31-33 | granting a requested, unreserved slot to an unreserved application keeps every reservation requested and unique |
| PreferSparse.AssignConsistent | prefer_sparse.py:29-33 | the outer loop keeps every reservation requested and no slot held twice |
| PreferSparse.SortedItemsCover | prefer_sparse.py:17-25 | every requested slot of every application appears in the sorted map with the application on its list |
| PreferSparse.SortedItemsDistinctSlots | prefer_sparse.py:17-25 | no slot has two entries in the sorted map |
| PreferSparse.SparseOrder | prefer_sparse.py:25 | slots are visited rarest first, as a stable permutation of the requester map |
| PreferSparse.SparseConsistent | prefer_sparse.py:28-33 | from no reservations: every reservation is requested and no slot is held twice |
| PreferSparse.SparseUnresolvedOnlyIfBlocked | prefer_sparse.py:29-33 | from no reservations: an application is left out only when each slot it requested is held by another application |
| PreferSparse.SparseKeepsPrior | prefer_sparse.py:31 | an application that already held a reservation keeps it |
| PreferSparse.SparseSlotStillFree | prefer_sparse.py:28-33 | the slot of an entry is still free when the loop reaches it, because no slot has two entries |
| PreferSparse.GrantSlot | prefer_sparse.py:30-33 | the inner loop over one slot's requesters leaves the reservations and `reserved` as `Scan` says |
| PreferSparse.PreferSparse | prefer_sparse.py:7-54 | the reservations end as `SparseAllocation` of the requests and old reservations; an empty list fails with ZeroDivisionError, assuming the report succeeds on an empty list; otherwise the result is the None count |
| GraphSearch.DfsVisit | graph_coloring.py:32-40 | a visit keeps what was visited and adds the node |
| GraphSearch.DfsIsReachable | graph_coloring.py:42-44 | `dfs(start)` visits exactly the nodes reachable from `start` |
| GraphSearch.Claim | graph_coloring.py:53-55 | definition: claiming colour `c` sets the node's colour to `c`, adds `c` to the used colours and changes no other node; `GraphSearch.ClaimProper` and `GraphColoring.Graph.ClaimNode` state what a claim keeps |
| GraphSearch.ColorVisit | graph_coloring.py:46-58 | colouring keeps the visited set growing |
| GraphSearch.VisitFrame | graph_coloring.py:46-58 | used colours and visited nodes only grow, a colour once set stays set, and only nodes newly visited change colour |
| GraphSearch.OptionsFrame | graph_coloring.py:52-58 | the option loop only grows the state, and changes colours only at its own node and at nodes it newly visits |
| GraphSearch.VisitProper | graph_coloring.py:46-58 | colouring keeps the state proper: coloured nodes are visited, and no two nodes share a colour |
| GraphSearch.VisitCovers | graph_coloring.py:46-58 | every node newly visited is reachable and has all its options used; except for the start, it has a coloured neighbour that was visited |
| GraphSearch.OptionsOutcome | graph_coloring.py:52-58 | the node ends without a colour exactly when it had none and all its options were used; a new colour is one of its options, free when claimed |
| GraphSearch.NoColors | graph_coloring.py:17 | definition: every node starts without a colour; `GraphColoring.BuildGraph` states that the built graph has these colours |
| GraphSearch.ColoringProper | graph_coloring.py:60-63 | from blank colours, `color(start)` gives a proper colouring over all the nodes |
| GraphSearch.ColoringCovers | graph_coloring.py:60-63 | each visited node is reachable from `start` and has all its options used, and each one other than `start` has a coloured visited neighbour |
| GraphSearch.UnreachableUncoloured | graph_coloring.py:57-63 | a node not reachable from `start` keeps the colour None |
| GraphSearch.StartColoured | graph_coloring.py:60-63 | the start node ends coloured exactly when it has an option |
| GraphSearch.LastFreeOptionKept | graph_coloring.py:52-58 | example: an isolated node with options [1, 2] ends holding 2, with both used |
| GraphSearch.OptionsKeepLastFree | graph_coloring.py:52-58 | the option loop either changes nothing, because no option is free when the loop reaches it, or leaves the node holding the option at the last position that was free when the loop reached it |
| GraphSearch.NeighboursReach | graph_coloring.py:57-58 | the neighbour loop after a claim visits every neighbour |
| GraphSearch.VisitWitnessed | graph_coloring.py:46-58 | every colour `color_node` newly uses is an option of a visited node all of whose neighbours were then visited |
| GraphSearch.ColoringReachesAll | graph_coloring.py:57-63 | on a graph whose edges join exactly the nodes sharing an option, `color(start)` visits exactly the nodes reachable from `start` |
| ConflictEdges.NodeOptionsKeys | graph_coloring.py:75-78 | the node loop creates a node exactly for each id |
| ConflictEdges.NodeOptionsLast | graph_coloring.py:24-26 | the node of an id holds the requests of the last application with that id |
| ConflictEdges.ConflictNodes | graph_coloring.py:75-78 | the graph's nodes are the ids, each with the requests of the last application with that id |
| ConflictEdges.ConflictNeighbours | graph_coloring.py:82-96 | `x` is a neighbour of `a` exactly when `x != a` and applications with these ids request a common slot |
| ConflictEdges.ConflictSymmetric | graph_coloring.py:92-96 | edges are symmetric |
| ConflictEdges.ConflictClosed | graph_coloring.py:92-96 | every neighbour names a node, so no lookup in the traversals fails |
| ConflictEdges.TargetsMembers | graph_coloring.py:92-96 | an id is in a node's neighbour list exactly when some added edge leads from the node to it |
| ConflictEdges.RowMembers | graph_coloring.py:94-96 | the innermost loop adds an edge from `id` to each different id on the list |
| ConflictEdges.BlockMembers | graph_coloring.py:93-96 | one slot's list gives an edge between every ordered pair of different ids on it |
| ConflictEdges.LinksMembers | graph_coloring.py:92-96 | the edge loops add an edge exactly for each ordered pair of different ids on a common slot's list |
| ConflictEdges.RepeatedNeighbour | graph_coloring.py:92-96 | example: two applications that both request slots 1 and 2 each list the other twice |
| ConflictEdges.ConflictSharingEdges | graph_coloring.py:92-96 | with distinct ids, a node's neighbours are exactly the other nodes whose requests share a slot with its own |
| GraphColoring.Node.constructor | graph_coloring.py:12-17 | a node holds its name and options, with no neighbours and no colour |
| GraphColoring.Graph.constructor | graph_coloring.py:21-22 | the graph starts with no nodes |
| GraphColoring.Graph.AddNode | graph_coloring.py:24-26 | a fresh node under the application's id, with its requests, no neighbours and no colour, replaces any node there; other nodes stay |
| GraphColoring.Graph.AddEdge | graph_coloring.py:28-30 | appends `node2`'s name to the neighbours of `node1`'s node |
| GraphColoring.Graph.Visit | graph_coloring.py:32-40 | the visited set ends as `DfsVisit` says |
| GraphColoring.Graph.Dfs | graph_coloring.py:42-44 | afterwards `visited` holds exactly the nodes reachable from `start` |
| GraphColoring.Graph.ColorNode | graph_coloring.py:46-58 | the colours, `visited` and `used_colors` end as `ColorVisit` says |
| GraphColoring.Graph.ColorOptionNodes | graph_coloring.py:52-58 | the option loop leaves the state as `ColorOptions` says |
| GraphColoring.Graph.ClaimNode | graph_coloring.py:53-58 | claiming a free colour, then visiting the neighbours, leaves the state as `Claim` followed by `ColorNeighbours` |
| GraphColoring.Graph.ColorNeighbourNodes | graph_coloring.py:57-58 | the neighbour loop leaves the state as `ColorNeighbours` says |
| GraphColoring.Graph.Color | graph_coloring.py:60-63 | `color(start)` leaves the state as `ColorFrom` says |
| GraphColoring.AddTarget | graph_coloring.py:95-96 | one `add_edge` extends exactly one neighbour list by one id |
| GraphColoring.AddRow | graph_coloring.py:94-96 | the innermost loop extends the neighbour lists as `Row` says |
| GraphColoring.AddBlock | graph_coloring.py:93-96 | the loops over one slot's list extend the neighbour lists as `Block` says |
| GraphColoring.AddEdges | graph_coloring.py:92-96 | the edge loops extend the neighbour lists as `Links` of the requester map says |
| GraphColoring.AddNodes | graph_coloring.py:75-78 | the node loop gives a node per id, holding the last application's requests, with no neighbours |
| GraphColoring.RequestListsBuilt | graph_coloring.py:82-88 | the requests dictionary lists, for each slot, the ids of its requesters in order |
| GraphColoring.BuildGraph | graph_coloring.py:75-96 | the built graph is `ConflictGraph` of the requests and ids, and no node is coloured |
| GraphColoring.FinalColoring | graph_coloring.py:100 | the colouring `graph.color(list(graph.nodes)[0])` leaves is proper, over exactly the ids |
| GraphColoring.ColoringAllocation | graph_coloring.py:103-104 | definition: application `i` reserves the final colour of the node of its id; `GraphColoring.ColorAndReserve` states that the loops produce it, and the Coloring lemmas state its properties |
| GraphColoring.ReserveColors | graph_coloring.py:103-104 | each application reserves its node's colour |
| GraphColoring.ColorAndReserve | graph_coloring.py:100-104 | colouring from the first id and reserving gives `ColoringAllocation` |
| GraphColoring.GraphColoring | graph_coloring.py:65-140 | an empty list fails with IndexError; otherwise the reservations are `ColoringAllocation` and the result is the None count |
| GraphColoring.ColoringFromRequests | graph_coloring.py:52-54 | with distinct ids, every reservation is one of the application's own requests |
| GraphColoring.ColoringNoSlotHeldTwice | graph_coloring.py:53-55 | with distinct ids, no two applications hold the same slot |
| GraphColoring.ColoringStartResolved | graph_coloring.py:100 | the first application is resolved exactly when it requested something, unless a later application has its id |
| GraphColoring.ColoringReachable | graph_coloring.py:57-58 | only applications connected to the first through the conflict graph are resolved |
| GraphColoring.ColoringVisitsConnected | graph_coloring.py:100 | with distinct ids, the colouring visits exactly the nodes the conflict graph connects to the first application's node |
| GraphColoring.ColouredParent | graph_coloring.py:57-58 | a coloured node other than the start is a neighbour of another coloured node |
| GraphColoring.ColoringClaimedNeighbour | graph_coloring.py:57-58 | with distinct ids, a resolved application other than the first shares a slot with another resolved application |
| GraphColoring.ColoringIsolated | graph_coloring.py:92-100 | with distinct ids, an application other than the first that shares no slot stays unresolved |
| GraphColoring.OneContestedSlot | graph_coloring.py:100-104 | with distinct ids, when all request only the same slot, the first gets it and all others get nothing |
| GraphColoring.NoSharedSlot | graph_coloring.py:92-104 | with distinct ids, when no slot is shared, only the first application can be resolved, and it is resolved exactly when it requested something |
| GraphColoring.UnrepeatedSlotsOnlyFirst | graph_coloring.py:82-100 | with distinct ids, when no slot is requested twice, as with generated slots compared by identity, no application but the first is resolved |
| GraphColoring.SingleSlotScenario | graph_coloring.py:100-104 | three applications requesting slot 5 give `[Some(5), None, None]` |
| GraphColoring.DisjointScenario | graph_coloring.py:92-104 | four applications with disjoint requests give `[Some(1), None, None, None]` |

## Left out

- `print`, `perf_counter` timing, the pandas report (`generate_dataframe`, `sort_values`, `value_counts`) and the percent shown are not modelled; they have no effect on the reservations. The `try`/`except Exception` around `counts[None]` catches every exception there; it is assumed to fire only when there is no None, where its 0 is the same count. `generate_dataframe` is not part of this model.
- `percent = none_amount / len(appls)` is modelled only by its division by zero on an empty list, which is the `Err(ZeroDivisionError)` of the random-order and prefer-sparse strategies; the graph strategy raises IndexError before it. The floating-point value itself is not modelled.
- RandomOrder.RandomOrder and PreferSparse.PreferSparse: the ZeroDivisionError for an empty list assumes that `generate_dataframe`, `sort_values(by=["reserved"])` and `value_counts` (random-order.py:33-37, prefer_sparse.py:38-42) succeed on an empty list. `generate_dataframe` is not part of this model, so an earlier failure there is not modelled.
- GraphColoring.Graph.Visit, GraphColoring.Graph.ColorNode and GraphSearch.ColorVisit: `visit` and `color_node` are unbounded Python recursion, which raises RecursionError once the interpreter's recursion limit is passed, on a long enough chain of nodes. The model has no such limit and no such failure.
- The commented-out networkx drawing in `graph_coloring.py`, the `main` functions and `test_rig.py` are scripts that run the strategies. They are not modelled.
- `__repr__`/`__str__` and the `hsv(...)` string of `SlotSpace.color` are not modelled: the model returns the offset the hue is scaled from (`360 / range` times the offset, a float). `coeff` is not kept.
- `uuid.uuid4`, `random.randint` and the choices of `random.shuffle` are nondeterministic choices: any value of the right shape may be picked. `generate_id`'s slice is kept only as the id's length (6).
- The `reserved` field and the `reserve` method are used by all three strategies, but they are not in the `Application` class as given. They are modelled as a field that starts at None and a method that overwrites it.
- `list(graph.nodes)[0]`, the first key of the node dictionary, is modelled as the id of the first application. Python dictionaries keep insertion order, and an id inserted again keeps its first position.
- Applications.SlotSpace.constructor: requires a non-zero range, since the Python constructor raises ZeroDivisionError there; `Applications.NewSlotSpace` models that error path.
- RandomOrder.RandomOrder: requires the list to hold distinct application objects. A list holding the same object twice is not modelled, because positions stand for applications.
- PreferSparse.PreferSparse: requires distinct application objects, for the same reason.
- GraphColoring.ColoringFromRequests, GraphColoring.ColoringNoSlotHeldTwice, GraphColoring.ColoringClaimedNeighbour, GraphColoring.ColoringIsolated, GraphColoring.ColoringVisitsConnected, GraphColoring.OneContestedSlot, GraphColoring.NoSharedSlot and GraphColoring.UnrepeatedSlotsOnlyFirst require distinct ids. A repeated id (a uuid prefix collision) makes its applications share one node, which holds the last one's requests, so the earlier one may reserve a slot it never requested. `GraphColoring.ColoringAllocation` and `GraphColoring.GraphColoring` need no such condition.
- GraphColoring.ColoringClaimedNeighbour: does not state that the coloured neighbour was visited before the application's own node.
- PreferSparse.SparseConsistent and PreferSparse.SparseUnresolvedOnlyIfBlocked: assume that every application starts unreserved, as generated ones do. From arbitrary prior reservations only `PreferSparse.SparseKeepsPrior` is stated.
- RandomOrder.RandomOrder: its exact result is stated only when all applications start unreserved, as generated ones do. Otherwise it is stated through `Merge` with the old reservation, since `random_order` does not check `reserved` before reserving.
- RandomOrder.Shuffle: promises a permutation and nothing about the distribution of orders.

## Findings

| source | as written | input that shows it | evidently intended | confidence | as-written member | corrected member |
|---|---|---|---|---|---|---|
| random-order.py:25 | `slot not in reserved` compares `Slot` objects by identity, since `Slot` (applications.py:10-19) defines no `__eq__`. Slots pulled separately never compare equal, even with the same value, so the same slot value can be handed to several applications. The same identity comparison decides the `slot_counts` keys and `slot not in reserved` in prefer_sparse.py:20,31 and the `requests` keys in graph_coloring.py:85-88: each generated slot has one requester, so the conflict graph has no edges and only the first application is resolved (`GraphColoring.UnrepeatedSlotsOnlyFirst`) | two applications whose requested slots are two different `Slot` objects of value 5: both get a slot of value 5 | as the `Slot` docstring describes, a slot value is reserved by at most one application | not executed | RandomOrder.SameValueHeldTwice | RandomOrder.ValuesHeldOnce |
