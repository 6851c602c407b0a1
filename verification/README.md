# Verification of the ocloud-edge core

A Dafny model of the stateful and order-sensitive parts of ocloud-edge, with proofs of what
they promise. `dafny verify dfyconfig.toml` checks everything.

## What is modelled

**The NPU slice allocator** of the mock source (`AllocatorSpec`, `AllocatorRuns`,
`AllocatorUndo`, `AllocatorExact`, `AllocatorSource`). A class holds the NPU cache, the workloads, the id counter
and the deploy index; its loops pick slices manually or first-fit, mark them, look them up again
and release them, and every method is proved equal to a function of its inputs and the old
state. About that function it is proved, for whole runs, who owns which slice, exactly when a
deploy succeeds, and what a delete gives back. Three assumptions of the code are explicit: slice
ids are unique in the loaded cache (`Valid`, kept by every call), namespaces contain no `/`, and
the effective name is not in use (`FreshName`).

**The topology graph builder** (`TopologySpec`, `TopologyBuilder`, `TopologyProofs`,
`TopologyExact`, `TopologyOrder`): depth trimming, the two flags, the orphan guards, edge classification, and HCCS
rings with their in-place insertion sort. The builder appends to one output object, in the
source's order; beside it stands a description that does not follow the builder, of which nodes
and edges the inputs call for, and the two are proved to agree.

**Its inputs from custom resources** (`DeviceIds`, `DeviceExact`,
`SliceResolution`, `SliceExact`): printing and parsing of
device ids, flattening of pools into NPUs without duplicates, choice of a slice pool, slice
generation, and the sorts that make the result independent of listing order.

**The graph filters and the card geometry of the frontend** (`FocusFilter`, `FocusExact`,
`SiteLayout`, `SiteExact`): the
worklist search over possibly cyclic edges, the two single-pass expansions whose result depends
on edge order, and the grid of NPU dots with a ring box per HCCS group. JavaScript numbers are
modelled as exact reals.

**The TTL and LRU cache** (`LruSpec`, `LruCache`, `LruProofs`). The wrapped third-party cache is
modelled by its documented behaviour, a list in recency order; the class keeps the time stamps,
the pending reason and the counters beside it. Each call is one step and the clock is a
parameter.

**Two concurrent protocols as steps** (`LogBuffer`, `WsGate`): the drop-oldest log channel and
the websocket capacity gate, in every interleaving.

**Two string loops** (`PromQl` and `PromQlEnds`, `DeployName`): the rescanning template expansion, and the
reduction of a name to a DNS label (section 2.1 of RFC 1123, section 2.3.4 of RFC 1035).

`Wrappers`, `Text` and `Sorting` hold what these share: option and result types, Go's string
order and decimal printing, and the stable sort with its uniqueness and stability theorems.

## Where the code and its comments disagree

The model follows the code.

- `backend/pkg/api/ws.go:86` says that the atomic counter keeps concurrent upgrades from racing
  past the cap. It does not: check and increment are separate steps.
  `WsGate.CapHoldsIffOneAtATime` shows that the cap of 100 holds exactly when no two handlers are
  ever between them at once, and `WsGate.BoundIsReached` that the bound proved instead is reached.
- `frontend/src/components/TopologyGraph/TopologyGraph.tsx:927` promises one hop along placement
  edges. Because the sweep reads what it has just added, it can go further, depending on the
  order of the edges: `FocusFilter.OneHopDependsOnOrder` gives two orders with a resource in
  focus, `FocusFilter.OneHopFromPodDependsOnOrder` with a pod in focus, and
  `FocusFilter.OneHopForFocus` the condition for every focus.
- `backend/pkg/datasource/prometheus/metrics.go:160-165` calls the substitution left-to-right and
  non-overlapping because values introduce no `$`. Nothing checks that; with such a value the
  loop may rescan what it inserted, or never end (`PromQl.SelfReferenceNeverEnds`). It ends
  exactly when the template leads into no cycle of references among the values
  (`PromQlEnds.EndsExactly`), and it does what one left-to-right pass does, on all templates,
  exactly when no value that a template can name contains a `$` (`PromQl.OnePassIffDollarFree`).
- Deploy followed by DeleteDeploy is an undo only for a fresh name: DeleteDeploy looks the
  workload up by the name in the index. As long as no workload already carries the label of the
  new deploy, the undo holds exactly for a fresh name (`AllocatorUndo.UndoIffFresh`);
  `AllocatorUndo.SoughtIsOwnIffFresh` states when the lookup finds the right workload, and
  `AllocatorUndo.StaleNameLeaks` what is left behind otherwise.
- With other deploys in between, the undo also needs them to keep off the slices of the pair:
  one that lists such a slice fails beside the pair and may succeed without it
  (`AllocatorUndo.ConflictExample`).
- `backend/pkg/datasource/k8s/npu.go:274` limits its printer to 0 to 99;
  `DeviceIds.IndexOfPrinted` shows that this is exactly the range that is read back.

## Model

| member | source | states |
|---|---|---|
| AllocatorRuns.RunsKeepOwnership | backend/pkg/datasource/mock/deploy.go:91-387 | over every run of fresh-named deploys and deletes of any ids: every slice of a live deploy was free at first and is allocated to that deploy's own workload, every indexed id was issued once and is live, and every unowned slice has its initial status |
| AllocatorRuns.LiveDeploysAreDisjoint | backend/pkg/datasource/mock/deploy.go:91-387 | no two live deploys share a slice |
| AllocatorRuns.HolderUnique | backend/pkg/datasource/mock/deploy.go:200-208 | a slice listed by two live deploys would be one deploy: the allocation record names its holder |
| AllocatorRuns.StepKeepsInv | backend/pkg/datasource/mock/deploy.go:91-387 | each single call, whether it succeeds or not, keeps ownership, index and shape of the cache |
| AllocatorRuns.DeleteExact | backend/pkg/datasource/mock/deploy.go:334-387 | within a run, delete succeeds exactly on indexed ids and a failed delete changes nothing |
| AllocatorRuns.DeleteFindsOwn | backend/pkg/datasource/mock/deploy.go:352-382 | deleting a live deploy removes its own workload by swap with the last, frees its own slices and forgets its id |
| AllocatorRuns.SplitOfKey | backend/pkg/datasource/mock/deploy.go:352-361 | an index key splits back into namespace and name exactly when the namespace has no slash |
| AllocatorRuns.DeployIdInjective | backend/pkg/datasource/mock/deploy.go:172 | different counters give different deploy ids |
| AllocatorRuns.GeneratedNamesDiffer | backend/pkg/datasource/mock/deploy.go:163-171 | generated workload names never clash with each other, within one preset or across presets |
| AllocatorExact.FreeByPlace | backend/pkg/datasource/mock/deploy.go:306-326 | the candidates of auto placement are exactly the slices of status available, NPU by NPU in fixture order |
| AllocatorSpec.ManualPickExact | backend/pkg/datasource/mock/deploy.go:270-299 | a manual list is accepted exactly when its ids are distinct, known and available, and then those very slices are picked in the order listed |
| AllocatorSpec.PickIsFree | backend/pkg/datasource/mock/deploy.go:243-329 | whatever is picked is an available slice of the cache |
| AllocatorUndo.PickExact | backend/pkg/datasource/mock/deploy.go:243-329 | auto placement succeeds exactly when enough slices are free and takes the first ones; manual placement succeeds exactly when the ids are distinct, known, available and as many as needed |
| AllocatorUndo.ManualFirstBadId | backend/pkg/datasource/mock/deploy.go:277-294 | the first repeated, unknown or taken id decides whether the error is a conflict or an invalid request |
| AllocatorUndo.FailedDeployChangesNothing | backend/pkg/datasource/mock/deploy.go:91-161 | a failed deploy leaves the whole state as it was, and it fails exactly when validation or the pick fails |
| AllocatorUndo.DedupExact | backend/pkg/datasource/mock/deploy.go:434-450 | the node list has no repeats and the same members |
| AllocatorUndo.UndoBackToBack | backend/pkg/datasource/mock/deploy.go:211-381 | deploy then delete restores the workload sequence, the index and every slice status; the whole cache when free slices carried no record |
| AllocatorUndo.UndoAcrossOthers | backend/pkg/datasource/mock/deploy.go:211-381 | the same with any manual fresh-named deploys off the pair's slices and deletes of other ids in between: statuses, workload bag and index agree with the run that is given the same operations without the pair, up to renaming of ids |
| AllocatorUndo.StepAlike | backend/pkg/datasource/mock/deploy.go:91-387 | such an operation succeeds beside the pair exactly when it succeeds without it, and leaves the two runs one deploy apart |
| AllocatorUndo.PicksBesidePair | backend/pkg/datasource/mock/deploy.go:270-304 | beside a live deploy a manual list is accepted exactly when it is accepted without and keeps off that deploy's slices |
| AllocatorUndo.ConflictExample | backend/pkg/datasource/mock/deploy.go:270-304 | an input where the same request succeeds alone and fails beside another deploy |
| AllocatorUndo.PairRunsStayOneApart | backend/pkg/datasource/mock/deploy.go:91-387 | given the same such operations, the run with the pair and the run without stay one deploy apart |
| AllocatorUndo.UndoIffFresh | backend/pkg/datasource/mock/deploy.go:211-381 | within a run, and as long as no workload carries the new label yet, deploy then delete restores workloads and statuses exactly for a fresh name |
| AllocatorUndo.SoughtIsOwnIffFresh | backend/pkg/datasource/mock/deploy.go:352-368 | delete looks up the workload its deploy created exactly when the namespace has no slash and the name was free |
| AllocatorUndo.StaleNameLeaks | backend/pkg/datasource/mock/deploy.go:352-387 | otherwise the new workload stays, its id is forgotten, and its slices stay allocated except those the workload hit instead also lists |
| AllocatorSource.Source.Deploy | backend/pkg/datasource/mock/deploy.go:91-229 | outcome and whole new state of the call, with its loops and writes through pointers, are those of the specification |
| AllocatorSource.Source.DeleteDeploy | backend/pkg/datasource/mock/deploy.go:334-387 | outcome and whole new state of the call are those of the specification |
| AllocatorUndo.CheckExact | backend/pkg/datasource/mock/deploy.go:95-138 | a request is accepted exactly when it is well formed and its preset exists; otherwise the error tells which; and the slices needed are the replicas, zero counting as one, times what the first preset of that id takes, none or less counting as one |
| AllocatorExact.DeployAnswers | backend/pkg/datasource/mock/deploy.go:91-329 | when a request is granted: well formed, for an existing preset, and placeable; without a scheduling block or with an empty mode it is granted exactly when enough slices are free; and which error refuses it otherwise |
| AllocatorExact.DeployTakes | backend/pkg/datasource/mock/deploy.go:200-208 | the slices taken are as many as needed, those listed or the first free ones in order; slice by slice the cache is as before except that these are allocated to pod 0, container main, of the workload |
| AllocatorExact.DeployRecords | backend/pkg/datasource/mock/deploy.go:163-228 | the workload recorded, its trimmed or generated name, its type by the kind of the preset, the index entry, the counter and the response |
| AllocatorExact.DeployNodes | backend/pkg/datasource/mock/deploy.go:434-450 | the nodes listed are the named nodes of the slices taken, each once, in the order of the slices |
| AllocatorExact.DeleteAnswers | backend/pkg/datasource/mock/deploy.go:334-387 | a blank id is invalid, an unknown one not found, an entry without slash malformed, each without a change; otherwise the first workload of the namespace and name in the entry is gone, the last one in its place, and its slices are available without a record; the entry goes in any case |
| AllocatorSource.Source.PickSlices | backend/pkg/datasource/mock/deploy.go:243-329 | both placement modes yield the specified picks or error |
| AllocatorSource.Source.PickAuto | backend/pkg/datasource/mock/deploy.go:306-328 | the first-fit loop finds the first free slices in fixture order, or reports too few |
| AllocatorSource.Source.PickManual | backend/pkg/datasource/mock/deploy.go:270-304 | the nested placement loop yields the picks, or the error of the first bad id |
| AllocatorSource.Source.BuildIndex | backend/pkg/datasource/mock/deploy.go:259-268 | the id index holds exactly the known ids, each with its own position |
| AllocatorSource.Source.Mark | backend/pkg/datasource/mock/deploy.go:200-208 | the writes change exactly the picked slices |
| AllocatorSource.Source.Release | backend/pkg/datasource/mock/deploy.go:369-376 | the writes free exactly the listed slices; unknown ids are passed over |
| AllocatorSource.Source.FindSlice | backend/pkg/datasource/mock/deploy.go:391-403 | finds the slice of an id exactly when it is known |
| AllocatorSource.DedupSorted | backend/pkg/datasource/mock/deploy.go:436-450 | keeps first occurrences in order |
| TopologyBuilder.BuildTopology | backend/pkg/aggregator/topology.go:250-433 | the builder's output graph, at every depth and with any flags, is the specified one |
| TopologyBuilder.Topology.AppendFabric | backend/pkg/aggregator/topology.go:451-529 | appends exactly the specified switches and classified links |
| TopologyBuilder.Topology.AppendHccs | backend/pkg/aggregator/topology.go:553-602 | appends exactly the specified ring edges, group by group |
| TopologyBuilder.Topology.AppendRing | backend/pkg/aggregator/topology.go:575-601 | appends one group's edges: none, one, or a ring |
| TopologyBuilder.GroupNpus | backend/pkg/aggregator/topology.go:558-573 | the groups in order of first appearance, each with its members in input order |
| TopologyBuilder.Topology.AppendWorkloads | backend/pkg/aggregator/topology.go:642-761 | appends exactly the specified workloads, pods and their edges |
| TopologyBuilder.SortNpusByIndex | backend/pkg/aggregator/topology.go:607-613 | the hand-written sort leaves the stable order of its input, in place |
| TopologyBuilder.SiftDown | backend/pkg/aggregator/topology.go:609-611 | one inner loop inserts the element behind every element that may precede it and touches nothing after it |
| TopologyExact.NodesExact | backend/pkg/aggregator/topology.go:250-761 | a node is in the graph exactly when the inputs, depth and flags call for it, said without the builder's loops and guards |
| TopologyExact.EdgesExact | backend/pkg/aggregator/topology.go:250-761 | the same for every edge of all seven kinds, an HCCS edge being a step of the ring that the NPUs of one node and group form by ascending index |
| TopologyOrder.NodesInOrder | backend/pkg/aggregator/topology.go:250-761 | the whole node sequence: cluster, nodes, NPUs, slices, switches, then workload by workload with its pods, each kind in input order |
| TopologyOrder.EdgesInOrder | backend/pkg/aggregator/topology.go:250-761 | the whole edge sequence: containment, links, rings, then workload by workload the edges of its pods and its pairs, each in input order |
| TopologyOrder.RingsInOrder | backend/pkg/aggregator/topology.go:553-602 | the HCCS edges are the rings of the groups one after the other, by the first NPU of each group |
| TopologyExact.PodIsBoundOrRuns | backend/pkg/aggregator/topology.go:693-730 | binds-to and runs-on never both fire for one pod, as long as pod names are unique within the namespace |
| TopologyProofs.BuildIsClosed | backend/pkg/aggregator/topology.go:250-433 | no edge dangles, at any depth and with any flags |
| TopologyProofs.ContainsIsATree | backend/pkg/aggregator/topology.go:250-433 | with distinct ids the contains edges of the whole graph form a tree rooted at the cluster that spans exactly cluster, nodes, NPUs and slices |
| TopologyProofs.ContainsEdges | backend/pkg/aggregator/topology.go:250-433 | fabric and workloads add no contains edge |
| TopologyExact.GroupRings | backend/pkg/aggregator/topology.go:553-613 | with fabric, the HCCS edges that leave the shown NPUs of a node and named group are their ring: nothing below two members, one edge for two, otherwise a closed walk leaving every member once by ascending index, ties in input order |
| TopologyProofs.HccsStayInGroups | backend/pkg/aggregator/topology.go:553-602 | no HCCS edge crosses nodes or groups |
| TopologyProofs.RingOfOneGroup | backend/pkg/aggregator/topology.go:575-602 | of all ring edges, those leaving a group's members are exactly that group's ring |
| TopologyProofs.NoFabricNoHccs | backend/pkg/aggregator/topology.go:553-556 | without fabric there is no HCCS edge |
| TopologyProofs.FlagsCompose | backend/pkg/aggregator/topology.go:319-761 | with both flags the graph is the plain one, then what fabric alone adds, then what workloads alone add |
| TopologyProofs.FlagsGuardInputs | backend/pkg/aggregator/topology.go:451-645 | with a flag off the inputs it guards do not matter |
| TopologyProofs.DepthsNest | backend/pkg/aggregator/topology.go:70-93 | with flags off the graph at depth node is a prefix of the one at depth npu, and that of the one at every other depth, whatever case and white space the depths are written with |
| TopologyProofs.NamedDepthsNest | backend/pkg/aggregator/topology.go:70-93 | the same for the texts node, npu and slice, and the empty text is slice |
| TopologyProofs.LinksWithin | backend/pkg/aggregator/topology.go:478-529 | a link's ends are both in scope, and it is a network edge exactly between two nodes |
| TopologyExact.MembersAre | backend/pkg/aggregator/topology.go:561-573 | a group holds exactly the NPUs of its node and non-empty group id whose id the graph shows, in input order |
| TopologyProofs.GroupOrderExact | backend/pkg/aggregator/topology.go:561-573 | each non-empty group is listed once |
| DeviceIds.NodeOfPrinted | backend/pkg/datasource/k8s/npu.go:270-284 | the node name comes back from every printed id, except that the empty name is refused |
| DeviceExact.PrintedBeyond | backend/pkg/datasource/k8s/npu.go:274-284 | beyond it: the digit 0 for negative indexes, and a first character that wraps around as a byte above 99 |
| DeviceExact.PrintedDecimal | backend/pkg/datasource/k8s/npu.go:270-284 | in its range the printed id is node, separator and decimal index |
| DeviceIds.IndexOfPrinted | backend/pkg/datasource/k8s/npu.go:274-284 | the index comes back exactly for 0 to 99, byte wrap-around included |
| DeviceIds.IndexOfDeviceId | backend/pkg/datasource/crd/topology.go:226-241 | the digit loop computes the number after the last separator modulo 64-bit wrap-around, and 0 for anything else |
| DeviceIds.IndexReadsDigits | backend/pkg/datasource/crd/topology.go:226-241 | the index is the number the digits spell exactly when a 64-bit integer holds it |
| DeviceExact.ReadsExact | backend/pkg/datasource/crd/topology.go:214-241 | an id is read as a non-empty node name, the last separator and what follows it, and as nothing else |
| DeviceIds.LastIndexIs | backend/pkg/datasource/crd/topology.go:214-219 | a separator with none to its right is the one found |
| DeviceIds.ProjectPoolsToNpus | backend/pkg/datasource/crd/topology.go:132-177 | the nested loops yield the first listing of each readable id, sorted, with one count per node that has NPUs |
| DeviceExact.NpusOfPools | backend/pkg/datasource/crd/topology.go:132-177 | the NPUs are exactly those whose id is listed and readable, with the node, the index and the group text that the id and the first peer group listing it give, in strictly ascending order of id |
| DeviceExact.PrintedNpu | backend/pkg/datasource/crd/topology.go:147-168 | a listed id printed for a node and an index from 0 to 99 becomes an NPU of that node with that index |
| DeviceExact.HostsAscend | backend/pkg/datasource/crd/topology.go:245-252 | the nodes are exactly those of the NPUs, each once, ascending |
| DeviceExact.OnlyHosts | backend/pkg/datasource/crd/topology.go:79-121 | at depth node the graph is the cluster and these nodes |
| DeviceIds.KeptIds | backend/pkg/datasource/crd/topology.go:147-156 | no readable id is lost and none appears twice |
| DeviceIds.CountsAddUp | backend/pkg/datasource/crd/topology.go:154 | the per-node counts, over any distinct names that cover the nodes, sum to the number of NPUs |
| DeviceIds.GroupsMeet | backend/pkg/datasource/crd/topology.go:162-166 | two devices meet in one HCCS group exactly when node and peer group agree |
| DeviceIds.SortedKeys | backend/pkg/datasource/crd/topology.go:245-252 | whatever order the map yields its keys in, the result lists each once, sorted |
| DeviceIds.GetTopology | backend/pkg/datasource/crd/topology.go:79-121 | an unknown cluster is not found; otherwise the graph depends on pools, depth and flags alone |
| DeviceIds.NothingDropped | backend/pkg/datasource/crd/topology.go:79-173 | below depth node the graph shows the cluster, every node with an NPU and every NPU, and the node counts add up to their number |
| DeviceIds.PeerGroupsAreRings | backend/pkg/datasource/crd/topology.go:132-177 | with fabric, each peer group of each node becomes one ring over exactly the NPUs whose id it lists first |
| DeviceExact.PeersRingByNumber | backend/pkg/datasource/crd/topology.go:132-177 | as long as its ids were printed, a peer group is wired in the order of the numbers in its ids |
| SliceResolution.ResolveIgnoresOrder | backend/pkg/datasource/crd/resolution.go:45-86 | for distinct NPU ids and distinct pool (namespace, name) the resolved sequence does not depend on the order of NPUs or pools |
| SliceResolution.ResolveExact | backend/pkg/datasource/crd/resolution.go:45-86 | the result is exactly the slices cut from the NPUs not used whole, with strictly ascending ids |
| SliceExact.PickServes | backend/pkg/datasource/crd/resolution.go:103-124 | the pool picked is, by name and then namespace, the first of those whose reference ends the group, is the model or begins the node name; of all pools when there is none such |
| SliceExact.SlicesAre | backend/pkg/datasource/crd/resolution.go:45-171 | the result is exactly the slices that the NPUs not used whole yield from the pools that serve them, field by field, in strictly ascending order of id |
| SliceResolution.ResolveSlicesForNpus | backend/pkg/datasource/crd/resolution.go:45-86 | the loops, skips and sorts compute the specified sequence |
| SliceResolution.PickIsLeast | backend/pkg/datasource/crd/resolution.go:103-124 | the matching pool smallest by name, then namespace, serves an NPU; when none matches, the smallest of all |
| SliceResolution.OrderedByNameFirst | backend/pkg/datasource/crd/pools.go:46-51 | listing by (namespace, name) and then sorting stably by name orders the pools by (name, namespace) |
| SliceResolution.PickPool | backend/pkg/datasource/crd/resolution.go:103-124 | the search loop finds the first match, or falls back to the first pool |
| SliceResolution.GenerateSlices | backend/pkg/datasource/crd/resolution.go:129-164 | one slice per template, two for dynamic pools, none for an unknown strategy |
| SliceResolution.ListPools | backend/pkg/datasource/crd/pools.go:38-52 | unreadable objects are dropped and the rest is sorted |
| SliceResolution.SliceIdInjective | backend/pkg/datasource/crd/resolution.go:169-171 | a slice id determines its NPU and its position |
| FocusFilter.Descendants | frontend/src/components/TopologyGraph/TopologyGraph.tsx:942-960 | the worklist search ends, whatever cycles there are, with exactly the ids reached from the anchor |
| FocusFilter.SweepExact | frontend/src/components/TopologyGraph/TopologyGraph.tsx:962-978 | one sweep adds exactly the ids linked to the visible ones by wanted edges in list order |
| FocusFilter.SweepCovers | frontend/src/components/TopologyGraph/TopologyGraph.tsx:962-978 | nothing gets hidden and both ends of every wanted edge at a visible id are visible |
| FocusFilter.FilterForFocus | frontend/src/components/TopologyGraph/TopologyGraph.tsx:935-987 | a missing anchor leaves the graph alone; otherwise exactly the visible nodes and the edges between them remain |
| FocusExact.FocusKeeps | frontend/src/components/TopologyGraph/TopologyGraph.tsx:935-987 | shown are the ids that contains edges reach from the anchor, then what binds-to, runs-on and allocated edges, then what pd-pair edges link to them in list order, at least the other end of each such edge, and nothing else; nodes and edges stay in order and closed graphs closed |
| FocusFilter.KeepIsClosed | frontend/src/components/TopologyGraph/TopologyGraph.tsx:980-986 | restricting a closed graph leaves no dangling edge |
| FocusFilter.OneHopDependsOnOrder | frontend/src/components/TopologyGraph/TopologyGraph.tsx:962-972 | the same two edges in two orders: the sweep is one hop in one and not in the other |
| FocusFilter.OneHopForFocus | frontend/src/components/TopologyGraph/TopologyGraph.tsx:942-972 | for every focus, when placement edges lead from pods to resources and containment does not touch pods: the sweep is one hop exactly when, later in the list, no pod with an edge into the focus has one out of it and no resource of a pod in focus has an edge from another pod |
| FocusFilter.OneHopExactly | frontend/src/components/TopologyGraph/TopologyGraph.tsx:962-972 | the half for a focus that holds only resources |
| FocusFilter.OneHopFromPod | frontend/src/components/TopologyGraph/TopologyGraph.tsx:962-972 | the half for a focus that holds only pods |
| FocusFilter.OneHopFromPodDependsOnOrder | frontend/src/components/TopologyGraph/TopologyGraph.tsx:962-972 | a pod in focus drags in another pod on its slice in one order of the edges and not in the other |
| FocusFilter.FilterForExpanded | frontend/src/components/TopologyGraph/TopologyGraph.tsx:884-919 | the slice filter with its parent map computes the specified graph |
| FocusExact.ExpandKeeps | frontend/src/components/TopologyGraph/TopologyGraph.tsx:884-919 | a slice shows exactly when its last containment edge comes from an expanded parent, all else always; nodes and edges stay in order; no edge dangles; expanding more hides nothing |
| SiteLayout.LayoutWorkerNpus | frontend/src/components/TopologyGraph/siteLayout.ts:81-138 | dots and rings pushed by the loops are the specified ones |
| SiteExact.CardIs | frontend/src/components/TopologyGraph/siteLayout.ts:81-138 | the whole card in numbers: groups by the first NPU of each, one block below the other from 58 down, four dots to a row by ascending index, and the box of each ring |
| SiteLayout.Partition | frontend/src/components/TopologyGraph/siteLayout.ts:89-100 | groups in order of first appearance with their members in input order |
| SiteLayout.EachNpuPlacedOnce | frontend/src/components/TopologyGraph/siteLayout.ts:81-138 | the dots are those of a rearrangement of the NPUs, one for each |
| SiteLayout.DotsNeverOverlap | frontend/src/components/TopologyGraph/siteLayout.ts:105-117 | no two dot boxes have a point in common, for any number of NPUs and groups |
| SiteLayout.RingsEncloseTheirGroups | frontend/src/components/TopologyGraph/siteLayout.ts:119-136 | exactly one ring per named group of two or more; it counts its NPUs, holds the dot of every NPU of the group with the padding, is clear of the dot of every other NPU, and no two rings touch |
| SiteExact.RingIff | frontend/src/components/TopologyGraph/siteLayout.ts:119-136 | a ring of that group exists exactly when it is named and two NPUs are in it, and it counts them |
| SiteLayout.EachNpuInItsRing | frontend/src/components/TopologyGraph/siteLayout.ts:81-138 | with distinct ids the dot that carries an NPU's id is that NPU's: under what RingsEncloseTheirGroups states it is inside the ring of its group and outside every other |
| SiteLayout.RingIsTight | frontend/src/components/TopologyGraph/siteLayout.ts:119-136 | the ring is no larger than that: on every side a dot of the group is exactly the padding away |
| SiteLayout.GroupReadsByIndex | frontend/src/components/TopologyGraph/siteLayout.ts:105-117 | read row by row, a group's dots follow the NPU index |
| LruProofs.GetMeans | backend/pkg/cache/lru.go:103-161 | over every history with a monotone clock, a hit is the latest Add not undone and at most TTL old; a miss is never added, undone, too old, or crowded out by MaxEntries other keys |
| LruProofs.PlainHitsExactly | backend/pkg/cache/lru.go:103-137 | without TTL and removals a get hits exactly when the key was added and fewer than MaxEntries other keys were used since |
| LruProofs.RunsMean | backend/pkg/cache/lru.go:103-161 | the invariant behind it: entries hold the latest values in recency order, and every missing key is accounted for |
| LruProofs.BooksBalance | backend/pkg/cache/lru.go:72-161 | over every history the stamped keys are the cached keys, the size is within bounds, the causes sum to the total, and insertions equal length plus evictions |
| LruProofs.EvictionsHaveTheirCause | backend/pkg/cache/lru.go:72-161 | a Get moves only the TTL counter, an Add only the capacity counter, Remove and Purge only the explicit one, by the number of entries evicted |
| LruProofs.AnswersTell | backend/pkg/cache/lru.go:103-161 | an Add reports an eviction exactly when a missing key meets a full cache, which is when one is counted; a Remove reports whether the key was there; a Purge leaves nothing |
| LruCache.New | backend/pkg/cache/lru.go:55-92 | illegal options are refused; otherwise an empty cache with balanced books |
| LruCache.LRU.Get | backend/pkg/cache/lru.go:103-124 | new state and result are those of the step, and the pending reason is Capacity again |
| LruCache.LRU.Add | backend/pkg/cache/lru.go:128-137 | new state and result are those of the step |
| LruCache.LRU.Remove | backend/pkg/cache/lru.go:141-148 | new state and result are those of the step |
| LruCache.LRU.Purge | backend/pkg/cache/lru.go:155-161 | every entry is evicted once under Explicit |
| LruCache.LRU.OnEvicted | backend/pkg/cache/lru.go:72-84 | the callback counts the pending reason and drops the stamp |
| LruCache.EvictionCounter.Inc | backend/pkg/cache/eviction.go:21-31 | total and the one cause move together |
| LogBuffer.BetweenTicks | backend/pkg/datasource/mock/logs.go:130-157 | in every interleaving, between ticks the buffer is the newest stretch of lines, at most 16; nothing was lost at the last branch; received lines are in order; every older line was received or dropped, once |
| LogBuffer.RetryAlwaysEnqueues | backend/pkg/datasource/mock/logs.go:149-154 | the second offer always finds room |
| LogBuffer.FullAtSixteen | backend/pkg/datasource/mock/logs.go:130-144 | an offer fails exactly when 16 lines wait, and those are the 16 before it |
| LogBuffer.KeepingUpLosesNothing | backend/pkg/datasource/mock/logs.go:140-157 | a consumer for whom no offer finds a full buffer has received every line but those waiting |
| LogBuffer.RunsKeepInv | backend/pkg/datasource/mock/logs.go:130-157 | the invariant behind them holds at every step, also between the producer's branches |
| WsGate.RunsAreBounded | backend/pkg/api/ws.go:85-149 | in every interleaving the counter is the number of connections served and at most 99 plus the most handlers at once past the check and not counted |
| WsGate.BoundIsReached | backend/pkg/api/ws.go:85-120 | for every such number there is a run that reaches the bound |
| WsGate.HandlersStand | backend/pkg/api/ws.go:85-149 | in every interleaving a handler is past the check exactly since it found less than 100 connections and until it fails or counts, and served exactly since it counted and until it leaves |
| WsGate.PeakIsMost | backend/pkg/api/ws.go:85-120 | the number in the bound is the most handlers that ever were between check and count |
| WsGate.CapHoldsIffOneAtATime | backend/pkg/api/ws.go:86-120 | the cap of 100 holds in all runs exactly when at most one handler is ever in between |
| PromQlEnds.ExpandPromQL | backend/pkg/datasource/prometheus/metrics.go:163-196 | with dollar-free values, and on every template that leads into no cycle of references, the loop ends with no dollar left; with dollar-free values it takes as many rounds as there are dollars and equals one left-to-right pass |
| PromQlEnds.EndsExactly | backend/pkg/datasource/prometheus/metrics.go:163-196 | the loop ends exactly on the templates from which no cycle of references among the values is reached |
| PromQlEnds.RoundMentions | backend/pkg/datasource/prometheus/metrics.go:169-195 | a round replaces the first mention by those of its value |
| PromQlEnds.ReferencesMayEnd | backend/pkg/datasource/prometheus/metrics.go:163-196 | an input whose values refer to each other and on which the loop still ends |
| PromQl.OnePassIffDollarFree | backend/pkg/datasource/prometheus/metrics.go:160-196 | on all templates the loop ends with what one pass yields exactly when no value a template can name contains a dollar |
| PromQlEnds.ReplaceFirst | backend/pkg/datasource/prometheus/metrics.go:169-195 | one turn of the loop, with its scan, replaces the first maximal name |
| PromQl.DoneIsOnePass | backend/pkg/datasource/prometheus/metrics.go:163-196 | with dollar-free values the rescanning loop does what a single pass does, in that many rounds |
| PromQl.RoundStep | backend/pkg/datasource/prometheus/metrics.go:169-195 | a round does not change what one pass yields |
| PromQl.RoundIs | backend/pkg/datasource/prometheus/metrics.go:163-196 | a round puts in, for the first dollar and the longest run of letters, digits and underscores behind it, the value of that name, or .* when it is absent or empty; a single pass does so and goes on behind it |
| PromQl.EndsInTimeIffDollarFree | backend/pkg/datasource/prometheus/metrics.go:163-196 | every template is done after as many rounds as it has dollars exactly when no value a template can name contains one |
| PromQl.SelfReferenceNeverEnds | backend/pkg/datasource/prometheus/metrics.go:163-196 | a value that names itself keeps the loop turning |
| DeployName.SanitizeDeployName | backend/pkg/datasource/k8s/deploy.go:386-411 | the loops compute the specified name |
| DeployName.Collapse | backend/pkg/datasource/k8s/deploy.go:404-406 | the replacement loop ends with every run of dashes squeezed to one |
| DeployName.SqueezeReplace | backend/pkg/datasource/k8s/deploy.go:404-406 | one replacement sweep keeps the squeezed form |
| DeployName.SanitizeYieldsLabel | backend/pkg/datasource/k8s/deploy.go:382-411 | the result is empty or a label: at most 63 characters of a-z, 0-9 and dash, no dash at an end, none doubled |
| DeployName.SanitizeIsOnePass | backend/pkg/datasource/k8s/deploy.go:386-411 | replacing, trimming and collapsing amount to one pass that copies letters and digits and leaves one dash for the separators between two of them, then the cut |
| DeployName.SanitizeBetween | backend/pkg/datasource/k8s/deploy.go:391-406 | between letters or digits, dash, underscore, dot and space become one dash, a letter or digit stays in lower case, and any other character vanishes |
| DeployName.SanitizeIsProjection | backend/pkg/datasource/k8s/deploy.go:386-411 | sanitizing twice is sanitizing once, and exactly the labels are left alone |
| DeployName.SanitizeKeepsAlnums | backend/pkg/datasource/k8s/deploy.go:386-411 | the letters and digits survive in order up to the cut |
| Text.LessExact | backend/pkg/datasource/crd/resolution.go:60-84 | strings are ordered by the first place where they differ, a string before its extensions |
| Text.DigitByDigit | backend/pkg/datasource/mock/deploy.go:168-172 | numbers are printed and read in decimal, most significant digit first |
| Text.LowerExact | backend/pkg/aggregator/topology.go:81 | capital letters become small ones by their place in the alphabet, and besides them two characters become ASCII letters |
| Text.TrimSpaceExact | backend/pkg/datasource/mock/deploy.go:98-164 | exactly the outer characters with the White_Space property are trimmed |
| Sorting.StableSortStable | backend/pkg/aggregator/topology.go:605-613 | elements that are tied keep their order |

## Left out

- AllocatorUndo.UndoAcrossOthers: covers other deploys with manual placement off the pair's slices and a name of their own; first-fit picks depend on the pair's slices and generated names on the counter, so those runs are not comparable.
- HTTP handlers, routing, JSON, configuration, logging, error texts and every `main.go`.
- Context cancellation and loader errors at the start of each call; the models start from loaded values.
- The integer width of counters, replica counts and their product; only the device-id index is modelled with its 64-bit wrap-around.
- Pointers into the NPU cache are positions, and a write through one replaces the value there.
- Workload fields that no operation reads back: status, ready count, creation time and labels other than the deploy id.
- LruCache.LRU.Get: is one step, so the gap that the source leaves unlocked between the age check and the lookup is not modelled.
- The mutexes of the allocator and of the cache: each call is one step.
- The wrapped cache's own implementation, the eviction and hit callbacks, the metrics counters and the catalog of caches.
- Labels, statuses, attribute maps, bandwidths and the timestamp of topology nodes and edges, including the node counts stamped there.
- Reading pool status and pool objects out of unstructured JSON; an unreadable pool is an absent value.
- The caption text of a ring, and everything the layout does outside the card.
- Text of log lines, metric series and Grafana links; workload lookup before a log stream.
- Lease election, the operators, the websocket payloads and heartbeats.
- The mock data generator and all fixtures.
