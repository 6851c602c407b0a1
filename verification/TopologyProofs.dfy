/** What every topology graph satisfies: self-consistency, the containment tree, the HCCS
    rings, and the independence of the two flags and of the depth. */
module TopologyProofs {
  import opened Wrappers
  import opened Sorting
  import opened TopologySpec
  import Text

  function Ids(nodes: seq<Node>): set<string> {
    set n | n in nodes :: n.id
  }

  /** Every edge runs between the given ids. */
  predicate Within(edges: seq<Edge>, ids: set<string>) {
    forall e :: e in edges ==> e.source in ids && e.target in ids
  }

  predicate Closed(g: Graph) {
    Within(g.edges, Ids(g.nodes))
  }

  // ---------------------------------------------------------------- self-consistency

  lemma {:induction false} KeptNpusAreHosted(hostIds: set<string>, npus: seq<Option<Npu>>)
    ensures forall n :: n in KeptNpus(hostIds, npus) ==> n.nodeName in hostIds && Some(n) in npus
  {
    if npus != [] {
      KeptNpusAreHosted(hostIds, npus[..|npus| - 1]);
      assert npus == npus[..|npus| - 1] + [npus[|npus| - 1]];
    }
  }

  lemma {:induction false} KeptSlicesAreOwned(npuIds: set<string>, slices: seq<Slice>)
    ensures forall s :: s in KeptSlices(npuIds, slices) ==> s.parentNpu in npuIds && s in slices
  {
    if slices != [] {
      KeptSlicesAreOwned(npuIds, slices[..|slices| - 1]);
      assert slices == slices[..|slices| - 1] + [slices[|slices| - 1]];
    }
  }

  lemma NodesIds(ids: seq<string>, kind: NodeType)
    ensures Ids(Nodes(ids, kind)) == ToSet(ids)
  {
    forall x | x in ids ensures x in Ids(Nodes(ids, kind)) {
      var i :| 0 <= i < |ids| && ids[i] == x;
      assert Nodes(ids, kind)[i] in Nodes(ids, kind) && Nodes(ids, kind)[i].id == x;
    }
  }

  lemma IdsOfConcat(a: seq<Node>, b: seq<Node>)
    ensures Ids(a + b) == Ids(a) + Ids(b)
  {
  }

  /** The ids of the containment tree. */
  function TreeIds(x: Inputs): seq<string>
    requires x.cluster.Some?
  {
    [x.cluster.value] + HostsOf(x) + NpuIds(NpusOf(x)) + SliceIds(SlicesOf(x))
  }

  lemma TreeNodes(x: Inputs)
    requires x.cluster.Some?
    ensures Ids(Tree(x).nodes) == ToSet(TreeIds(x))
    ensures ToSet(HostsOf(x)) <= ToSet(TreeIds(x))
    ensures ToSet(NpuIds(NpusOf(x))) <= ToSet(TreeIds(x))
    ensures ToSet(SliceIds(SlicesOf(x))) <= ToSet(TreeIds(x))
  {
    FourParts(x.cluster.value, HostsOf(x), NpuIds(NpusOf(x)), SliceIds(SlicesOf(x)));
  }

  lemma FourParts(root: string, a: seq<string>, b: seq<string>, c: seq<string>)
    ensures Ids([Node(root, ClusterNode)] + Nodes(a, HostNode) + Nodes(b, NpuNode) + Nodes(c, SliceNode)) ==
        ToSet([root] + a + b + c)
    ensures ToSet([root] + a + b + c) == {root} + ToSet(a) + ToSet(b) + ToSet(c)
  {
    NodesIds(a, HostNode);
    NodesIds(b, NpuNode);
    NodesIds(c, SliceNode);
    IdsOfConcat([Node(root, ClusterNode)], Nodes(a, HostNode));
    IdsOfConcat([Node(root, ClusterNode)] + Nodes(a, HostNode), Nodes(b, NpuNode));
    IdsOfConcat([Node(root, ClusterNode)] + Nodes(a, HostNode) + Nodes(b, NpuNode), Nodes(c, SliceNode));
    assert Ids([Node(root, ClusterNode)]) == {root};
  }

  lemma TreeIsClosed(x: Inputs)
    requires x.cluster.Some?
    ensures Closed(Tree(x))
  {
    var ids := ToSet(TreeIds(x));
    TreeNodes(x);
    KeptNpusAreHosted(ToSet(HostsOf(x)), x.npus);
    KeptSlicesAreOwned(ToSet(NpuIds(NpusOf(x))), x.slices);
    forall e | e in NpuGraph(NpusOf(x)).edges ensures e.source in ids && e.target in ids {
      var i :| 0 <= i < |NpusOf(x)| && e == Edge(NpusOf(x)[i].nodeName, NpusOf(x)[i].id, Contains);
      assert NpusOf(x)[i] in NpusOf(x) && NpuIds(NpusOf(x))[i] in NpuIds(NpusOf(x));
    }
    forall e | e in SliceGraph(SlicesOf(x)).edges ensures e.source in ids && e.target in ids {
      var i :| 0 <= i < |SlicesOf(x)| && e == Edge(SlicesOf(x)[i].parentNpu, SlicesOf(x)[i].id, Contains);
      assert SlicesOf(x)[i] in SlicesOf(x) && SliceIds(SlicesOf(x))[i] in SliceIds(SlicesOf(x));
    }
  }

  lemma {:induction false} LinksWithin(hostIds: set<string>, switchIds: set<string>, links: seq<Link>)
    ensures Within(LinkEdges(hostIds, switchIds, links), hostIds + switchIds)
    ensures forall e :: e in LinkEdges(hostIds, switchIds, links) ==>
              e.kind == (if e.source in hostIds && e.target in hostIds then Network else FabricLink)
  {
    if links != [] {
      LinksWithin(hostIds, switchIds, links[..|links| - 1]);
    }
  }

  lemma {:induction false} BindingsWithin(podId: string, sliceIds: set<string>, bindings: seq<string>)
    ensures forall e :: e in BindingEdges(podId, sliceIds, bindings) ==>
              e.source == podId && e.target in sliceIds && e.kind == BindsTo
  {
    if bindings != [] {
      BindingsWithin(podId, sliceIds, bindings[..|bindings| - 1]);
    }
  }

  lemma {:induction false} PodsWithin(namespace: string, hostIds: set<string>, sliceIds: set<string>, pods: seq<Pod>)
    ensures var g := PodsGraph(namespace, hostIds, sliceIds, pods);
      && Within(g.edges, hostIds + sliceIds + Ids(g.nodes))
      && (forall n :: n in PodNames(pods) ==> PodId(namespace, n) in Ids(g.nodes))
      && (forall e :: e in g.edges ==> e.kind == BindsTo || e.kind == RunsOn)
  {
    if pods != [] {
      var before, p := pods[..|pods| - 1], pods[|pods| - 1];
      PodsWithin(namespace, hostIds, sliceIds, before);
      BindingsWithin(PodId(namespace, p.name), sliceIds, p.bindings);
      var g, h := PodsGraph(namespace, hostIds, sliceIds, before), PodGraph(namespace, hostIds, sliceIds, p);
      IdsOfConcat(g.nodes, h.nodes);
      assert pods == before + [p];
      if p.name != "" {
        assert Node(PodId(namespace, p.name), PodNode) in h.nodes;
      }
    }
  }

  lemma {:induction false} PairsWithin(namespace: string, names: set<string>, relations: seq<Relation>)
    ensures forall e :: e in PairEdges(namespace, names, relations) ==>
              e.kind == PdPair && exists a, b ::
                  a in names && b in names && e.source == PodId(namespace, a) && e.target == PodId(namespace, b)
  {
    if relations != [] {
      PairsWithin(namespace, names, relations[..|relations| - 1]);
    }
  }

  lemma {:induction false} WorkloadsWithin(hostIds: set<string>, sliceIds: set<string>, workloads: seq<Workload>)
    ensures var g := WorkloadsGraph(hostIds, sliceIds, workloads);
      && Within(g.edges, hostIds + sliceIds + Ids(g.nodes))
      && (forall e :: e in g.edges ==> e.kind == BindsTo || e.kind == RunsOn || e.kind == PdPair)
  {
    if workloads != [] {
      var before, w := workloads[..|workloads| - 1], workloads[|workloads| - 1];
      WorkloadsWithin(hostIds, sliceIds, before);
      WorkloadWithin(hostIds, sliceIds, w);
      IdsOfConcat(WorkloadsGraph(hostIds, sliceIds, before).nodes, WorkloadGraph(hostIds, sliceIds, w).nodes);
    }
  }

  lemma WorkloadWithin(hostIds: set<string>, sliceIds: set<string>, w: Workload)
    ensures var g := WorkloadGraph(hostIds, sliceIds, w);
      && Within(g.edges, hostIds + sliceIds + Ids(g.nodes))
      && (forall e :: e in g.edges ==> e.kind == BindsTo || e.kind == RunsOn || e.kind == PdPair)
  {
    PodsWithin(w.namespace, hostIds, sliceIds, w.pods);
    PairsWithin(w.namespace, PodNames(w.pods), w.relations);
    IdsOfConcat([Node(WorkloadId(w.namespace, w.name), WorkloadNode)],
                PodsGraph(w.namespace, hostIds, sliceIds, w.pods).nodes);
  }

  lemma FabricIds(x: Inputs)
    requires x.cluster.Some?
    ensures Within(FabricPart(x).edges, ToSet(TreeIds(x)) + Ids(FabricPart(x).nodes))
    ensures forall e :: e in FabricPart(x).edges ==> e.kind == FabricLink || e.kind == Network || e.kind == Hccs
  {
    var hostIds, kept := ToSet(HostsOf(x)), KeptSwitches(x.switches);
    var npuIds := ToSet(NpuIds(NpusOf(x)));
    TreeNodes(x);
    NodesIds(kept, SwitchNode);
    LinksWithin(hostIds, ToSet(kept), x.links);
    RingsWithin(npuIds, x.npus, GroupOrder(npuIds, x.npus));
    if x.includeFabric {
      assert FabricPart(x).nodes == Nodes(kept, SwitchNode);
      assert FabricPart(x).edges == LinkEdges(hostIds, ToSet(kept), x.links) + HccsEdges(npuIds, x.npus);
    }
  }

  /** No edge dangles, at any depth and with any flags. */
  lemma BuildIsClosed(x: Inputs)
    ensures Closed(Build(x))
  {
    if x.cluster.Some? {
      var t, f, w := Tree(x), FabricPart(x), WorkloadPart(x);
      TreeIsClosed(x);
      TreeNodes(x);
      FabricIds(x);
      WorkloadsWithin(ToSet(HostsOf(x)), ToSet(SliceIds(SlicesOf(x))), x.workloads);
      IdsOfConcat(t.nodes, f.nodes);
      IdsOfConcat(t.nodes + f.nodes, w.nodes);
    }
  }

  // ---------------------------------------------------------------- the containment tree

  predicate IsContains(e: Edge) {
    e.kind == Contains
  }

  /** The `contains` edges of the whole graph are those of the tree, in the same order. */
  lemma ContainsEdges(x: Inputs)
    requires x.cluster.Some?
    ensures Filter(IsContains, Build(x).edges) == Tree(x).edges
  {
    var t, f, w := Tree(x).edges, FabricPart(x).edges, WorkloadPart(x).edges;
    OtherKinds(x);
    ConcatAssociative(t, f, w);
    FilterHead(IsContains, t, f + w);
  }

  lemma OtherKinds(x: Inputs)
    requires x.cluster.Some?
    ensures forall e :: e in FabricPart(x).edges + WorkloadPart(x).edges ==> !IsContains(e)
  {
    FabricIds(x);
    WorkloadsWithin(ToSet(HostsOf(x)), ToSet(SliceIds(SlicesOf(x))), x.workloads);
  }

  /** Edge `i` of the tree leads to tree id `i + 1`. */
  lemma TreeTargets(x: Inputs)
    requires x.cluster.Some?
    ensures |Tree(x).edges| == |TreeIds(x)| - 1
    ensures forall i :: 0 <= i < |Tree(x).edges| ==> Tree(x).edges[i].target == TreeIds(x)[i + 1]
  {
  }

  /** `id` is `depth` containment steps below the root. */
  ghost predicate Below(edges: seq<Edge>, root: string, id: string, depth: nat)
    decreases depth
  {
    if depth == 0 then id == root
    else exists e :: e in edges && e.kind == Contains && e.target == id && Below(edges, root, e.source, depth - 1)
  }

  ghost predicate Reached(edges: seq<Edge>, root: string, id: string) {
    exists d: nat :: d <= 3 && Below(edges, root, id, d)
  }

  lemma HostsReached(x: Inputs, i: nat)
    requires x.cluster.Some? && i < |HostsOf(x)|
    ensures Below(Tree(x).edges, x.cluster.value, HostsOf(x)[i], 1)
  {
    var e := HostGraph(x.cluster.value, HostsOf(x)).edges[i];
    assert e in Tree(x).edges && Below(Tree(x).edges, x.cluster.value, e.source, 0);
  }

  lemma NpusReached(x: Inputs, i: nat)
    requires x.cluster.Some? && i < |NpusOf(x)|
    ensures Below(Tree(x).edges, x.cluster.value, NpusOf(x)[i].id, 2)
  {
    var e := NpuGraph(NpusOf(x)).edges[i];
    KeptNpusAreHosted(ToSet(HostsOf(x)), x.npus);
    assert NpusOf(x)[i] in NpusOf(x);
    var h :| 0 <= h < |HostsOf(x)| && HostsOf(x)[h] == NpusOf(x)[i].nodeName;
    HostsReached(x, h);
    assert e in Tree(x).edges && Below(Tree(x).edges, x.cluster.value, e.source, 1);
  }

  lemma SlicesReached(x: Inputs, i: nat)
    requires x.cluster.Some? && i < |SlicesOf(x)|
    ensures Below(Tree(x).edges, x.cluster.value, SlicesOf(x)[i].id, 3)
  {
    var e := SliceGraph(SlicesOf(x)).edges[i];
    KeptSlicesAreOwned(ToSet(NpuIds(NpusOf(x))), x.slices);
    assert SlicesOf(x)[i] in SlicesOf(x);
    var n :| 0 <= n < |NpuIds(NpusOf(x))| && NpuIds(NpusOf(x))[n] == SlicesOf(x)[i].parentNpu;
    NpusReached(x, n);
    assert e in Tree(x).edges && Below(Tree(x).edges, x.cluster.value, e.source, 2);
  }

  /** With distinct ids the `contains` edges of the whole graph form a tree on exactly the
      cluster, host, NPU and slice ids: nothing leads to the cluster, exactly one edge leads
      to every other id, and every id is reached from the cluster. */
  lemma ContainsIsATree(x: Inputs)
    requires x.cluster.Some? && AllDistinct(TreeIds(x))
    ensures var edges, root := Filter(IsContains, Build(x).edges), x.cluster.value;
      && Within(edges, ToSet(TreeIds(x)))
      && (forall e :: e in edges ==> e.target != root)
      && (forall id :: id in TreeIds(x) && id != root ==>
            exists i :: 0 <= i < |edges| && edges[i].target == id && forall j ::
                0 <= j < |edges| && edges[j].target == id ==> j == i)
      && (forall id :: id in TreeIds(x) ==> Reached(edges, root, id))
  {
    ContainsEdges(x);
    TreeIsClosed(x);
    TreeNodes(x);
    TreeTargets(x);
    OneEdgeEach(Tree(x).edges, TreeIds(x));
    forall id | id in TreeIds(x) ensures Reached(Tree(x).edges, x.cluster.value, id) {
      AllReached(x, id);
    }
  }

  /** Edges that lead to the ids after the first, in order, lead to each exactly once. */
  lemma OneEdgeEach(edges: seq<Edge>, ids: seq<string>)
    requires AllDistinct(ids) && |ids| == |edges| + 1
    requires forall i :: 0 <= i < |edges| ==> edges[i].target == ids[i + 1]
    ensures forall e :: e in edges ==> e.target != ids[0]
    ensures forall id :: id in ids && id != ids[0] ==>
      exists i :: 0 <= i < |edges| && edges[i].target == id && forall j ::
          0 <= j < |edges| && edges[j].target == id ==> j == i
  {
    forall e | e in edges ensures e.target != ids[0] {
      var i :| 0 <= i < |edges| && edges[i] == e;
    }
    forall id | id in ids && id != ids[0]
      ensures exists i :: 0 <= i < |edges| && edges[i].target == id && forall j ::
          0 <= j < |edges| && edges[j].target == id ==> j == i {
      var k :| 0 <= k < |ids| && ids[k] == id;
      assert edges[k - 1].target == id;
    }
  }

  lemma AllReached(x: Inputs, id: string)
    requires x.cluster.Some? && id in TreeIds(x)
    ensures Reached(Tree(x).edges, x.cluster.value, id)
  {
    var edges, root := Tree(x).edges, x.cluster.value;
    if id == root {
      assert Below(edges, root, id, 0);
    } else if id in HostsOf(x) {
      var i :| 0 <= i < |HostsOf(x)| && HostsOf(x)[i] == id;
      HostsReached(x, i);
    } else if id in NpuIds(NpusOf(x)) {
      var i :| 0 <= i < |NpusOf(x)| && NpuIds(NpusOf(x))[i] == id;
      NpusReached(x, i);
    } else {
      var i :| 0 <= i < |SlicesOf(x)| && SliceIds(SlicesOf(x))[i] == id;
      SlicesReached(x, i);
    }
  }

  // ---------------------------------------------------------------- HCCS rings

  lemma {:induction false} MembersExact(npuIds: set<string>, npus: seq<Option<Npu>>, key: GroupKey)
    ensures forall n :: n in Members(npuIds, npus, key) <==>
        Some(n) in npus && Grouped(npuIds, Some(n)) && KeyOf(n) == key
  {
    if npus != [] {
      MembersExact(npuIds, npus[..|npus| - 1], key);
      assert npus == npus[..|npus| - 1] + [npus[|npus| - 1]];
    }
  }

  lemma {:induction false} GroupOrderExact(npuIds: set<string>, npus: seq<Option<Npu>>)
    ensures AllDistinct(GroupOrder(npuIds, npus))
    ensures forall k :: k in GroupOrder(npuIds, npus) <==> Members(npuIds, npus, k) != []
  {
    if npus != [] {
      GroupOrderExact(npuIds, npus[..|npus| - 1]);
    }
  }

  function SortedMembers(npuIds: set<string>, npus: seq<Option<Npu>>, key: GroupKey): seq<Npu> {
    StableSort(ByIndex, Members(npuIds, npus, key))
  }

  lemma SortedMembersSame(npuIds: set<string>, npus: seq<Option<Npu>>, key: GroupKey)
    ensures forall n :: n in SortedMembers(npuIds, npus, key) <==> n in Members(npuIds, npus, key)
    ensures IdsOf(SortedMembers(npuIds, npus, key)) == IdsOf(Members(npuIds, npus, key))
  {
    StableSortPerm(ByIndex, Members(npuIds, npus, key));
    SameElements(SortedMembers(npuIds, npus, key), Members(npuIds, npus, key));
  }

  /** The members' ids. */
  function IdsOf(npus: seq<Npu>): set<string> {
    set n | n in npus :: n.id
  }

  /** An HCCS edge between two of the given ids. */
  predicate Joins(ids: set<string>, e: Edge) {
    e.kind == Hccs && e.source in ids && e.target in ids
  }

  lemma RingWithin(members: seq<Npu>)
    ensures forall e :: e in Ring(members) ==> Joins(IdsOf(members), e)
  {
    var r, n := Ring(members), |members|;
    forall e | e in r ensures Joins(IdsOf(members), e) {
      var i :| 0 <= i < |r| && r[i] == e;
      assert members[i] in members && members[Next(i, n)] in members;
    }
  }

  /** Ring edges stay within the NPUs in the graph and within one (node, group). */
  lemma RingsWithin(npuIds: set<string>, npus: seq<Option<Npu>>, keys: seq<GroupKey>)
    ensures forall e :: e in Rings(npuIds, npus, keys) ==>
              Joins(npuIds, e) && exists k :: k in keys && Joins(IdsOf(Members(npuIds, npus, k)), e)
  {
    forall e | e in Rings(npuIds, npus, keys)
      ensures Joins(npuIds, e) && exists k :: k in keys && Joins(IdsOf(Members(npuIds, npus, k)), e) {
      GatherMembers(RingOf(npuIds, npus), keys, e);
      var k :| k in keys && e in RingOf(npuIds, npus)(k);
      OneRingWithin(npuIds, npus, k);
    }
  }

  lemma OneRingWithin(npuIds: set<string>, npus: seq<Option<Npu>>, k: GroupKey)
    ensures forall e :: e in Ring(SortedMembers(npuIds, npus, k)) ==>
        Joins(npuIds, e) && Joins(IdsOf(Members(npuIds, npus, k)), e)
  {
    RingWithin(SortedMembers(npuIds, npus, k));
    SortedMembersSame(npuIds, npus, k);
    MembersExact(npuIds, npus, k);
    assert IdsOf(Members(npuIds, npus, k)) <= npuIds;
  }

  /** The edges that leave one of the given ids. */
  function Leaving(ids: set<string>): Edge -> bool {
    (e: Edge) => e.source in ids
  }

  /** NPU ids tell NPUs apart. */
  predicate DistinctNpus(npus: seq<Option<Npu>>) {
    forall i, j :: 0 <= i < |npus| && 0 <= j < |npus| && npus[i].Some? && npus[j].Some? ==>
        npus[i].value.id == npus[j].value.id ==> i == j
  }

  lemma GroupsDisjoint(npuIds: set<string>, npus: seq<Option<Npu>>, k1: GroupKey, k2: GroupKey)
    requires DistinctNpus(npus) && k1 != k2
    ensures IdsOf(Members(npuIds, npus, k1)) !! IdsOf(Members(npuIds, npus, k2))
  {
    MembersExact(npuIds, npus, k1);
    MembersExact(npuIds, npus, k2);
    forall a, b | a in Members(npuIds, npus, k1) && b in Members(npuIds, npus, k2) ensures a.id != b.id {
      var i :| 0 <= i < |npus| && npus[i] == Some(a);
      var j :| 0 <= j < |npus| && npus[j] == Some(b);
    }
  }


  lemma LeavingRing(npuIds: set<string>, npus: seq<Option<Npu>>, k: GroupKey, key: GroupKey)
    requires DistinctNpus(npus)
    ensures Filter(Leaving(IdsOf(Members(npuIds, npus, key))), Ring(SortedMembers(npuIds, npus, k))) ==
            if k == key then Ring(SortedMembers(npuIds, npus, k)) else []
  {
    var p, ring := Leaving(IdsOf(Members(npuIds, npus, key))), Ring(SortedMembers(npuIds, npus, k));
    OneRingWithin(npuIds, npus, k);
    if k == key {
      FilterAll(p, ring);
    } else {
      GroupsDisjoint(npuIds, npus, k, key);
      FilterNone(p, ring);
    }
  }

  predicate IsHccs(e: Edge) {
    e.kind == Hccs
  }

  lemma HccsOfBuild(x: Inputs)
    requires x.cluster.Some? && x.includeFabric
    ensures Filter(IsHccs, Build(x).edges) == HccsEdges(ToSet(NpuIds(NpusOf(x))), x.npus)
  {
    var npuIds := ToSet(NpuIds(NpusOf(x)));
    var t, w, hccs := Tree(x).edges, WorkloadPart(x).edges, HccsEdges(npuIds, x.npus);
    var links := LinkEdges(ToSet(HostsOf(x)), ToSet(KeptSwitches(x.switches)), x.links);
    NotHccs(x);
    RingsWithin(npuIds, x.npus, GroupOrder(npuIds, x.npus));
    ConcatAssociative(t, links, hccs);
    FilterStretch(IsHccs, t + links, hccs, w);
    FilterAll(IsHccs, hccs);
  }

  lemma NotHccs(x: Inputs)
    requires x.cluster.Some?
    ensures forall e :: e in Tree(x).edges ==> !IsHccs(e)
    ensures forall e :: e in WorkloadPart(x).edges ==> !IsHccs(e)
    ensures forall e :: e in LinkEdges(ToSet(HostsOf(x)), ToSet(KeptSwitches(x.switches)), x.links) ==> !IsHccs(e)
  {
    WorkloadsWithin(ToSet(HostsOf(x)), ToSet(SliceIds(SlicesOf(x))), x.workloads);
    LinksWithin(ToSet(HostsOf(x)), ToSet(KeptSwitches(x.switches)), x.links);
  }

  /** Without fabric there is no HCCS edge. */
  lemma NoFabricNoHccs(x: Inputs)
    requires !x.includeFabric
    ensures Filter(IsHccs, Build(x).edges) == []
  {
    if x.cluster.Some? {
      WorkloadsWithin(ToSet(HostsOf(x)), ToSet(SliceIds(SlicesOf(x))), x.workloads);
      FilterNone(IsHccs, Build(x).edges);
    }
  }

  /** Consecutive edges meet, and the last one meets the first. */
  predicate ClosedWalk(edges: seq<Edge>) {
    forall i: nat :: i < |edges| ==> edges[i].target == edges[Next(i, |edges|)].source
  }

  /** Edge `i` leaves the `i`-th of the given NPUs. */
  predicate LeavesInOrder(edges: seq<Edge>, order: seq<Npu>) {
    |edges| <= |order| && forall i :: 0 <= i < |edges| ==> edges[i].source == order[i].id
  }

  /** `order` is `members` by ascending Index, ties as in the input. */
  ghost predicate IndexOrder(order: seq<Npu>, members: seq<Npu>) {
    && multiset(order) == multiset(members)
    && (forall i, j :: 0 <= i < j < |order| ==> order[i].index <= order[j].index)
    && forall index :: Filter(AtIndex(index), order) == Filter(AtIndex(index), members)
  }

  function AtIndex(index: int): Npu -> bool {
    (n: Npu) => n.index == index
  }

  lemma SortIsIndexOrder(members: seq<Npu>)
    ensures IndexOrder(StableSort(ByIndex, members), members)
  {
    StableSortSorted(ByIndex, members);
    StableSortPerm(ByIndex, members);
    assert forall a, b :: ByIndex(a, b) <==> a.index <= b.index;
    forall index ensures Filter(AtIndex(index), StableSort(ByIndex, members)) == Filter(AtIndex(index), members) {
      StableSortStable(ByIndex, members, AtIndex(index));
    }
  }

  /** What a group's ring looks like: nothing for less than two members, one edge for two, and
      for more a closed walk that leaves every member once, in order. */
  predicate RingShape(ring: seq<Edge>, order: seq<Npu>) {
    if |order| < 2 then ring == []
    else if |order| == 2 then ring == [Edge(order[0].id, order[1].id, Hccs)]
    else |ring| == |order| && ClosedWalk(ring) && LeavesInOrder(ring, order)
  }

  /** Of the given HCCS edges, those that leave a member form the members' ring. */
  ghost predicate HasRing(hccs: seq<Edge>, members: seq<Npu>) {
    exists order :: IndexOrder(order, members) && RingShape(Filter(Leaving(IdsOf(members)), hccs), order)
  }

  /** The members' ring among the HCCS edges of the graph. */
  ghost predicate RingIn(g: Graph, members: seq<Npu>) {
    HasRing(Filter(IsHccs, g.edges), members)
  }

  ghost predicate StaysInAGroup(npuIds: set<string>, npus: seq<Option<Npu>>, e: Edge) {
    exists k :: Joins(IdsOf(Members(npuIds, npus, k)), e)
  }

  /** The HCCS edges of a graph with fabric: those leaving a (node, group) form its ring, over
      all members in Index order. */
  lemma HccsRings(x: Inputs, key: GroupKey)
    requires x.cluster.Some? && x.includeFabric && DistinctNpus(x.npus)
    ensures RingIn(Build(x), Members(ToSet(NpuIds(NpusOf(x))), x.npus, key))
  {
    var npuIds := ToSet(NpuIds(NpusOf(x)));
    HccsOfBuild(x);
    RingOfOneGroup(npuIds, x.npus, key);
    RingHasShape(npuIds, x.npus, key);
  }

  /** And every HCCS edge stays within one group, so that no edge crosses nodes or groups. */
  lemma HccsStayInGroups(x: Inputs)
    requires x.cluster.Some? && x.includeFabric
    ensures forall e :: e in Filter(IsHccs, Build(x).edges) ==> StaysInAGroup(ToSet(NpuIds(NpusOf(x))), x.npus, e)
  {
    var npuIds := ToSet(NpuIds(NpusOf(x)));
    HccsOfBuild(x);
    RingsWithin(npuIds, x.npus, GroupOrder(npuIds, x.npus));
  }

  /** Among the ring edges, those leaving group `key` are its own ring and nothing else. */
  lemma RingOfOneGroup(npuIds: set<string>, npus: seq<Option<Npu>>, key: GroupKey)
    requires DistinctNpus(npus)
    ensures Filter(Leaving(IdsOf(Members(npuIds, npus, key))), HccsEdges(npuIds, npus)) ==
        Ring(SortedMembers(npuIds, npus, key))
  {
    var ring, p, order := RingOf(npuIds, npus), Leaving(IdsOf(Members(npuIds, npus, key))), GroupOrder(npuIds, npus);
    GroupOrderExact(npuIds, npus);
    forall k ensures Filter(p, ring(k)) == if k == key then ring(k) else [] {
      LeavingRing(npuIds, npus, k, key);
    }
    GatherOne(ring, order, key, p);
    NoMembersNoRing(npuIds, npus, key);
  }

  lemma NoMembersNoRing(npuIds: set<string>, npus: seq<Option<Npu>>, key: GroupKey)
    ensures Members(npuIds, npus, key) == [] ==> Ring(SortedMembers(npuIds, npus, key)) == []
  {
  }

  lemma RingHasShape(npuIds: set<string>, npus: seq<Option<Npu>>, key: GroupKey)
    ensures exists order ::
        IndexOrder(order, Members(npuIds, npus, key)) && RingShape(Ring(SortedMembers(npuIds, npus, key)), order)
  {
    SortIsIndexOrder(Members(npuIds, npus, key));
    var order := SortedMembers(npuIds, npus, key);
    assert RingShape(Ring(order), order);
  }

  // ---------------------------------------------------------------- flags and depth

  predicate Prefix(g: Graph, h: Graph) {
    g.nodes <= h.nodes && g.edges <= h.edges
  }

  /** The part of `h` that `g` lacks. */
  function Rest(g: Graph, h: Graph): Graph
    requires Prefix(g, h)
  {
    Graph(h.nodes[|g.nodes|..], h.edges[|g.edges|..])
  }

  function WithFlags(x: Inputs, fabric: bool, workloads: bool): Inputs {
    x.(includeFabric := fabric, includeWorkloads := workloads)
  }

  lemma FlagParts(x: Inputs, fabric: bool, workloads: bool)
    requires x.cluster.Some?
    ensures Build(WithFlags(x, fabric, workloads)) ==
      Tree(x).Plus(if fabric then FabricPart(WithFlags(x, true, workloads)) else EMPTY)
             .Plus(if workloads then WorkloadPart(WithFlags(x, fabric, true)) else EMPTY)
    ensures FabricPart(WithFlags(x, true, workloads)) == FabricPart(WithFlags(x, true, false))
    ensures WorkloadPart(WithFlags(x, fabric, true)) == WorkloadPart(WithFlags(x, false, true))
  {
  }

  lemma PlusEmpty(g: Graph)
    ensures g.Plus(EMPTY) == g
  {
  }

  /** With both flags on, the graph is the plain one, then what fabric alone adds, then what
      workloads alone add. */
  lemma FlagsCompose(x: Inputs)
    ensures var plain, fabric, loads, both :=
        Build(WithFlags(x, false, false)), Build(WithFlags(x, true, false)),
        Build(WithFlags(x, false, true)), Build(WithFlags(x, true, true));
      && Prefix(plain, fabric) && Prefix(plain, loads)
      && both == plain.Plus(Rest(plain, fabric)).Plus(Rest(plain, loads))
  {
    if x.cluster.Some? {
      var t, f, w := Tree(x), FabricPart(WithFlags(x, true, false)), WorkloadPart(WithFlags(x, false, true));
      FlagParts(x, false, false);
      FlagParts(x, true, false);
      FlagParts(x, false, true);
      FlagParts(x, true, true);
      PlusEmpty(t);
      PlusEmpty(t.Plus(f));
    }
  }

  /** With a flag off, the inputs it guards do not matter. */
  lemma FlagsGuardInputs(x: Inputs, switches: seq<string>, links: seq<Link>, workloads: seq<Workload>)
    ensures !x.includeFabric ==> Build(x.(switches := switches, links := links)) == Build(x)
    ensures !x.includeWorkloads ==> Build(x.(workloads := workloads)) == Build(x)
  {
    if x.cluster.Some? {
      var y, z := x.(switches := switches, links := links), x.(workloads := workloads);
      assert Tree(y) == Tree(x) == Tree(z);
    }
  }

  /** What a depth says, once upper case and the white space around it are gone. */
  function Spelled(depth: string): string {
    Text.ToLower(Text.TrimSpace(depth))
  }

  /** With flags off, each depth extends the one above it; every spelling other than node and npu
      is the deepest. */
  lemma DepthsNest(x: Inputs, node: string, npu: string, slice: string)
    requires Spelled(node) == "node" && Spelled(npu) == "npu" && Spelled(slice) !in {"node", "npu"}
    requires !x.includeFabric && !x.includeWorkloads
    ensures Prefix(Build(x.(depth := node)), Build(x.(depth := npu)))
    ensures Prefix(Build(x.(depth := npu)), Build(x.(depth := slice)))
  {
    if x.cluster.Some? {
      var a, b, c := x.(depth := node), x.(depth := npu), x.(depth := slice);
      PlusEmpty(Tree(a));
      PlusEmpty(Tree(b));
      PlusEmpty(Tree(c));
      var root := Graph([Node(x.cluster.value, ClusterNode)], []).Plus(HostGraph(x.cluster.value, HostsOf(x)));
      assert NpuGraph([]) == EMPTY && SliceGraph([]) == EMPTY;
      PlusEmpty(root);
      PlusEmpty(root.Plus(NpuGraph(NpusOf(b))));
      assert NpusOf(b) == NpusOf(c);
      assert Tree(a) == root;
      assert Tree(b) == root.Plus(NpuGraph(NpusOf(b)));
      assert Tree(c) == Tree(b).Plus(SliceGraph(SlicesOf(c)));
    }
  }

  lemma NamesSpellThemselves(depth: string)
    requires depth in {"node", "npu", "slice"}
    ensures Spelled(depth) == depth
  {
    assert !Text.IsSpace(depth[0]) && !Text.IsSpace(depth[|depth| - 1]);
    assert Text.TrimSpace(depth) == depth;
    assert forall k :: 0 <= k < |depth| ==> Text.Lower(depth[k]) == depth[k];
  }

  /** In particular for the three names themselves, and for none. */
  lemma NamedDepthsNest(x: Inputs)
    requires !x.includeFabric && !x.includeWorkloads
    ensures Prefix(Build(x.(depth := "node")), Build(x.(depth := "npu")))
    ensures Prefix(Build(x.(depth := "npu")), Build(x.(depth := "slice")))
    ensures Build(x.(depth := "")) == Build(x.(depth := "slice"))
  {
    NamesSpellThemselves("node");
    NamesSpellThemselves("npu");
    NamesSpellThemselves("slice");
    DepthsNest(x, "node", "npu", "slice");
    if x.cluster.Some? {
      var a, b := x.(depth := ""), x.(depth := "slice");
      assert Text.TrimSpace("") == "" && Text.ToLower("") == "";
      assert NpusOf(a) == NpusOf(b) && SlicesOf(a) == SlicesOf(b);
      assert Tree(a) == Tree(b);
    }
  }
}
