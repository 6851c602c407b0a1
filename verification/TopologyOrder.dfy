/** In what order the topology graph lists its nodes and edges: each part in input order, one
    after the other (backend/pkg/aggregator/topology.go). */
module TopologyOrder {
  import opened Wrappers
  import opened Sorting
  import opened TopologySpec
  import opened TopologyProofs
  import opened TopologyExact

  // ---------------------------------------------------------------- the parts, as listed

  function BelongsTo(cluster: string): Host -> bool {
    (h: Host) => Belongs(cluster, h)
  }

  ghost function NpuOf(x: Inputs): Npu -> bool
    requires x.cluster.Some?
  {
    (n: Npu) => IsNpu(x, n)
  }

  ghost function SliceOf(x: Inputs): Slice -> bool
    requires x.cluster.Some?
  {
    (s: Slice) => IsSlice(x, s)
  }

  function NotEmpty(id: string): bool {
    id != ""
  }

  /** One node for each host of the cluster, then one edge from the cluster to each. */
  function HostNodeOf(h: Host): seq<Node> {
    [Node(h.name, HostNode)]
  }

  function HostEdgeOf(cluster: string): Host -> seq<Edge> {
    (h: Host) => [Edge(cluster, h.name, Contains)]
  }

  function NpuNodeOf(n: Npu): seq<Node> {
    [Node(n.id, NpuNode)]
  }

  function NpuEdgeOf(n: Npu): seq<Edge> {
    [Edge(n.nodeName, n.id, Contains)]
  }

  function SliceNodeOf(s: Slice): seq<Node> {
    [Node(s.id, SliceNode)]
  }

  function SliceEdgeOf(s: Slice): seq<Edge> {
    [Edge(s.parentNpu, s.id, Contains)]
  }

  function SwitchNodeOf(id: string): seq<Node> {
    [Node(id, SwitchNode)]
  }

  ghost function LinkEdgeOf(x: Inputs): Link -> seq<Edge>
    requires x.cluster.Some?
  {
    (l: Link) =>
      if l.id == "" || l.from == "" || l.to == "" || !InScope(x, l.from) || !InScope(x, l.to) then []
      else [Edge(l.from, l.to, if IsHost(x, l.from) && IsHost(x, l.to) then Network else FabricLink)]
  }

  function PodNodeOf(namespace: string): Pod -> seq<Node> {
    (p: Pod) => if p.name == "" then [] else [Node("pod/" + namespace + "/" + p.name, PodNode)]
  }

  ghost predicate HasSlice(x: Inputs, id: string)
    requires x.cluster.Some?
  {
    exists s :: IsSlice(x, s) && s.id == id
  }

  ghost function BindingEdgeOf(x: Inputs, pod: string): string -> seq<Edge>
    requires x.cluster.Some?
  {
    (b: string) => if b == "" || !HasSlice(x, b) then [] else [Edge(pod, b, BindsTo)]
  }

  /** A pod's bindings; for a pod without any, the node it runs on. */
  ghost function PodEdgesOf(x: Inputs, namespace: string): Pod -> seq<Edge>
    requires x.cluster.Some?
  {
    (p: Pod) =>
      if p.name == "" then []
      else if p.bindings != [] then Gather(BindingEdgeOf(x, "pod/" + namespace + "/" + p.name), p.bindings)
      else if p.nodeName == "" || !IsHost(x, p.nodeName) then []
      else [Edge("pod/" + namespace + "/" + p.name, p.nodeName, RunsOn)]
  }

  function PairEdgeOf(w: Workload): Relation -> seq<Edge> {
    (r: Relation) =>
      if r.kind == "pd-pair" && HasPod(w, r.from) && HasPod(w, r.to)
      then [Edge("pod/" + w.namespace + "/" + r.from, "pod/" + w.namespace + "/" + r.to, PdPair)]
      else []
  }

  function WorkloadNodesOf(w: Workload): seq<Node> {
    if !Named(w) then []
    else [Node("workload/" + w.namespace + "/" + w.name, WorkloadNode)] + Gather(PodNodeOf(w.namespace), w.pods)
  }

  ghost function WorkloadEdgesOf(x: Inputs): Workload -> seq<Edge>
    requires x.cluster.Some?
  {
    (w: Workload) =>
      if !Named(w) then []
      else Gather(PodEdgesOf(x, w.namespace), w.pods) + Gather(PairEdgeOf(w), w.relations)
  }

  // ---------------------------------------------------------------- the builder lists them so

  lemma {:induction false} HostGraphInOrder(cluster: string, hosts: seq<Host>)
    ensures HostGraph(cluster, Names(hosts)) == Graph(Gather(HostNodeOf, hosts), Gather(HostEdgeOf(cluster), hosts))
  {
    if hosts != [] {
      var u, h := hosts[..|hosts| - 1], hosts[|hosts| - 1];
      HostGraphInOrder(cluster, u);
      assert Names(hosts) == Names(u) + [h.name];
      assert HostGraph(cluster, Names(hosts)).nodes == HostGraph(cluster, Names(u)).nodes + HostNodeOf(h);
      assert HostGraph(cluster, Names(hosts)).edges == HostGraph(cluster, Names(u)).edges + HostEdgeOf(cluster)(h);
    }
  }

  function Names(hosts: seq<Host>): seq<string> {
    seq(|hosts|, i requires 0 <= i < |hosts| => hosts[i].name)
  }

  lemma {:induction false} HostNamesInOrder(cluster: string, hosts: seq<Host>)
    ensures KeptHosts(cluster, hosts) == Names(Filter(BelongsTo(cluster), hosts))
  {
    if hosts != [] {
      var u, h := hosts[..|hosts| - 1], hosts[|hosts| - 1];
      HostNamesInOrder(cluster, u);
      assert Names(Filter(BelongsTo(cluster), u) + [h]) == Names(Filter(BelongsTo(cluster), u)) + [h.name];
    }
  }

  lemma HostsInOrder(cluster: string, hosts: seq<Host>)
    ensures HostGraph(cluster, KeptHosts(cluster, hosts)) ==
      Graph(Gather(HostNodeOf, Filter(BelongsTo(cluster), hosts)),
            Gather(HostEdgeOf(cluster), Filter(BelongsTo(cluster), hosts)))
  {
    HostNamesInOrder(cluster, hosts);
    HostGraphInOrder(cluster, Filter(BelongsTo(cluster), hosts));
  }

  lemma {:induction false} NpusInOrder(x: Inputs, hostIds: set<string>, npus: seq<Option<Npu>>)
    requires x.cluster.Some? && ShowsNpus(x.depth) && hostIds == ToSet(HostsOf(x))
    requires forall n :: n in npus ==> n in x.npus
    ensures KeptNpus(hostIds, npus) == Filter(NpuOf(x), Present(npus))
  {
    if npus != [] {
      var u, last := npus[..|npus| - 1], npus[|npus| - 1];
      NpusInOrder(x, hostIds, u);
      if last.Some? {
        HostIs(x, last.value.nodeName);
        assert last in x.npus;
        assert Present(npus)[..|Present(u)|] == Present(u);
      } else {
        assert Present(npus) == Present(u);
      }
    }
  }

  lemma NpuListIs(x: Inputs)
    requires x.cluster.Some?
    ensures NpusOf(x) == Filter(NpuOf(x), Present(x.npus))
  {
    if ShowsNpus(x.depth) {
      NpusInOrder(x, ToSet(HostsOf(x)), x.npus);
    } else {
      FilterNone(NpuOf(x), Present(x.npus));
    }
  }

  lemma {:induction false} SlicesInOrder(x: Inputs, npuIds: set<string>, slices: seq<Slice>)
    requires x.cluster.Some? && ShowsSlices(x.depth) && npuIds == ToSet(NpuIds(NpusOf(x)))
    requires forall s :: s in slices ==> s in x.slices
    ensures KeptSlices(npuIds, slices) == Filter(SliceOf(x), slices)
  {
    if slices != [] {
      var u, last := slices[..|slices| - 1], slices[|slices| - 1];
      SlicesInOrder(x, npuIds, u);
      NpuIdIs(x, last.parentNpu);
      assert last in x.slices;
    }
  }

  lemma SliceListIs(x: Inputs)
    requires x.cluster.Some?
    ensures SlicesOf(x) == Filter(SliceOf(x), x.slices)
  {
    if ShowsSlices(x.depth) {
      SlicesInOrder(x, ToSet(NpuIds(NpusOf(x))), x.slices);
    } else {
      FilterNone(SliceOf(x), x.slices);
    }
  }

  lemma {:induction false} NpuGraphInOrder(npus: seq<Npu>)
    ensures NpuGraph(npus) == Graph(Gather(NpuNodeOf, npus), Gather(NpuEdgeOf, npus))
  {
    if npus != [] {
      var u := npus[..|npus| - 1];
      NpuGraphInOrder(u);
      assert NpuGraph(npus).nodes == NpuGraph(u).nodes + NpuNodeOf(npus[|npus| - 1]);
      assert NpuGraph(npus).edges == NpuGraph(u).edges + NpuEdgeOf(npus[|npus| - 1]);
    }
  }

  lemma {:induction false} SliceGraphInOrder(slices: seq<Slice>)
    ensures SliceGraph(slices) == Graph(Gather(SliceNodeOf, slices), Gather(SliceEdgeOf, slices))
  {
    if slices != [] {
      var u := slices[..|slices| - 1];
      SliceGraphInOrder(u);
      assert SliceGraph(slices).nodes == SliceGraph(u).nodes + SliceNodeOf(slices[|slices| - 1]);
      assert SliceGraph(slices).edges == SliceGraph(u).edges + SliceEdgeOf(slices[|slices| - 1]);
    }
  }

  /** Cluster, nodes, NPUs and slices, each kind in input order, with the edge into each. */
  lemma TreeInOrder(x: Inputs)
    requires x.cluster.Some?
    ensures var hosts, npus, slices := Filter(BelongsTo(x.cluster.value), x.hosts),
        Filter(NpuOf(x), Present(x.npus)), Filter(SliceOf(x), x.slices);
      && Tree(x).nodes == [Node(x.cluster.value, ClusterNode)] + Gather(HostNodeOf, hosts) + Gather(NpuNodeOf, npus) +
                          Gather(SliceNodeOf, slices)
      && Tree(x).edges == Gather(HostEdgeOf(x.cluster.value), hosts) + Gather(NpuEdgeOf, npus) +
                          Gather(SliceEdgeOf, slices)
  {
    HostsInOrder(x.cluster.value, x.hosts);
    NpuListIs(x);
    SliceListIs(x);
    NpuGraphInOrder(NpusOf(x));
    SliceGraphInOrder(SlicesOf(x));
    var hosts := HostGraph(x.cluster.value, HostsOf(x)).edges;
    assert [] + hosts == hosts;
  }

  lemma {:induction false} SwitchesInOrder(switches: seq<string>)
    ensures Nodes(KeptSwitches(switches), SwitchNode) == Gather(SwitchNodeOf, Filter(NotEmpty, switches))
  {
    if switches != [] {
      SwitchesInOrder(switches[..|switches| - 1]);
    }
  }

  lemma {:induction false} LinksInOrder(x: Inputs, links: seq<Link>)
    requires x.cluster.Some? && x.includeFabric
    ensures LinkEdges(ToSet(HostsOf(x)), ToSet(KeptSwitches(x.switches)), links) == Gather(LinkEdgeOf(x), links)
  {
    if links != [] {
      var l := links[|links| - 1];
      LinksInOrder(x, links[..|links| - 1]);
      forall id ensures id in ToSet(HostsOf(x)) + ToSet(KeptSwitches(x.switches)) <==> InScope(x, id) {
        HostIs(x, id);
        SwitchesExact(x.switches, id);
      }
      HostIs(x, l.from);
      HostIs(x, l.to);
    }
  }

  /** Switches in input order; links in input order, then the rings. */
  lemma FabricInOrder(x: Inputs)
    requires x.cluster.Some? && x.includeFabric
    ensures FabricPart(x).nodes == Gather(SwitchNodeOf, Filter(NotEmpty, x.switches))
    ensures FabricPart(x).edges == Gather(LinkEdgeOf(x), x.links) + HccsEdges(ToSet(NpuIds(NpusOf(x))), x.npus)
  {
    SwitchesInOrder(x.switches);
    LinksInOrder(x, x.links);
    var nodes := FabricGraph(ToSet(HostsOf(x)), x.switches, x.links).nodes;
    assert nodes + [] == nodes;
  }

  // ---------------------------------------------------------------- workloads

  lemma {:induction false} BindingsInOrder(x: Inputs, pod: string, bindings: seq<string>)
    requires x.cluster.Some?
    ensures BindingEdges(pod, ToSet(SliceIds(SlicesOf(x))), bindings) == Gather(BindingEdgeOf(x, pod), bindings)
  {
    if bindings != [] {
      BindingsInOrder(x, pod, bindings[..|bindings| - 1]);
      SliceIdIs(x, bindings[|bindings| - 1]);
    }
  }

  lemma PodInOrder(x: Inputs, namespace: string, p: Pod)
    requires x.cluster.Some?
    ensures PodGraph(namespace, ToSet(HostsOf(x)), ToSet(SliceIds(SlicesOf(x))), p) ==
      Graph(PodNodeOf(namespace)(p), PodEdgesOf(x, namespace)(p))
  {
    if p.name != "" {
      BindingsInOrder(x, "pod/" + namespace + "/" + p.name, p.bindings);
      HostIs(x, p.nodeName);
      var bound := BindingEdges(PodId(namespace, p.name), ToSet(SliceIds(SlicesOf(x))), p.bindings);
      assert bound + [] == bound;
    }
  }

  lemma {:induction false} PodsInOrder(x: Inputs, namespace: string, pods: seq<Pod>)
    requires x.cluster.Some?
    ensures PodsGraph(namespace, ToSet(HostsOf(x)), ToSet(SliceIds(SlicesOf(x))), pods) ==
      Graph(Gather(PodNodeOf(namespace), pods), Gather(PodEdgesOf(x, namespace), pods))
  {
    if pods != [] {
      PodsInOrder(x, namespace, pods[..|pods| - 1]);
      PodInOrder(x, namespace, pods[|pods| - 1]);
    }
  }

  lemma {:induction false} PairsInOrder(w: Workload, relations: seq<Relation>)
    ensures PairEdges(w.namespace, PodNames(w.pods), relations) == Gather(PairEdgeOf(w), relations)
  {
    if relations != [] {
      PairsInOrder(w, relations[..|relations| - 1]);
      var r := relations[|relations| - 1];
      assert forall name :: name in PodNames(w.pods) <==> HasPod(w, name);
    }
  }

  lemma WorkloadInOrder(x: Inputs, w: Workload)
    requires x.cluster.Some?
    ensures WorkloadGraph(ToSet(HostsOf(x)), ToSet(SliceIds(SlicesOf(x))), w) ==
      Graph(WorkloadNodesOf(w), WorkloadEdgesOf(x)(w))
  {
    PodsInOrder(x, w.namespace, w.pods);
    PairsInOrder(w, w.relations);
    var g := PodsGraph(w.namespace, ToSet(HostsOf(x)), ToSet(SliceIds(SlicesOf(x))), w.pods);
    assert [] + g.edges == g.edges;
    var nodes := WorkloadNodesOf(w);
    assert nodes + [] == nodes;
  }

  lemma {:induction false} WorkloadsInOrder(x: Inputs, workloads: seq<Workload>)
    requires x.cluster.Some?
    ensures WorkloadsGraph(ToSet(HostsOf(x)), ToSet(SliceIds(SlicesOf(x))), workloads) ==
      Graph(Gather(WorkloadNodesOf, workloads), Gather(WorkloadEdgesOf(x), workloads))
  {
    if workloads != [] {
      WorkloadsInOrder(x, workloads[..|workloads| - 1]);
      WorkloadInOrder(x, workloads[|workloads| - 1]);
    }
  }

  // ---------------------------------------------------------------- the whole graph

  /** The nodes, in order: the cluster, its nodes, the NPUs, the slices, the switches, and workload
      by workload the workload with its pods. */
  lemma NodesInOrder(x: Inputs)
    requires x.cluster.Some?
    ensures Build(x).nodes ==
      [Node(x.cluster.value, ClusterNode)]
      + Gather(HostNodeOf, Filter(BelongsTo(x.cluster.value), x.hosts))
      + Gather(NpuNodeOf, Filter(NpuOf(x), Present(x.npus)))
      + Gather(SliceNodeOf, Filter(SliceOf(x), x.slices))
      + Gather(SwitchNodeOf, if x.includeFabric then Filter(NotEmpty, x.switches) else [])
      + Gather(WorkloadNodesOf, if x.includeWorkloads then x.workloads else [])
  {
    TreeInOrder(x);
    WorkloadsInOrder(x, x.workloads);
    if x.includeFabric {
      FabricInOrder(x);
    }
  }

  /** The edges, in order: those into nodes, NPUs and slices, the links, the rings, and workload by
      workload those of its pods and then its pairs. */
  lemma EdgesInOrder(x: Inputs)
    requires x.cluster.Some?
    ensures Build(x).edges ==
      Gather(HostEdgeOf(x.cluster.value), Filter(BelongsTo(x.cluster.value), x.hosts))
      + Gather(NpuEdgeOf, Filter(NpuOf(x), Present(x.npus)))
      + Gather(SliceEdgeOf, Filter(SliceOf(x), x.slices))
      + (Gather(LinkEdgeOf(x), if x.includeFabric then x.links else [])
         + Filter(IsHccs, Build(x).edges))
      + Gather(WorkloadEdgesOf(x), if x.includeWorkloads then x.workloads else [])
  {
    TreeInOrder(x);
    WorkloadsInOrder(x, x.workloads);
    if x.includeFabric {
      FabricInOrder(x);
      HccsOfBuild(x);
    } else {
      NoFabricNoHccs(x);
    }
  }

  // ---------------------------------------------------------------- the order of the rings

  /** The NPU at `p` is in that group. */
  ghost predicate KeyedAt(x: Inputs, npus: seq<Npu>, key: GroupKey, p: nat)
    requires x.cluster.Some?
  {
    p < |npus| && InGroup(x, key.node, key.group)(npus[p])
  }

  /** The groups by the first NPU of each. */
  ghost predicate ByFirstMember(x: Inputs, npus: seq<Npu>, keys: seq<GroupKey>)
    requires x.cluster.Some?
  {
    && AllDistinct(keys)
    && (forall key :: key in keys <==> exists p: nat :: KeyedAt(x, npus, key, p))
    && forall a, b :: 0 <= a < b < |keys| ==> Earlier(x, npus, keys[a], keys[b])
  }

  ghost predicate Earlier(x: Inputs, npus: seq<Npu>, a: GroupKey, b: GroupKey)
    requires x.cluster.Some?
  {
    exists p: nat :: KeyedAt(x, npus, a, p) && forall q: nat :: q <= p ==> !KeyedAt(x, npus, b, q)
  }

  lemma EarlierMore(x: Inputs, u: seq<Npu>, n: Npu, a: GroupKey, b: GroupKey)
    requires x.cluster.Some? && Earlier(x, u, a, b)
    ensures Earlier(x, u + [n], a, b)
  {
    var p: nat :| KeyedAt(x, u, a, p) && forall q: nat :: q <= p ==> !KeyedAt(x, u, b, q);
    forall key, q: nat | q <= p ensures KeyedAt(x, u + [n], key, q) <==> KeyedAt(x, u, key, q) {
      assert (u + [n])[q] == u[q];
    }
    assert KeyedAt(x, u + [n], a, p);
  }

  lemma OneMoreNpu(x: Inputs, u: seq<Npu>, n: Npu, key: GroupKey)
    requires x.cluster.Some?
    ensures (exists p: nat :: KeyedAt(x, u + [n], key, p)) <==>
      (exists p: nat :: KeyedAt(x, u, key, p)) || InGroup(x, key.node, key.group)(n)
  {
    if p: nat :| KeyedAt(x, u, key, p) {
      assert (u + [n])[p] == u[p] && KeyedAt(x, u + [n], key, p);
    }
    if InGroup(x, key.node, key.group)(n) {
      assert KeyedAt(x, u + [n], key, |u|);
    }
    if p: nat :| KeyedAt(x, u + [n], key, p) {
      assert p < |u| ==> KeyedAt(x, u, key, p);
    }
  }

  /** One more NPU brings at most its own group, behind the others. */
  lemma KeysMore(x: Inputs, u: seq<Npu>, n: Npu, keys: seq<GroupKey>)
    requires x.cluster.Some? && ByFirstMember(x, u, keys)
    ensures var isNew := InGroup(x, n.nodeName, n.hccsGroup)(n) && KeyOf(n) !in keys;
      ByFirstMember(x, u + [n], if isNew then keys + [KeyOf(n)] else keys)
  {
    var key := KeyOf(n);
    var isNew := InGroup(x, n.nodeName, n.hccsGroup)(n) && key !in keys;
    var keys' := if isNew then keys + [key] else keys;
    forall k ensures k in keys' <==> exists p: nat :: KeyedAt(x, u + [n], k, p) {
      OneMoreNpu(x, u, n, k);
      assert InGroup(x, k.node, k.group)(n) ==> k == key;
    }
    forall a, b | 0 <= a < b < |keys'| ensures Earlier(x, u + [n], keys'[a], keys'[b]) {
      if b < |keys| {
        EarlierMore(x, u, n, keys[a], keys[b]);
      } else {
        assert keys[a] in keys;
        var p: nat :| KeyedAt(x, u, keys[a], p);
        assert forall q: nat :: q <= p ==> !KeyedAt(x, u, key, q);
        assert Earlier(x, u, keys[a], key);
        EarlierMore(x, u, n, keys[a], key);
      }
    }
  }

  lemma NextKeys(x: Inputs, npus: seq<Option<Npu>>, n: Npu)
    requires x.cluster.Some? && npus != [] && npus[|npus| - 1] == Some(n)
    ensures var keys := GroupOrder(ToSet(NpuIds(NpusOf(x))), npus[..|npus| - 1]);
      var isNew := InGroup(x, n.nodeName, n.hccsGroup)(n) && KeyOf(n) !in keys;
      GroupOrder(ToSet(NpuIds(NpusOf(x))), npus) == if isNew then keys + [KeyOf(n)] else keys
  {
    NpuIdIs(x, n.id);
  }

  lemma NoKeys(x: Inputs)
    requires x.cluster.Some?
    ensures ByFirstMember(x, [], [])
  {
    forall key, p: nat ensures !KeyedAt(x, [], key, p) {
    }
  }

  lemma {:induction false} KeysInOrder(x: Inputs, npus: seq<Option<Npu>>)
    requires x.cluster.Some?
    ensures ByFirstMember(x, Present(npus), GroupOrder(ToSet(NpuIds(NpusOf(x))), npus))
  {
    if npus == [] {
      NoKeys(x);
    } else {
      var u, last := npus[..|npus| - 1], npus[|npus| - 1];
      KeysInOrder(x, u);
      if last.Some? {
        NextKeys(x, npus, last.value);
        KeysMore(x, Present(u), last.value, GroupOrder(ToSet(NpuIds(NpusOf(x))), u));
        assert Present(npus) == Present(u) + [last.value];
      } else {
        assert Present(npus) == Present(u);
        assert GroupOrder(ToSet(NpuIds(NpusOf(x))), npus) == GroupOrder(ToSet(NpuIds(NpusOf(x))), u);
      }
    }
  }

  ghost predicate IsRingOf(x: Inputs, key: GroupKey, ring: seq<Edge>)
    requires x.cluster.Some?
  {
    exists order :: IndexOrder(order, GroupMembers(x, key.node, key.group)) && RingShape(ring, order)
  }

  /** The rings, group after group by the first NPU of each. */
  ghost predicate RingAfterRing(x: Inputs, keys: seq<GroupKey>, rings: seq<seq<Edge>>)
    requires x.cluster.Some?
  {
    && |rings| == |keys| && ByFirstMember(x, Present(x.npus), keys)
    && forall i :: 0 <= i < |keys| ==> IsRingOf(x, keys[i], rings[i])
  }

  function RingsFor(npuIds: set<string>, npus: seq<Option<Npu>>, keys: seq<GroupKey>): seq<seq<Edge>> {
    seq(|keys|, i requires 0 <= i < |keys| => RingOf(npuIds, npus)(keys[i]))
  }

  lemma {:induction false} RingsConcat(npuIds: set<string>, npus: seq<Option<Npu>>, keys: seq<GroupKey>)
    ensures Rings(npuIds, npus, keys) == Concat(RingsFor(npuIds, npus, keys))
  {
    if keys != [] {
      var u := keys[..|keys| - 1];
      RingsConcat(npuIds, npus, u);
      assert RingsFor(npuIds, npus, keys)[..|keys| - 1] == RingsFor(npuIds, npus, u);
    }
  }

  lemma RingsInOrder(x: Inputs) returns (keys: seq<GroupKey>, rings: seq<seq<Edge>>)
    requires x.cluster.Some? && x.includeFabric
    ensures RingAfterRing(x, keys, rings) && Filter(IsHccs, Build(x).edges) == Concat(rings)
  {
    var npuIds := ToSet(NpuIds(NpusOf(x)));
    keys := GroupOrder(npuIds, x.npus);
    rings := RingsFor(npuIds, x.npus, keys);
    HccsOfBuild(x);
    RingsConcat(npuIds, x.npus, keys);
    KeysInOrder(x, x.npus);
    forall i | 0 <= i < |keys| ensures IsRingOf(x, keys[i], rings[i]) {
      RingHasShape(npuIds, x.npus, keys[i]);
      MembersAre(x, x.npus, keys[i].node, keys[i].group);
      assert keys[i] == GroupKey(keys[i].node, keys[i].group);
    }
  }
}
