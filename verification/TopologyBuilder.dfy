/** BuildTopology with its loops, appending to one output graph, proved equal to the
    specification. */
module TopologyBuilder {
  import opened Wrappers
  import opened Sorting
  import opened TopologySpec

  // ---------------------------------------------------------------- one more element

  lemma HostMore(cluster: string, hosts: seq<string>, h: string)
    ensures HostGraph(cluster, hosts + [h]) ==
        HostGraph(cluster, hosts).Plus(Graph([Node(h, HostNode)], [Edge(cluster, h, Contains)]))
    ensures ToSet(hosts + [h]) == ToSet(hosts) + {h}
  {
  }

  lemma NpuMore(npus: seq<Npu>, n: Npu)
    ensures NpuGraph(npus + [n]) ==
        NpuGraph(npus).Plus(Graph([Node(n.id, NpuNode)], [Edge(n.nodeName, n.id, Contains)]))
    ensures ToSet(NpuIds(npus + [n])) == ToSet(NpuIds(npus)) + {n.id}
  {
    assert NpuIds(npus + [n]) == NpuIds(npus) + [n.id];
  }

  lemma SliceMore(slices: seq<Slice>, s: Slice)
    ensures SliceGraph(slices + [s]) ==
        SliceGraph(slices).Plus(Graph([Node(s.id, SliceNode)], [Edge(s.parentNpu, s.id, Contains)]))
    ensures ToSet(SliceIds(slices + [s])) == ToSet(SliceIds(slices)) + {s.id}
  {
    assert SliceIds(slices + [s]) == SliceIds(slices) + [s.id];
  }

  lemma PlusSwap(a: Graph, b: Graph, c: Graph)
    ensures a.Plus(b.Plus(c)) == a.Plus(b).Plus(c)
    ensures a.Plus(EMPTY) == a
  {
    assert a.nodes + (b.nodes + c.nodes) == (a.nodes + b.nodes) + c.nodes;
    assert a.edges + (b.edges + c.edges) == (a.edges + b.edges) + c.edges;
  }

  lemma Snoc<T>(s: seq<T>, k: nat)
    requires k < |s|
    ensures s[..k + 1][..k] == s[..k] && s[..k + 1] != [] && s[..k + 1][|s[..k + 1]| - 1] == s[k]
  {
  }

  lemma TakeMore<T>(before: seq<T>, s: seq<T>, i: nat)
    requires i < |s|
    ensures before + s[..i + 1] == before + s[..i] + [s[i]]
  {
  }

  /** At depth node no NPU is in scope, so there would be no ring either. */
  lemma {:induction false} NoNpusNoRings(npus: seq<Option<Npu>>)
    ensures GroupOrder({}, npus) == [] && HccsEdges({}, npus) == []
  {
    if npus != [] {
      NoNpusNoRings(npus[..|npus| - 1]);
    }
  }

  // ---------------------------------------------------------------- the sort

  /** The hand-written insertion sort, in place. */
  method SortNpusByIndex(a: array<Npu>)
    modifies a
    ensures a[..] == StableSort(ByIndex, old(a[..]))
  {
    ghost var s := a[..];
    SortedStart(s);
    var i := 1;
    while i < a.Length
      invariant 1 <= i && (a.Length > 0 ==> i <= a.Length)
      invariant a.Length > 0 ==> a[..i] == StableSort(ByIndex, s[..i])
      invariant forall k :: i <= k < a.Length ==> a[k] == s[k]
    {
      SortedStep(s, i);
      SiftDown(a, i);
      i := i + 1;
    }
    assert a.Length > 0 ==> a[..] == a[..a.Length] && s == s[..a.Length];
  }

  lemma SortedStart(s: seq<Npu>)
    ensures s == [] ==> StableSort(ByIndex, s) == s
    ensures s != [] ==> StableSort(ByIndex, s[..1]) == s[..1]
  {
    if s != [] {
      assert s[..1] == [s[0]] && s[..1][..0] == [];
      assert StableSort(ByIndex, s[..1][..0]) == [];
    }
  }

  lemma SortedStep(s: seq<Npu>, i: nat)
    requires i < |s|
    ensures StableSort(ByIndex, s[..i + 1]) == InsertLast(ByIndex, StableSort(ByIndex, s[..i]), s[i])
  {
    Snoc(s, i);
  }

  /** The inner loop: element `i` moves left past everything above it. */
  method SiftDown(a: array<Npu>, i: nat)
    requires i < a.Length
    modifies a
    ensures a[..i + 1] == InsertLast(ByIndex, old(a[..i]), old(a[i]))
    ensures forall k :: i < k < a.Length ==> a[k] == old(a[k])
  {
    ghost var s := a[..];
    var j := i;
    while j > 0 && a[j - 1].index > a[j].index
      invariant 0 <= j <= i && a[j] == s[i]
      invariant forall k :: 0 <= k < j ==> a[k] == s[k]
      invariant forall k :: j <= k < i ==> a[k + 1] == s[k] && s[k].index > s[i].index
      invariant forall k :: i < k < a.Length ==> a[k] == s[k]
    {
      a[j - 1], a[j] := a[j], a[j - 1];
      j := j - 1;
    }
    assert s[..i] == old(a[..i]);
    InsertedAt(s[..i], s[i], j, a[..i + 1]);
  }

  /** Inserting from the right stops at the first element that is not above `x`. */
  lemma InsertedAt(sorted: seq<Npu>, x: Npu, j: nat, r: seq<Npu>)
    requires j <= |sorted|
    requires forall k :: j <= k < |sorted| ==> sorted[k].index > x.index
    requires j == 0 || sorted[j - 1].index <= x.index
    requires |r| == |sorted| + 1 && r[j] == x
    requires forall k :: 0 <= k < j ==> r[k] == sorted[k]
    requires forall k :: j <= k < |sorted| ==> r[k + 1] == sorted[k]
    ensures r == InsertLast(ByIndex, sorted, x)
  {
    var low, above := sorted[..j], sorted[j..];
    forall k | 0 <= k < |above| ensures above[k].index > x.index && r[j + 1 + k] == above[k] {
      assert above[k] == sorted[j + k];
    }
    InsertedBetween(low, above, x);
    assert sorted == low + above;
    assert r[..j] == low && r[j + 1..] == above;
    assert r == r[..j] + [r[j]] + r[j + 1..];
  }

  lemma InsertedBetween(low: seq<Npu>, above: seq<Npu>, x: Npu)
    requires low == [] || low[|low| - 1].index <= x.index
    requires forall k :: 0 <= k < |above| ==> above[k].index > x.index
    ensures InsertLast(ByIndex, low + above, x) == low + [x] + above
  {
    InsertLastBelow(ByIndex, low, above, x);
    assert [] + [x] == [x];
    assert InsertLast(ByIndex, low, x) == low + [x];
  }

  lemma RingsStep(npuIds: set<string>, npus: seq<Option<Npu>>, order: seq<GroupKey>, k: nat)
    requires k < |order|
    ensures Rings(npuIds, npus, order[..k + 1]) ==
            Rings(npuIds, npus, order[..k]) + Ring(StableSort(ByIndex, Members(npuIds, npus, order[k])))
  {
    Snoc(order, k);
  }

  // ---------------------------------------------------------------- the output

  class Topology {
    var nodes: seq<Node>
    var edges: seq<Edge>

    function G(): Graph
      reads this
    {
      Graph(nodes, edges)
    }

    constructor ()
      ensures G() == EMPTY
    {
      nodes, edges := [], [];
    }

    method Add(node: Node, edge: Edge)
      modifies this
      ensures G() == old(G()).Plus(Graph([node], [edge]))
    {
      nodes := nodes + [node];
      edges := edges + [edge];
    }

    /** Hosts of the cluster; returns their names. */
    method AppendHosts(cluster: string, hosts: seq<Host>) returns (hostIds: set<string>)
      modifies this
      ensures hostIds == ToSet(KeptHosts(cluster, hosts))
      ensures G() == old(G()).Plus(HostGraph(cluster, KeptHosts(cluster, hosts)))
    {
      ghost var before := G();
      hostIds := {};
      for k := 0 to |hosts|
        invariant hostIds == ToSet(KeptHosts(cluster, hosts[..k]))
        invariant G() == before.Plus(HostGraph(cluster, KeptHosts(cluster, hosts[..k])))
      {
        Snoc(hosts, k);
        var h := hosts[k];
        if h.clusterId != "" && h.clusterId != cluster {
          continue;
        }
        ghost var kept := KeptHosts(cluster, hosts[..k]);
        HostMore(cluster, kept, h.name);
        PlusSwap(before, HostGraph(cluster, kept), Graph([Node(h.name, HostNode)], [Edge(cluster, h.name, Contains)]));
        Add(Node(h.name, HostNode), Edge(cluster, h.name, Contains));
        hostIds := hostIds + {h.name};
      }
      assert hosts[..|hosts|] == hosts;
    }

    /** NPUs of the hosts in the graph; returns their ids. */
    method AppendNpus(hostIds: set<string>, npus: seq<Option<Npu>>) returns (npuIds: set<string>)
      modifies this
      ensures npuIds == ToSet(NpuIds(KeptNpus(hostIds, npus)))
      ensures G() == old(G()).Plus(NpuGraph(KeptNpus(hostIds, npus)))
    {
      ghost var before := G();
      npuIds := {};
      for k := 0 to |npus|
        invariant npuIds == ToSet(NpuIds(KeptNpus(hostIds, npus[..k])))
        invariant G() == before.Plus(NpuGraph(KeptNpus(hostIds, npus[..k])))
      {
        Snoc(npus, k);
        ghost var kept := KeptNpus(hostIds, npus[..k]);
        assert kept + [] == kept;
        if npus[k].None? || npus[k].value.nodeName !in hostIds {
          continue;
        }
        var n := npus[k].value;
        assert KeptNpus(hostIds, npus[..k + 1]) == kept + [n];
        NpuMore(kept, n);
        PlusSwap(before, NpuGraph(kept), Graph([Node(n.id, NpuNode)], [Edge(n.nodeName, n.id, Contains)]));
        Add(Node(n.id, NpuNode), Edge(n.nodeName, n.id, Contains));
        npuIds := npuIds + {n.id};
      }
      assert npus[..|npus|] == npus;
    }

    /** Slices of the NPUs in the graph; returns their ids. */
    method AppendSlices(npuIds: set<string>, slices: seq<Slice>) returns (sliceIds: set<string>)
      modifies this
      ensures sliceIds == ToSet(SliceIds(KeptSlices(npuIds, slices)))
      ensures G() == old(G()).Plus(SliceGraph(KeptSlices(npuIds, slices)))
    {
      ghost var before := G();
      sliceIds := {};
      for k := 0 to |slices|
        invariant sliceIds == ToSet(SliceIds(KeptSlices(npuIds, slices[..k])))
        invariant G() == before.Plus(SliceGraph(KeptSlices(npuIds, slices[..k])))
      {
        Snoc(slices, k);
        var s := slices[k];
        ghost var kept := KeptSlices(npuIds, slices[..k]);
        assert kept + [] == kept;
        if s.parentNpu !in npuIds {
          continue;
        }
        assert KeptSlices(npuIds, slices[..k + 1]) == kept + [s];
        SliceMore(kept, s);
        PlusSwap(before, SliceGraph(kept), Graph([Node(s.id, SliceNode)], [Edge(s.parentNpu, s.id, Contains)]));
        Add(Node(s.id, SliceNode), Edge(s.parentNpu, s.id, Contains));
        sliceIds := sliceIds + {s.id};
      }
      assert slices[..|slices|] == slices;
    }

    method AppendFabric(x: Inputs, hostIds: set<string>)
      modifies this
      ensures G() == old(G()).Plus(if x.includeFabric then FabricGraph(hostIds, x.switches, x.links) else EMPTY)
    {
      if !x.includeFabric {
        PlusSwap(G(), EMPTY, EMPTY);
        return;
      }
      var switchIds := AppendSwitches(x.switches);
      AppendLinks(hostIds, switchIds, x.links);
    }

    method AppendSwitches(switches: seq<string>) returns (switchIds: set<string>)
      modifies this`nodes
      ensures switchIds == ToSet(KeptSwitches(switches))
      ensures nodes == old(nodes) + Nodes(KeptSwitches(switches), SwitchNode)
    {
      ghost var before := nodes;
      switchIds := {};
      for k := 0 to |switches|
        invariant switchIds == ToSet(KeptSwitches(switches[..k]))
        invariant nodes == before + Nodes(KeptSwitches(switches[..k]), SwitchNode)
      {
        Snoc(switches, k);
        var sw := switches[k];
        if sw == "" {
          continue;
        }
        ghost var kept := KeptSwitches(switches[..k]);
        assert Nodes(kept + [sw], SwitchNode) == Nodes(kept, SwitchNode) + [Node(sw, SwitchNode)];
        nodes := nodes + [Node(sw, SwitchNode)];
        switchIds := switchIds + {sw};
      }
      assert switches[..|switches|] == switches;
    }

    method AppendLinks(hostIds: set<string>, switchIds: set<string>, links: seq<Link>)
      modifies this`edges
      ensures edges == old(edges) + LinkEdges(hostIds, switchIds, links)
    {
      ghost var before := edges;
      for k := 0 to |links|
        invariant edges == before + LinkEdges(hostIds, switchIds, links[..k])
      {
        Snoc(links, k);
        var l := links[k];
        if l.id == "" || l.from == "" || l.to == "" {
          continue;
        }
        if l.from !in hostIds && l.from !in switchIds {
          continue;
        }
        if l.to !in hostIds && l.to !in switchIds {
          continue;
        }
        if l.from in hostIds && l.to in hostIds {
          edges := edges + [Edge(l.from, l.to, Network)];
          continue;
        }
        edges := edges + [Edge(l.from, l.to, FabricLink)];
      }
      assert links[..|links|] == links;
    }

    /** Groups the NPUs in scope by (node, group), then rings up each group. */
    method AppendHccs(x: Inputs, npuIds: set<string>)
      modifies this
      ensures G() == old(G()).Plus(if x.includeFabric then Graph([], HccsEdges(npuIds, x.npus)) else EMPTY)
    {
      if !x.includeFabric {
        PlusSwap(G(), EMPTY, EMPTY);
        return;
      }
      var groups, order := GroupNpus(npuIds, x.npus);
      AppendRings(groups, order, npuIds, x.npus);
    }

    method AppendRings(groups: map<GroupKey, seq<Npu>>, order: seq<GroupKey>, ghost npuIds: set<string>,
                       ghost npus: seq<Option<Npu>>)
      requires forall i :: 0 <= i < |order| ==>
          order[i] in groups && groups[order[i]] == Members(npuIds, npus, order[i])
      modifies this`edges
      ensures edges == old(edges) + Rings(npuIds, npus, order)
    {
      ghost var before := edges;
      ghost var done: seq<Edge> := [];
      for k := 0 to |order|
        invariant done == Rings(npuIds, npus, order[..k])
        invariant edges == before + done
      {
        RingsStep(npuIds, npus, order, k);
        ghost var ring := Ring(StableSort(ByIndex, groups[order[k]]));
        AppendGroup(groups[order[k]]);
        ConcatAssociative(before, done, ring);
        done := done + ring;
      }
      assert order[..|order|] == order;
    }

    method AppendGroup(group: seq<Npu>)
      modifies this`edges
      ensures edges == old(edges) + Ring(StableSort(ByIndex, group))
    {
      if |group| < 2 {
        assert Ring(StableSort(ByIndex, group)) == [];
        return;
      }
      var members := new Npu[|group|](i requires 0 <= i < |group| => group[i]);
      assert members[..] == group;
      SortNpusByIndex(members);
      AppendRing(members);
    }

    method AppendRing(members: array<Npu>)
      requires members.Length >= 2
      modifies this`edges
      ensures edges == old(edges) + Ring(members[..])
    {
      ghost var before, ring := edges, Ring(members[..]);
      var n := members.Length;
      var limit := if n == 2 then 1 else n;
      for i := 0 to limit
        invariant edges == before + ring[..i]
      {
        var e := Edge(members[i].id, members[Next(i, n)].id, Hccs);
        assert ring[i] == e;
        TakeMore(before, ring, i);
        edges := edges + [e];
      }
      assert ring[..limit] == ring;
    }

    method AppendPod(w: Workload, pod: Pod, hostIds: set<string>, sliceIds: set<string>)
      requires pod.name != ""
      modifies this
      ensures G() == old(G()).Plus(PodGraph(w.namespace, hostIds, sliceIds, pod))
    {
      ghost var before := G();
      var id := PodId(w.namespace, pod.name);
      nodes := nodes + [Node(id, PodNode)];
      for k := 0 to |pod.bindings|
        invariant nodes == before.nodes + [Node(id, PodNode)]
        invariant edges == before.edges + BindingEdges(id, sliceIds, pod.bindings[..k])
      {
        Snoc(pod.bindings, k);
        var b := pod.bindings[k];
        if b == "" {
          continue;
        }
        if b !in sliceIds {
          continue;
        }
        edges := edges + [Edge(id, b, BindsTo)];
      }
      assert pod.bindings[..|pod.bindings|] == pod.bindings;
      if pod.bindings == [] && pod.nodeName != "" {
        if pod.nodeName in hostIds {
          edges := edges + [Edge(id, pod.nodeName, RunsOn)];
        }
      }
    }

    method AppendWorkload(w: Workload, hostIds: set<string>, sliceIds: set<string>)
      requires w.name != "" && w.namespace != ""
      modifies this
      ensures G() == old(G()).Plus(WorkloadGraph(hostIds, sliceIds, w))
    {
      ghost var before, head := G(), Graph([Node(WorkloadId(w.namespace, w.name), WorkloadNode)], []);
      nodes := nodes + [Node(WorkloadId(w.namespace, w.name), WorkloadNode)];
      var podIds: map<string, string> := map[];
      for k := 0 to |w.pods|
        invariant G() == before.Plus(head).Plus(PodsGraph(w.namespace, hostIds, sliceIds, w.pods[..k]))
        invariant podIds == map p | p in PodNames(w.pods[..k]) :: PodId(w.namespace, p)
      {
        Snoc(w.pods, k);
        var pod := w.pods[k];
        assert PodNames(w.pods[..k + 1]) == PodNames(w.pods[..k]) + (if pod.name == "" then {} else {pod.name});
        PlusSwap(before.Plus(head), PodsGraph(w.namespace, hostIds, sliceIds, w.pods[..k]),
                 PodGraph(w.namespace, hostIds, sliceIds, pod));
        if pod.name == "" {
          PlusSwap(PodsGraph(w.namespace, hostIds, sliceIds, w.pods[..k]), EMPTY, EMPTY);
          continue;
        }
        AppendPod(w, pod, hostIds, sliceIds);
        podIds := podIds[pod.name := PodId(w.namespace, pod.name)];
      }
      assert w.pods[..|w.pods|] == w.pods;
      AppendPairs(w, podIds);
      PlusSwap(before, head, PodsGraph(w.namespace, hostIds, sliceIds, w.pods));
      PlusSwap(before, head.Plus(PodsGraph(w.namespace, hostIds, sliceIds, w.pods)),
               Graph([], PairEdges(w.namespace, PodNames(w.pods), w.relations)));
    }

    method AppendPairs(w: Workload, podIds: map<string, string>)
      requires podIds == map p | p in PodNames(w.pods) :: PodId(w.namespace, p)
      modifies this
      ensures G() == old(G()).Plus(Graph([], PairEdges(w.namespace, PodNames(w.pods), w.relations)))
    {
      ghost var before := G();
      for k := 0 to |w.relations|
        invariant nodes == before.nodes
        invariant edges == before.edges + PairEdges(w.namespace, PodNames(w.pods), w.relations[..k])
      {
        Snoc(w.relations, k);
        var r := w.relations[k];
        if r.kind != "pd-pair" {
          continue;
        }
        if r.from !in podIds || r.to !in podIds {
          continue;
        }
        edges := edges + [Edge(podIds[r.from], podIds[r.to], PdPair)];
      }
      assert w.relations[..|w.relations|] == w.relations;
    }

    method AppendWorkloads(x: Inputs, hostIds: set<string>, sliceIds: set<string>)
      modifies this
      ensures G() == old(G()).Plus(if x.includeWorkloads then WorkloadsGraph(hostIds, sliceIds, x.workloads) else EMPTY)
    {
      PlusSwap(G(), EMPTY, EMPTY);
      if !x.includeWorkloads {
        return;
      }
      ghost var before := G();
      for k := 0 to |x.workloads|
        invariant G() == before.Plus(WorkloadsGraph(hostIds, sliceIds, x.workloads[..k]))
      {
        Snoc(x.workloads, k);
        var w := x.workloads[k];
        ghost var sofar := WorkloadsGraph(hostIds, sliceIds, x.workloads[..k]);
        PlusSwap(before, sofar, WorkloadGraph(hostIds, sliceIds, w));
        if w.name == "" || w.namespace == "" {
          PlusSwap(sofar, EMPTY, EMPTY);
          continue;
        }
        AppendWorkload(w, hostIds, sliceIds);
      }
      assert x.workloads[..|x.workloads|] == x.workloads;
    }
  }

  /** Members per group and the groups in order of first appearance. */
  method GroupNpus(npuIds: set<string>, npus: seq<Option<Npu>>) returns (groups: map<GroupKey, seq<Npu>>,
                   order: seq<GroupKey>)
    ensures order == GroupOrder(npuIds, npus)
    ensures forall k :: k in order <==> k in groups
    ensures forall k :: k in groups ==> groups[k] == Members(npuIds, npus, k)
  {
    groups, order := map[], [];
    for i := 0 to |npus|
      invariant order == GroupOrder(npuIds, npus[..i])
      invariant forall k :: k in order <==> k in groups
      invariant forall k :: k in groups ==> groups[k] == Members(npuIds, npus[..i], k)
      invariant forall k :: k !in groups ==> Members(npuIds, npus[..i], k) == []
    {
      Snoc(npus, i);
      if npus[i].None? || npus[i].value.hccsGroup == "" {
        continue;
      }
      var n := npus[i].value;
      if n.id !in npuIds {
        continue;
      }
      var k := KeyOf(n);
      if k !in groups {
        order := order + [k];
        groups := groups[k := [n]];
      } else {
        groups := groups[k := groups[k] + [n]];
      }
    }
    assert npus[..|npus|] == npus;
  }

  /** The whole builder: tree down to the requested depth, then fabric, then workloads. */
  method BuildTopology(x: Inputs) returns (out: Topology)
    ensures fresh(out) && out.G() == Build(x)
  {
    var depth := NormalizeDepth(x.depth);
    out := new Topology();
    if x.cluster.None? {
      return;
    }
    var cluster := x.cluster.value;
    out.nodes := out.nodes + [Node(cluster, ClusterNode)];
    assert [] + [Node(cluster, ClusterNode)] == [Node(cluster, ClusterNode)];
    var hostIds := out.AppendHosts(cluster, x.hosts);
    if depth == DepthNode {
      NodeDepth(x);
      assert out.G() == Tree(x);
      out.AppendFabric(x, hostIds);
      assert out.G() == Tree(x).Plus(FabricPart(x));
      out.AppendWorkloads(x, hostIds, {});
      return;
    }
    var npuIds := out.AppendNpus(hostIds, x.npus);
    if depth == DepthNpu {
      NpuDepth(x);
      assert out.G() == Tree(x);
      out.AppendFabric(x, hostIds);
      out.AppendHccs(x, npuIds);
      FabricTwoParts(Tree(x), x, hostIds, npuIds);
      assert out.G() == Tree(x).Plus(FabricPart(x));
      out.AppendWorkloads(x, hostIds, {});
      return;
    }
    var sliceIds := out.AppendSlices(npuIds, x.slices);
    assert out.G() == Tree(x);
    out.AppendFabric(x, hostIds);
    out.AppendHccs(x, npuIds);
    FabricTwoParts(Tree(x), x, hostIds, npuIds);
    assert out.G() == Tree(x).Plus(FabricPart(x));
    out.AppendWorkloads(x, hostIds, sliceIds);
  }

  lemma FabricTwoParts(g: Graph, x: Inputs, hostIds: set<string>, npuIds: set<string>)
    ensures var f, h := FabricGraph(hostIds, x.switches, x.links), Graph([], HccsEdges(npuIds, x.npus));
      g.Plus(if x.includeFabric then f else EMPTY).Plus(if x.includeFabric then h else EMPTY)
      == g.Plus(if x.includeFabric then f.Plus(h) else EMPTY)
  {
    PlusSwap(g, FabricGraph(hostIds, x.switches, x.links), Graph([], HccsEdges(npuIds, x.npus)));
    PlusSwap(g, EMPTY, EMPTY);
  }

  lemma NodeDepth(x: Inputs)
    requires x.cluster.Some? && NormalizeDepth(x.depth) == DepthNode
    ensures Tree(x) == Graph([Node(x.cluster.value, ClusterNode)], []).Plus(HostGraph(x.cluster.value, HostsOf(x)))
    ensures FabricPart(x) == if x.includeFabric then FabricGraph(ToSet(HostsOf(x)), x.switches, x.links) else EMPTY
    ensures ToSet(SliceIds(SlicesOf(x))) == {}
  {
    NoNpusNoRings(x.npus);
    assert ToSet(NpuIds([])) == {} && ToSet(SliceIds([])) == {};
    PlusSwap(FabricGraph(ToSet(HostsOf(x)), x.switches, x.links), EMPTY, EMPTY);
    var root := Graph([Node(x.cluster.value, ClusterNode)], []);
    PlusSwap(root.Plus(HostGraph(x.cluster.value, HostsOf(x))), EMPTY, EMPTY);
    assert NpuGraph([]) == EMPTY && SliceGraph([]) == EMPTY;
  }

  lemma NpuDepth(x: Inputs)
    requires x.cluster.Some? && NormalizeDepth(x.depth) == DepthNpu
    ensures Tree(x) ==
      Graph([Node(x.cluster.value, ClusterNode)], [])
        .Plus(HostGraph(x.cluster.value, HostsOf(x))).Plus(NpuGraph(NpusOf(x)))
    ensures ToSet(SliceIds(SlicesOf(x))) == {}
  {
    assert SliceGraph([]) == EMPTY && ToSet(SliceIds([])) == {};
    var root := Graph([Node(x.cluster.value, ClusterNode)], []).Plus(HostGraph(x.cluster.value, HostsOf(x)));
    PlusSwap(root.Plus(NpuGraph(NpusOf(x))), EMPTY, EMPTY);
  }
}
