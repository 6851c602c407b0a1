/** What the topology graph shows, said without following the builder: a node or an edge is in
    the graph exactly when the inputs call for it. */
module TopologyExact {
  import opened Wrappers
  import opened Sorting
  import opened TopologySpec
  import opened TopologyProofs
  import Text

  // ---------------------------------------------------------------- what the inputs call for

  predicate Belongs(cluster: string, h: Host) {
    h.clusterId == "" || h.clusterId == cluster
  }

  ghost predicate IsHost(x: Inputs, name: string)
    requires x.cluster.Some?
  {
    exists h :: h in x.hosts && Belongs(x.cluster.value, h) && h.name == name
  }

  predicate ShowsNpus(depth: string) {
    Text.ToLower(Text.TrimSpace(depth)) != "node"
  }

  /** Any text but the two asks for the slices, the empty one included. */
  predicate ShowsSlices(depth: string) {
    Text.ToLower(Text.TrimSpace(depth)) != "node" && Text.ToLower(Text.TrimSpace(depth)) != "npu"
  }

  ghost predicate IsNpu(x: Inputs, n: Npu)
    requires x.cluster.Some?
  {
    ShowsNpus(x.depth) && Some(n) in x.npus && IsHost(x, n.nodeName)
  }

  ghost predicate IsSlice(x: Inputs, s: Slice)
    requires x.cluster.Some?
  {
    ShowsSlices(x.depth) && s in x.slices && exists n :: IsNpu(x, n) && n.id == s.parentNpu
  }

  predicate IsSwitch(x: Inputs, id: string) {
    x.includeFabric && id != "" && id in x.switches
  }

  predicate Named(w: Workload) {
    w.name != "" && w.namespace != ""
  }

  predicate IsWorkload(x: Inputs, w: Workload) {
    x.includeWorkloads && w in x.workloads && Named(w)
  }

  predicate HasPod(w: Workload, name: string) {
    name != "" && exists p :: p in w.pods && p.name == name
  }

  /** A node the graph has to show. */
  ghost predicate Shows(x: Inputs, n: Node) {
    x.cluster.Some? &&
    match n.kind
    case ClusterNode => n.id == x.cluster.value
    case HostNode => IsHost(x, n.id)
    case NpuNode => exists npu :: IsNpu(x, npu) && npu.id == n.id
    case SliceNode => exists s :: IsSlice(x, s) && s.id == n.id
    case SwitchNode => IsSwitch(x, n.id)
    case WorkloadNode => exists w :: IsWorkload(x, w) && n.id == "workload/" + w.namespace + "/" + w.name
    case PodNode => exists w, name :: IsWorkload(x, w) && HasPod(w, name) && n.id == "pod/" + w.namespace + "/" + name
  }

  ghost predicate InScope(x: Inputs, id: string)
    requires x.cluster.Some?
  {
    IsHost(x, id) || IsSwitch(x, id)
  }

  predicate Joined(l: Link, e: Edge) {
    l.id != "" && l.from != "" && l.to != "" && l.from == e.source && l.to == e.target
  }

  ghost predicate IsLink(x: Inputs, e: Edge)
    requires x.cluster.Some?
  {
    x.includeFabric && (exists l :: l in x.links && Joined(l, e)) && InScope(x, e.source) && InScope(x, e.target)
  }

  predicate Binds(w: Workload, e: Edge) {
    e.target != "" && exists p ::
        p in w.pods && p.name != "" && e.source == "pod/" + w.namespace + "/" + p.name && e.target in p.bindings
  }

  predicate RunsUnbound(w: Workload, e: Edge) {
    e.target != "" && exists p ::
        p in w.pods && p.name != "" && e.source == "pod/" + w.namespace + "/" + p.name && p.bindings == [] &&
            p.nodeName == e.target
  }

  predicate Pairs(w: Workload, e: Edge) {
    exists r :: r in w.relations && r.kind == "pd-pair" && HasPod(w, r.from) && HasPod(w, r.to)
      && e.source == "pod/" + w.namespace + "/" + r.from && e.target == "pod/" + w.namespace + "/" + r.to
  }

  /** The entries that are not nil. */
  function Present(npus: seq<Option<Npu>>): seq<Npu> {
    if npus == [] then []
    else Present(npus[..|npus| - 1]) + (if npus[|npus| - 1].Some? then [npus[|npus| - 1].value] else [])
  }

  /** An NPU of a named group of that node, whose id the graph shows. */
  ghost function InGroup(x: Inputs, node: string, group: string): Npu -> bool
    requires x.cluster.Some?
  {
    (n: Npu) =>
      group != "" && n.nodeName == node && n.hccsGroup == group && exists m: Npu :: IsNpu(x, m) && m.id == n.id
  }

  /** The group in input order. */
  ghost function GroupMembers(x: Inputs, node: string, group: string): seq<Npu>
    requires x.cluster.Some?
  {
    Filter(InGroup(x, node, group), Present(x.npus))
  }

  /** The edge leads from one NPU to the next, and from the last to the first unless there are two. */
  predicate OnRing(order: seq<Npu>, e: Edge) {
    e.kind == Hccs && exists i: nat :: i < |order| && StepsFrom(order, e, i)
  }

  predicate StepsFrom(order: seq<Npu>, e: Edge, i: nat)
    requires i < |order|
  {
    && |order| >= 2 && (|order| == 2 ==> i == 0)
    && e.source == order[i].id && e.target == order[if i == |order| - 1 then 0 else i + 1].id
  }

  /** An edge of the ring that a group forms by ascending index. */
  ghost predicate InRing(x: Inputs, e: Edge)
    requires x.cluster.Some?
  {
    x.includeFabric && exists node, group, order ::
      IndexOrder(order, GroupMembers(x, node, group)) && OnRing(order, e)
  }

  /** An edge the graph has to draw. */
  ghost predicate Draws(x: Inputs, e: Edge) {
    x.cluster.Some? &&
    match e.kind
    case Contains =>
      || (e.source == x.cluster.value && IsHost(x, e.target))
      || (exists n :: IsNpu(x, n) && e.source == n.nodeName && e.target == n.id)
      || (exists s :: IsSlice(x, s) && e.source == s.parentNpu && e.target == s.id)
    case Network => IsLink(x, e) && IsHost(x, e.source) && IsHost(x, e.target)
    case FabricLink => IsLink(x, e) && !(IsHost(x, e.source) && IsHost(x, e.target))
    case Hccs => InRing(x, e)
    case BindsTo => (exists w :: IsWorkload(x, w) && Binds(w, e)) && exists s :: IsSlice(x, s) && s.id == e.target
    case RunsOn => (exists w :: IsWorkload(x, w) && RunsUnbound(w, e)) && IsHost(x, e.target)
    case PdPair => exists w :: IsWorkload(x, w) && Pairs(w, e)
  }

  // ---------------------------------------------------------------- hosts, NPUs, slices, switches

  lemma {:induction false} HostsExact(cluster: string, hosts: seq<Host>, name: string)
    ensures name in KeptHosts(cluster, hosts) <==> exists h :: h in hosts && Belongs(cluster, h) && h.name == name
  {
    if hosts != [] {
      var u, last := hosts[..|hosts| - 1], hosts[|hosts| - 1];
      HostsExact(cluster, u, name);
      assert hosts == u + [last];
    }
  }

  lemma {:induction false} NpusExact(hostIds: set<string>, npus: seq<Option<Npu>>, n: Npu)
    ensures n in KeptNpus(hostIds, npus) <==> Some(n) in npus && n.nodeName in hostIds
  {
    if npus != [] {
      var u, last := npus[..|npus| - 1], npus[|npus| - 1];
      NpusExact(hostIds, u, n);
      assert npus == u + [last];
    }
  }

  lemma {:induction false} SlicesExact(npuIds: set<string>, slices: seq<Slice>, s: Slice)
    ensures s in KeptSlices(npuIds, slices) <==> s in slices && s.parentNpu in npuIds
  {
    if slices != [] {
      var u, last := slices[..|slices| - 1], slices[|slices| - 1];
      SlicesExact(npuIds, u, s);
      assert slices == u + [last];
    }
  }

  lemma {:induction false} SwitchesExact(switches: seq<string>, id: string)
    ensures id in KeptSwitches(switches) <==> id in switches && id != ""
  {
    if switches != [] {
      var u, last := switches[..|switches| - 1], switches[|switches| - 1];
      SwitchesExact(u, id);
      assert switches == u + [last];
    }
  }

  lemma IdInNpus(npus: seq<Npu>, id: string)
    ensures id in NpuIds(npus) <==> exists n :: n in npus && n.id == id
  {
    if id in NpuIds(npus) {
      var i :| 0 <= i < |npus| && NpuIds(npus)[i] == id;
      assert npus[i] in npus;
    }
    if n :| n in npus && n.id == id {
      var i :| 0 <= i < |npus| && npus[i] == n;
      assert NpuIds(npus)[i] == id;
    }
  }

  lemma IdInSlices(slices: seq<Slice>, id: string)
    ensures id in SliceIds(slices) <==> exists s :: s in slices && s.id == id
  {
    if id in SliceIds(slices) {
      var i :| 0 <= i < |slices| && SliceIds(slices)[i] == id;
      assert slices[i] in slices;
    }
    if s :| s in slices && s.id == id {
      var i :| 0 <= i < |slices| && slices[i] == s;
      assert SliceIds(slices)[i] == id;
    }
  }

  lemma HostIs(x: Inputs, name: string)
    requires x.cluster.Some?
    ensures name in ToSet(HostsOf(x)) <==> IsHost(x, name)
  {
    HostsExact(x.cluster.value, x.hosts, name);
  }

  lemma NpuIs(x: Inputs, n: Npu)
    requires x.cluster.Some?
    ensures n in NpusOf(x) <==> IsNpu(x, n)
  {
    NpusExact(ToSet(HostsOf(x)), x.npus, n);
    HostIs(x, n.nodeName);
  }

  lemma NpuIdIs(x: Inputs, id: string)
    requires x.cluster.Some?
    ensures id in ToSet(NpuIds(NpusOf(x))) <==> exists n :: IsNpu(x, n) && n.id == id
  {
    IdInNpus(NpusOf(x), id);
    forall n { NpuIs(x, n); }
  }

  lemma SliceIs(x: Inputs, s: Slice)
    requires x.cluster.Some?
    ensures s in SlicesOf(x) <==> IsSlice(x, s)
  {
    SlicesExact(ToSet(NpuIds(NpusOf(x))), x.slices, s);
    NpuIdIs(x, s.parentNpu);
  }

  lemma SliceIdIs(x: Inputs, id: string)
    requires x.cluster.Some?
    ensures id in ToSet(SliceIds(SlicesOf(x))) <==> exists s :: IsSlice(x, s) && s.id == id
  {
    IdInSlices(SlicesOf(x), id);
    forall s { SliceIs(x, s); }
  }

  // ---------------------------------------------------------------- links and rings

  lemma {:induction false} LinksExact(hostIds: set<string>, switchIds: set<string>, links: seq<Link>, e: Edge)
    ensures e in LinkEdges(hostIds, switchIds, links) <==>
      && (exists l :: l in links && Joined(l, e))
      && e.source in hostIds + switchIds && e.target in hostIds + switchIds
      && e.kind == (if e.source in hostIds && e.target in hostIds then Network else FabricLink)
  {
    if links != [] {
      var u, last := links[..|links| - 1], links[|links| - 1];
      LinksExact(hostIds, switchIds, u, e);
      assert links == u + [last];
      assert (exists l :: l in links && Joined(l, e)) <==> (exists l :: l in u && Joined(l, e)) || Joined(last, e);
    }
  }

  lemma {:induction false} MembersAre(x: Inputs, npus: seq<Option<Npu>>, node: string, group: string)
    requires x.cluster.Some?
    ensures Members(ToSet(NpuIds(NpusOf(x))), npus, GroupKey(node, group)) ==
        Filter(InGroup(x, node, group), Present(npus))
  {
    if npus != [] {
      var u, last := npus[..|npus| - 1], npus[|npus| - 1];
      MembersAre(x, u, node, group);
      if last.Some? {
        NpuIdIs(x, last.value.id);
        assert Present(npus)[..|Present(u)|] == Present(u);
      } else {
        assert Present(npus) == Present(u);
      }
    }
  }

  /** There is one such order. */
  lemma {:induction false} IndexOrderUnique(s: seq<Npu>, t: seq<Npu>, members: seq<Npu>)
    requires IndexOrder(s, members) && IndexOrder(t, members)
    ensures s == t
  {
    forall index ensures Filter(AtIndex(index), s) == Filter(AtIndex(index), t) {
      assert Filter(AtIndex(index), s) == Filter(AtIndex(index), members);
    }
    SameOrder(s, t);
  }

  predicate Ascends(s: seq<Npu>) {
    forall i, j :: 0 <= i < j < |s| ==> s[i].index <= s[j].index
  }

  lemma {:induction false} SameOrder(s: seq<Npu>, t: seq<Npu>)
    requires multiset(s) == multiset(t) && Ascends(s) && Ascends(t)
    requires forall index :: Filter(AtIndex(index), s) == Filter(AtIndex(index), t)
    ensures s == t
  {
    assert |multiset(s)| == |s| && |multiset(t)| == |t|;
    if s != [] {
      LastIndexSame(s, t);
      LastSame(AtIndex(s[|s| - 1].index), s, t);
      DropLast(s);
      DropLast(t);
      forall index ensures Filter(AtIndex(index), s[..|s| - 1]) == Filter(AtIndex(index), t[..|t| - 1]) {
        SameFront(AtIndex(index), s, t);
      }
      SameOrder(s[..|s| - 1], t[..|t| - 1]);
    }
  }

  lemma LastIndexSame(s: seq<Npu>, t: seq<Npu>)
    requires multiset(s) == multiset(t) && Ascends(s) && Ascends(t) && s != [] && t != []
    ensures s[|s| - 1].index == t[|t| - 1].index
  {
    SameElements(s, t);
    assert s[|s| - 1] in t && t[|t| - 1] in s;
  }

  lemma LastSame(f: Npu -> bool, s: seq<Npu>, t: seq<Npu>)
    requires s != [] && t != [] && f(s[|s| - 1]) && f(t[|t| - 1]) && Filter(f, s) == Filter(f, t)
    ensures s[|s| - 1] == t[|t| - 1]
  {
    assert Filter(f, s)[|Filter(f, s)| - 1] == s[|s| - 1];
    assert Filter(f, t)[|Filter(f, t)| - 1] == t[|t| - 1];
  }

  lemma SameFront(f: Npu -> bool, s: seq<Npu>, t: seq<Npu>)
    requires s != [] && t != [] && s[|s| - 1] == t[|t| - 1] && Filter(f, s) == Filter(f, t)
    ensures Filter(f, s[..|s| - 1]) == Filter(f, t[..|t| - 1])
  {
    var x := s[|s| - 1];
    if f(x) {
      var u, v := Filter(f, s[..|s| - 1]), Filter(f, t[..|t| - 1]);
      assert u + [x] == v + [x];
      assert u == (u + [x])[..|u|] && v == (v + [x])[..|v|];
    }
  }

  lemma RingIsOnRing(order: seq<Npu>, e: Edge)
    ensures e in Ring(order) <==> OnRing(order, e)
  {
    var r, n := Ring(order), |order|;
    if e in r {
      var i: nat :| i < |r| && r[i] == e;
      assert StepsFrom(order, e, i);
    }
    if OnRing(order, e) {
      var i: nat :| i < n && StepsFrom(order, e, i);
      assert r[i] == e;
    }
  }

  lemma RingIs(x: Inputs, e: Edge)
    requires x.cluster.Some? && x.includeFabric
    ensures e in HccsEdges(ToSet(NpuIds(NpusOf(x))), x.npus) <==> InRing(x, e)
  {
    var npuIds := ToSet(NpuIds(NpusOf(x)));
    var keys := GroupOrder(npuIds, x.npus);
    GatherMembers(RingOf(npuIds, x.npus), keys, e);
    if key :| key in keys && e in RingOf(npuIds, x.npus)(key) {
      DrawnIsInRing(x, key, e);
    }
    if InRing(x, e) {
      var node, group, order :| IndexOrder(order, GroupMembers(x, node, group)) && OnRing(order, e);
      InRingIsDrawn(x, node, group, order, e);
    }
  }

  lemma DrawnIsInRing(x: Inputs, key: GroupKey, e: Edge)
    requires x.cluster.Some? && x.includeFabric && e in RingOf(ToSet(NpuIds(NpusOf(x))), x.npus)(key)
    ensures InRing(x, e)
  {
    var order := SortedMembers(ToSet(NpuIds(NpusOf(x))), x.npus, key);
    SortIsIndexOrder(Members(ToSet(NpuIds(NpusOf(x))), x.npus, key));
    MembersAre(x, x.npus, key.node, key.group);
    assert key == GroupKey(key.node, key.group);
    RingIsOnRing(order, e);
    assert IndexOrder(order, GroupMembers(x, key.node, key.group)) && OnRing(order, e);
  }

  lemma InRingIsDrawn(x: Inputs, node: string, group: string, order: seq<Npu>, e: Edge)
    requires x.cluster.Some? && IndexOrder(order, GroupMembers(x, node, group)) && OnRing(order, e)
    ensures var npuIds, key := ToSet(NpuIds(NpusOf(x))), GroupKey(node, group);
      key in GroupOrder(npuIds, x.npus) && e in RingOf(npuIds, x.npus)(key)
  {
    OneRingIs(x, node, group, order, e);
    MembersAre(x, x.npus, node, group);
    GroupOrderExact(ToSet(NpuIds(NpusOf(x))), x.npus);
    assert |multiset(order)| == |order| >= 2;
  }

  lemma OneRingIs(x: Inputs, node: string, group: string, order: seq<Npu>, e: Edge)
    requires x.cluster.Some? && IndexOrder(order, GroupMembers(x, node, group))
    ensures e in RingOf(ToSet(NpuIds(NpusOf(x))), x.npus)(GroupKey(node, group)) <==> OnRing(order, e)
  {
    var members := Members(ToSet(NpuIds(NpusOf(x))), x.npus, GroupKey(node, group));
    MembersAre(x, x.npus, node, group);
    SortIsIndexOrder(members);
    IndexOrderUnique(order, StableSort(ByIndex, members), members);
    RingIsOnRing(order, e);
  }

  /** Of the HCCS edges, those that leave the NPUs of a group form its ring. */
  lemma GroupRings(x: Inputs, node: string, group: string)
    requires x.cluster.Some? && x.includeFabric && DistinctNpus(x.npus)
    ensures RingIn(Build(x), GroupMembers(x, node, group))
  {
    MembersAre(x, x.npus, node, group);
    HccsRings(x, GroupKey(node, group));
  }

  // ---------------------------------------------------------------- workloads

  lemma {:induction false} BindingsExact(podId: string, sliceIds: set<string>, bindings: seq<string>, e: Edge)
    ensures e in BindingEdges(podId, sliceIds, bindings) <==>
      e.kind == BindsTo && e.source == podId && e.target != "" && e.target in bindings && e.target in sliceIds
  {
    if bindings != [] {
      var u, last := bindings[..|bindings| - 1], bindings[|bindings| - 1];
      BindingsExact(podId, sliceIds, u, e);
      assert bindings == u + [last];
    }
  }

  predicate PodBinds(namespace: string, p: Pod, e: Edge) {
    p.name != "" && e.source == PodId(namespace, p.name) && e.target in p.bindings
  }

  predicate PodRuns(namespace: string, p: Pod, e: Edge) {
    p.name != "" && e.source == PodId(namespace, p.name) && p.bindings == [] && p.nodeName == e.target
  }

  /** One pod is bound to slices or runs on a node, never both. */
  lemma PodExact(namespace: string, hostIds: set<string>, sliceIds: set<string>, p: Pod, e: Edge)
    ensures e in PodGraph(namespace, hostIds, sliceIds, p).edges <==>
      || (e.kind == BindsTo && e.target != "" && e.target in sliceIds && PodBinds(namespace, p, e))
      || (e.kind == RunsOn && e.target != "" && e.target in hostIds && PodRuns(namespace, p, e))
  {
    BindingsExact(PodId(namespace, p.name), sliceIds, p.bindings, e);
  }

  lemma {:induction false} PodsExact(namespace: string, hostIds: set<string>, sliceIds: set<string>, pods: seq<Pod>,
                                     e: Edge)
    ensures e in PodsGraph(namespace, hostIds, sliceIds, pods).edges <==>
      || (e.kind == BindsTo && e.target != "" && e.target in sliceIds && exists p ::
          p in pods && PodBinds(namespace, p, e))
      || (e.kind == RunsOn && e.target != "" && e.target in hostIds && exists p ::
          p in pods && PodRuns(namespace, p, e))
  {
    if pods != [] {
      var u, last := pods[..|pods| - 1], pods[|pods| - 1];
      PodsExact(namespace, hostIds, sliceIds, u, e);
      PodExact(namespace, hostIds, sliceIds, last, e);
      assert pods == u + [last];
    }
  }

  lemma {:induction false} PodNodesExact(namespace: string, hostIds: set<string>, sliceIds: set<string>,
                                         pods: seq<Pod>, n: Node)
    ensures n in PodsGraph(namespace, hostIds, sliceIds, pods).nodes <==>
      n.kind == PodNode && exists p :: p in pods && p.name != "" && n.id == PodId(namespace, p.name)
  {
    if pods != [] {
      var u, last := pods[..|pods| - 1], pods[|pods| - 1];
      PodNodesExact(namespace, hostIds, sliceIds, u, n);
      assert pods == u + [last];
    }
  }

  predicate RelationDraws(namespace: string, names: set<string>, r: Relation, e: Edge) {
    && r.kind == "pd-pair" && r.from in names && r.to in names
    && e == Edge(PodId(namespace, r.from), PodId(namespace, r.to), PdPair)
  }

  lemma {:induction false} PairsExact(namespace: string, names: set<string>, relations: seq<Relation>, e: Edge)
    ensures e in PairEdges(namespace, names, relations) <==>
      exists r :: r in relations && RelationDraws(namespace, names, r, e)
  {
    if relations != [] {
      var u, last := relations[..|relations| - 1], relations[|relations| - 1];
      PairsExact(namespace, names, u, e);
      assert relations == u + [last];
      assert e in PairEdges(namespace, names, relations) <==>
        e in PairEdges(namespace, names, u) || RelationDraws(namespace, names, last, e);
    }
  }

  /** What one workload contributes. */
  predicate WorkloadDraws(hostIds: set<string>, sliceIds: set<string>, w: Workload, e: Edge) {
    Named(w) &&
    match e.kind
    case BindsTo => e.target in sliceIds && Binds(w, e)
    case RunsOn => e.target in hostIds && RunsUnbound(w, e)
    case PdPair => Pairs(w, e)
    case _ => false
  }

  predicate WorkloadShows(w: Workload, n: Node) {
    Named(w) &&
    match n.kind
    case WorkloadNode => n.id == WorkloadId(w.namespace, w.name)
    case PodNode => exists p :: p in w.pods && p.name != "" && n.id == PodId(w.namespace, p.name)
    case _ => false
  }

  lemma WorkloadEdges(hostIds: set<string>, sliceIds: set<string>, w: Workload, e: Edge)
    ensures e in WorkloadGraph(hostIds, sliceIds, w).edges <==> WorkloadDraws(hostIds, sliceIds, w, e)
  {
    if Named(w) {
      PodsExact(w.namespace, hostIds, sliceIds, w.pods, e);
      PairsExact(w.namespace, PodNames(w.pods), w.relations, e);
      assert forall name :: name in PodNames(w.pods) <==> HasPod(w, name);
      assert (exists p :: p in w.pods && PodBinds(w.namespace, p, e)) && e.target != "" <==> Binds(w, e);
      assert (exists p :: p in w.pods && PodRuns(w.namespace, p, e)) && e.target != "" <==> RunsUnbound(w, e);
      if e.kind == PdPair {
      }
    }
  }

  lemma WorkloadNodes(hostIds: set<string>, sliceIds: set<string>, w: Workload, n: Node)
    ensures n in WorkloadGraph(hostIds, sliceIds, w).nodes <==> WorkloadShows(w, n)
  {
    PodNodesExact(w.namespace, hostIds, sliceIds, w.pods, n);
  }

  lemma {:induction false} WorkloadsExact(hostIds: set<string>, sliceIds: set<string>, workloads: seq<Workload>,
                                          e: Edge, n: Node)
    ensures e in WorkloadsGraph(hostIds, sliceIds, workloads).edges <==>
      exists w :: w in workloads && WorkloadDraws(hostIds, sliceIds, w, e)
    ensures n in WorkloadsGraph(hostIds, sliceIds, workloads).nodes <==>
        exists w :: w in workloads && WorkloadShows(w, n)
  {
    if workloads != [] {
      var u, last := workloads[..|workloads| - 1], workloads[|workloads| - 1];
      WorkloadsExact(hostIds, sliceIds, u, e, n);
      WorkloadEdges(hostIds, sliceIds, last, e);
      WorkloadNodes(hostIds, sliceIds, last, n);
      assert workloads == u + [last];
    }
  }

  // ---------------------------------------------------------------- the whole graph

  lemma TreeNodeIs(x: Inputs, n: Node)
    requires x.cluster.Some?
    ensures n in Tree(x).nodes <==>
      Shows(x, n) && (n.kind == ClusterNode || n.kind == HostNode || n.kind == NpuNode || n.kind == SliceNode)
  {
    NodeListed(HostsOf(x), HostNode, n);
    NodeListed(NpuIds(NpusOf(x)), NpuNode, n);
    NodeListed(SliceIds(SlicesOf(x)), SliceNode, n);
    HostIs(x, n.id);
    NpuIdIs(x, n.id);
    SliceIdIs(x, n.id);
  }

  lemma NodeListed(ids: seq<string>, kind: NodeType, n: Node)
    ensures n in Nodes(ids, kind) <==> n.kind == kind && n.id in ids
  {
    if n.kind == kind && n.id in ids {
      var i :| 0 <= i < |ids| && ids[i] == n.id;
      assert Nodes(ids, kind)[i] == n;
    }
  }

  /** A node is in the graph exactly when the inputs, depth and flags call for it. */
  lemma NodesExact(x: Inputs, n: Node)
    ensures n in Build(x).nodes <==> Shows(x, n)
  {
    if x.cluster.Some? {
      TreeNodeIs(x, n);
      NodeListed(KeptSwitches(x.switches), SwitchNode, n);
      SwitchesExact(x.switches, n.id);
      WorkloadNodeIs(x, n);
    }
  }

  lemma WorkloadNodeIs(x: Inputs, n: Node)
    requires x.cluster.Some?
    ensures n in WorkloadPart(x).nodes <==> Shows(x, n) && (n.kind == WorkloadNode || n.kind == PodNode)
  {
    WorkloadsExact(ToSet(HostsOf(x)), ToSet(SliceIds(SlicesOf(x))), x.workloads, Edge("", "", Contains), n);
    if n.kind == PodNode && x.includeWorkloads {
      forall w ensures WorkloadShows(w, n) <==>
          Named(w) && exists name :: HasPod(w, name) && n.id == PodId(w.namespace, name) {
      }
    }
  }

  lemma TreeEdgeIs(x: Inputs, e: Edge)
    requires x.cluster.Some?
    ensures e in Tree(x).edges <==> e.kind == Contains && Draws(x, e)
  {
    HostEdge(x.cluster.value, HostsOf(x), e);
    NpuEdge(NpusOf(x), e);
    SliceEdge(SlicesOf(x), e);
    HostIs(x, e.target);
    forall n { NpuIs(x, n); }
    forall s { SliceIs(x, s); }
  }

  lemma HostEdge(cluster: string, hosts: seq<string>, e: Edge)
    ensures e in HostGraph(cluster, hosts).edges <==> e.kind == Contains && e.source == cluster && e.target in hosts
  {
    if e.kind == Contains && e.source == cluster && e.target in hosts {
      var i :| 0 <= i < |hosts| && hosts[i] == e.target;
      assert HostGraph(cluster, hosts).edges[i] == e;
    }
  }

  lemma NpuEdge(npus: seq<Npu>, e: Edge)
    ensures e in NpuGraph(npus).edges <==>
        e.kind == Contains && exists n :: n in npus && e.source == n.nodeName && e.target == n.id
  {
    if e in NpuGraph(npus).edges {
      var i :| 0 <= i < |npus| && NpuGraph(npus).edges[i] == e;
      assert npus[i] in npus;
    }
    if n :| n in npus && e == Edge(n.nodeName, n.id, Contains) {
      var i :| 0 <= i < |npus| && npus[i] == n;
      assert NpuGraph(npus).edges[i] == e;
    }
  }

  lemma SliceEdge(slices: seq<Slice>, e: Edge)
    ensures e in SliceGraph(slices).edges <==>
        e.kind == Contains && exists s :: s in slices && e.source == s.parentNpu && e.target == s.id
  {
    if e in SliceGraph(slices).edges {
      var i :| 0 <= i < |slices| && SliceGraph(slices).edges[i] == e;
      assert slices[i] in slices;
    }
    if s :| s in slices && e == Edge(s.parentNpu, s.id, Contains) {
      var i :| 0 <= i < |slices| && slices[i] == s;
      assert SliceGraph(slices).edges[i] == e;
    }
  }

  lemma FabricEdgeIs(x: Inputs, e: Edge)
    requires x.cluster.Some?
    ensures e in FabricPart(x).edges <==> (e.kind == Network || e.kind == FabricLink || e.kind == Hccs) && Draws(x, e)
  {
    if x.includeFabric {
      LinksExact(ToSet(HostsOf(x)), ToSet(KeptSwitches(x.switches)), x.links, e);
      forall id | id == e.source || id == e.target
        ensures id in ToSet(HostsOf(x)) <==> IsHost(x, id)
        ensures id in ToSet(KeptSwitches(x.switches)) <==> IsSwitch(x, id) {
        HostIs(x, id);
        SwitchesExact(x.switches, id);
      }
      RingIs(x, e);
      RingKind(x, e);
    }
  }

  lemma RingKind(x: Inputs, e: Edge)
    requires x.cluster.Some?
    ensures InRing(x, e) ==> e.kind == Hccs
  {
  }

  lemma WorkloadEdgeIs(x: Inputs, e: Edge)
    requires x.cluster.Some?
    ensures e in WorkloadPart(x).edges <==> (e.kind == BindsTo || e.kind == RunsOn || e.kind == PdPair) && Draws(x, e)
  {
    WorkloadsExact(ToSet(HostsOf(x)), ToSet(SliceIds(SlicesOf(x))), x.workloads, e, Node("", PodNode));
    HostIs(x, e.target);
    SliceIdIs(x, e.target);
  }

  /** An edge is in the graph exactly when the inputs, depth and flags call for it. */
  lemma EdgesExact(x: Inputs, e: Edge)
    ensures e in Build(x).edges <==> Draws(x, e)
  {
    if x.cluster.Some? {
      TreeEdgeIs(x, e);
      FabricEdgeIs(x, e);
      WorkloadEdgeIs(x, e);
    }
  }

  /** A pod with bindings has no runs-on edge, and one without has no binds-to edge, as long as
      pod names are unique within the namespace. */
  lemma PodIsBoundOrRuns(x: Inputs, w: Workload, p: Pod, e: Edge)
    requires e in Build(x).edges && e.source == PodId(w.namespace, p.name)
    requires forall v, q ::
        v in x.workloads && q in v.pods && PodId(v.namespace, q.name) == PodId(w.namespace, p.name) ==> q == p
    ensures e.kind == BindsTo ==> p.bindings != []
    ensures e.kind == RunsOn ==> p.bindings == []
  {
    EdgesExact(x, e);
  }
}
