/** The topology graph that BuildTopology assembles (backend/pkg/aggregator/topology.go), as
    a function of its inputs.  Labels, statuses, attributes and the timestamp are dropped. */
module TopologySpec {
  import opened Wrappers
  import opened Sorting
  import Text

  datatype NodeType = ClusterNode | HostNode | NpuNode | SliceNode | SwitchNode | WorkloadNode | PodNode

  datatype EdgeType = Contains | FabricLink | Network | Hccs | BindsTo | PdPair | RunsOn

  datatype Node = Node(id: string, kind: NodeType)

  datatype Edge = Edge(source: string, target: string, kind: EdgeType)

  datatype Graph = Graph(nodes: seq<Node>, edges: seq<Edge>) {
    function Plus(g: Graph): Graph {
      Graph(nodes + g.nodes, edges + g.edges)
    }
  }

  datatype Host = Host(name: string, clusterId: string)

  datatype Npu = Npu(id: string, nodeName: string, index: int, hccsGroup: string)

  datatype Slice = Slice(id: string, parentNpu: string)

  datatype Link = Link(id: string, from: string, to: string)

  /** `bindings` are the slice ids of the pod's bindings. */
  datatype Pod = Pod(name: string, nodeName: string, bindings: seq<string>)

  datatype Relation = Relation(from: string, to: string, kind: string)

  datatype Workload = Workload(namespace: string, name: string, pods: seq<Pod>, relations: seq<Relation>)

  datatype Inputs = Inputs(
    cluster: Option<string>, hosts: seq<Host>, npus: seq<Option<Npu>>, slices: seq<Slice>, depth: string,
    includeFabric: bool, switches: seq<string>, links: seq<Link>,
    includeWorkloads: bool, workloads: seq<Workload>)

  datatype Depth = DepthNode | DepthNpu | DepthSlice

  function NormalizeDepth(depth: string): Depth {
    var d := Text.ToLower(Text.TrimSpace(depth));
    if d == "node" then DepthNode else if d == "npu" then DepthNpu else DepthSlice
  }

  const EMPTY := Graph([], [])

  // ---------------------------------------------------------------- the tree

  function KeptHosts(cluster: string, hosts: seq<Host>): seq<string> {
    if hosts == [] then []
    else
      var h := hosts[|hosts| - 1];
      KeptHosts(cluster, hosts[..|hosts| - 1]) +
      (if h.clusterId != "" && h.clusterId != cluster then [] else [h.name])
  }

  function KeptNpus(hostIds: set<string>, npus: seq<Option<Npu>>): seq<Npu> {
    if npus == [] then []
    else
      var n := npus[|npus| - 1];
      KeptNpus(hostIds, npus[..|npus| - 1]) + (if n.Some? && n.value.nodeName in hostIds then [n.value] else [])
  }

  function KeptSlices(npuIds: set<string>, slices: seq<Slice>): seq<Slice> {
    if slices == [] then []
    else
      var s := slices[|slices| - 1];
      KeptSlices(npuIds, slices[..|slices| - 1]) + (if s.parentNpu in npuIds then [s] else [])
  }

  function NpuIds(npus: seq<Npu>): seq<string> {
    seq(|npus|, i requires 0 <= i < |npus| => npus[i].id)
  }

  function SliceIds(slices: seq<Slice>): seq<string> {
    seq(|slices|, i requires 0 <= i < |slices| => slices[i].id)
  }

  function Nodes(ids: seq<string>, kind: NodeType): seq<Node> {
    seq(|ids|, i requires 0 <= i < |ids| => Node(ids[i], kind))
  }

  function HostGraph(cluster: string, hosts: seq<string>): Graph {
    Graph(Nodes(hosts, HostNode), seq(|hosts|, i requires 0 <= i < |hosts| => Edge(cluster, hosts[i], Contains)))
  }

  function NpuGraph(npus: seq<Npu>): Graph {
    Graph(Nodes(NpuIds(npus), NpuNode),
          seq(|npus|, i requires 0 <= i < |npus| => Edge(npus[i].nodeName, npus[i].id, Contains)))
  }

  function SliceGraph(slices: seq<Slice>): Graph {
    Graph(Nodes(SliceIds(slices), SliceNode),
          seq(|slices|, i requires 0 <= i < |slices| => Edge(slices[i].parentNpu, slices[i].id, Contains)))
  }

  function HostsOf(x: Inputs): seq<string>
    requires x.cluster.Some?
  {
    KeptHosts(x.cluster.value, x.hosts)
  }

  /** The NPUs in the graph; none at depth node. */
  function NpusOf(x: Inputs): seq<Npu>
    requires x.cluster.Some?
  {
    if NormalizeDepth(x.depth) == DepthNode then [] else KeptNpus(ToSet(HostsOf(x)), x.npus)
  }

  /** The slices in the graph; none above depth slice. */
  function SlicesOf(x: Inputs): seq<Slice>
    requires x.cluster.Some?
  {
    if NormalizeDepth(x.depth) != DepthSlice then [] else KeptSlices(ToSet(NpuIds(NpusOf(x))), x.slices)
  }

  /** Cluster, hosts, NPUs and slices with their `contains` edges. */
  function Tree(x: Inputs): Graph
    requires x.cluster.Some?
  {
    Graph([Node(x.cluster.value, ClusterNode)], [])
      .Plus(HostGraph(x.cluster.value, HostsOf(x))).Plus(NpuGraph(NpusOf(x))).Plus(SliceGraph(SlicesOf(x)))
  }

  // ---------------------------------------------------------------- fabric

  function KeptSwitches(switches: seq<string>): seq<string> {
    if switches == [] then []
    else
      var w := switches[|switches| - 1];
      KeptSwitches(switches[..|switches| - 1]) + (if w == "" then [] else [w])
  }

  function LinkEdges(hostIds: set<string>, switchIds: set<string>, links: seq<Link>): seq<Edge> {
    if links == [] then []
    else
      var l := links[|links| - 1];
      LinkEdges(hostIds, switchIds, links[..|links| - 1]) +
      (if l.id == "" || l.from == "" || l.to == "" then []
       else if l.from !in hostIds + switchIds || l.to !in hostIds + switchIds then []
       else [Edge(l.from, l.to, if l.from in hostIds && l.to in hostIds then Network else FabricLink)])
  }

  function FabricGraph(hostIds: set<string>, switches: seq<string>, links: seq<Link>): Graph {
    var kept := KeptSwitches(switches);
    Graph(Nodes(kept, SwitchNode), LinkEdges(hostIds, ToSet(kept), links))
  }

  // ---------------------------------------------------------------- HCCS rings

  datatype GroupKey = GroupKey(node: string, group: string)

  function KeyOf(n: Npu): GroupKey {
    GroupKey(n.nodeName, n.hccsGroup)
  }

  predicate Grouped(npuIds: set<string>, n: Option<Npu>) {
    n.Some? && n.value.hccsGroup != "" && n.value.id in npuIds
  }

  /** The members of one group, in input order. */
  function Members(npuIds: set<string>, npus: seq<Option<Npu>>, key: GroupKey): seq<Npu> {
    if npus == [] then []
    else
      var n := npus[|npus| - 1];
      Members(npuIds, npus[..|npus| - 1], key) +
      (if Grouped(npuIds, n) && KeyOf(n.value) == key then [n.value] else [])
  }

  /** The groups, in order of first appearance. */
  function GroupOrder(npuIds: set<string>, npus: seq<Option<Npu>>): seq<GroupKey> {
    if npus == [] then []
    else
      var n := npus[|npus| - 1];
      var before := GroupOrder(npuIds, npus[..|npus| - 1]);
      before + (if Grouped(npuIds, n) && KeyOf(n.value) !in before then [KeyOf(n.value)] else [])
  }

  predicate ByIndex(a: Npu, b: Npu) {
    a.index <= b.index
  }

  /** The neighbour of position `i` in a ring of `n`. */
  function Next(i: nat, n: nat): (r: nat)
    requires i < n
    ensures r == if i + 1 == n then 0 else i + 1
  {
    (i + 1) % n
  }

  /** One edge for a pair, a closed ring for three or more. */
  function Ring(members: seq<Npu>): seq<Edge> {
    var n := |members|;
    if n < 2 then []
    else if n == 2 then [Edge(members[0].id, members[1].id, Hccs)]
    else seq(n, i requires 0 <= i < n => Edge(members[i].id, members[Next(i, n)].id, Hccs))
  }

  function RingOf(npuIds: set<string>, npus: seq<Option<Npu>>): GroupKey -> seq<Edge> {
    key => Ring(StableSort(ByIndex, Members(npuIds, npus, key)))
  }

  function Rings(npuIds: set<string>, npus: seq<Option<Npu>>, keys: seq<GroupKey>): seq<Edge> {
    Gather(RingOf(npuIds, npus), keys)
  }

  function HccsEdges(npuIds: set<string>, npus: seq<Option<Npu>>): seq<Edge> {
    Rings(npuIds, npus, GroupOrder(npuIds, npus))
  }

  // ---------------------------------------------------------------- workloads

  function WorkloadId(namespace: string, name: string): string {
    "workload/" + namespace + "/" + name
  }

  function PodId(namespace: string, name: string): string {
    "pod/" + namespace + "/" + name
  }

  function BindingEdges(podId: string, sliceIds: set<string>, bindings: seq<string>): seq<Edge> {
    if bindings == [] then []
    else
      var b := bindings[|bindings| - 1];
      BindingEdges(podId, sliceIds, bindings[..|bindings| - 1]) +
      (if b == "" || b !in sliceIds then [] else [Edge(podId, b, BindsTo)])
  }

  function PodGraph(namespace: string, hostIds: set<string>, sliceIds: set<string>, pod: Pod): Graph {
    if pod.name == "" then EMPTY
    else
      var id := PodId(namespace, pod.name);
      Graph([Node(id, PodNode)],
            BindingEdges(id, sliceIds, pod.bindings) +
            (if pod.bindings == [] && pod.nodeName != "" && pod.nodeName in hostIds
             then [Edge(id, pod.nodeName, RunsOn)] else []))
  }

  function PodsGraph(namespace: string, hostIds: set<string>, sliceIds: set<string>, pods: seq<Pod>): Graph {
    if pods == [] then EMPTY
    else
      PodsGraph(namespace, hostIds, sliceIds, pods[..|pods| - 1])
        .Plus(PodGraph(namespace, hostIds, sliceIds, pods[|pods| - 1]))
  }

  function PodNames(pods: seq<Pod>): set<string> {
    set p | p in pods && p.name != "" :: p.name
  }

  function PairEdges(namespace: string, names: set<string>, relations: seq<Relation>): seq<Edge> {
    if relations == [] then []
    else
      var r := relations[|relations| - 1];
      PairEdges(namespace, names, relations[..|relations| - 1]) +
      (if r.kind == "pd-pair" && r.from in names && r.to in names
       then [Edge(PodId(namespace, r.from), PodId(namespace, r.to), PdPair)] else [])
  }

  function WorkloadGraph(hostIds: set<string>, sliceIds: set<string>, w: Workload): Graph {
    if w.name == "" || w.namespace == "" then EMPTY
    else
      Graph([Node(WorkloadId(w.namespace, w.name), WorkloadNode)], [])
        .Plus(PodsGraph(w.namespace, hostIds, sliceIds, w.pods))
        .Plus(Graph([], PairEdges(w.namespace, PodNames(w.pods), w.relations)))
  }

  function WorkloadsGraph(hostIds: set<string>, sliceIds: set<string>, workloads: seq<Workload>): Graph {
    if workloads == [] then EMPTY
    else
      WorkloadsGraph(hostIds, sliceIds, workloads[..|workloads| - 1])
        .Plus(WorkloadGraph(hostIds, sliceIds, workloads[|workloads| - 1]))
  }

  // ---------------------------------------------------------------- the whole graph

  function FabricPart(x: Inputs): Graph
    requires x.cluster.Some?
  {
    if !x.includeFabric then EMPTY
    else
      FabricGraph(ToSet(HostsOf(x)), x.switches, x.links)
        .Plus(Graph([], HccsEdges(ToSet(NpuIds(NpusOf(x))), x.npus)))
  }

  function WorkloadPart(x: Inputs): Graph
    requires x.cluster.Some?
  {
    if !x.includeWorkloads then EMPTY
    else WorkloadsGraph(ToSet(HostsOf(x)), ToSet(SliceIds(SlicesOf(x))), x.workloads)
  }

  function Build(x: Inputs): Graph {
    if x.cluster.None? then EMPTY else Tree(x).Plus(FabricPart(x)).Plus(WorkloadPart(x))
  }
}
