/** The two pure graph filters of the topology view
    (frontend/src/components/TopologyGraph/TopologyGraph.tsx). */
module FocusFilter {
  import opened Wrappers

  datatype Node = Node(id: string, kind: string)

  datatype Edge = Edge(source: string, target: string, kind: string)

  datatype Graph = Graph(nodes: seq<Node>, edges: seq<Edge>)

  predicate IsContains(e: Edge) {
    e.kind == "contains"
  }

  predicate IsPlacement(e: Edge) {
    e.kind == "binds-to" || e.kind == "runs-on" || e.kind == "allocated"
  }

  predicate IsPair(e: Edge) {
    e.kind == "pd-pair"
  }

  predicate HasNode(nodes: seq<Node>, id: string) {
    exists n :: n in nodes && n.id == id
  }

  /** Every edge runs between nodes of the graph. */
  predicate Closed(g: Graph) {
    forall e :: e in g.edges ==> HasNode(g.nodes, e.source) && HasNode(g.nodes, e.target)
  }

  // ---------------------------------------------------------------- containment

  /** A walk along `contains` edges. */
  ghost predicate Walk(edges: seq<Edge>, path: seq<string>) {
    && path != []
    && forall i :: 0 < i < |path| ==> Edge(path[i - 1], path[i], "contains") in edges
  }

  ghost predicate Reaches(edges: seq<Edge>, from: string, to: string) {
    exists path :: Walk(edges, path) && path[0] == from && path[|path| - 1] == to
  }

  lemma ReachesSelf(edges: seq<Edge>, id: string)
    ensures Reaches(edges, id, id)
  {
    assert Walk(edges, [id]);
  }

  lemma ReachesStep(edges: seq<Edge>, from: string, via: string, to: string)
    requires Reaches(edges, from, via) && Edge(via, to, "contains") in edges
    ensures Reaches(edges, from, to)
  {
    var path :| Walk(edges, path) && path[0] == from && path[|path| - 1] == via;
    assert Walk(edges, path + [to]);
    assert (path + [to])[0] == from && (path + [to])[|path + [to]| - 1] == to;
  }

  /** A set with the anchor that no `contains` edge leaves holds all that is reached. */
  lemma {:induction false} ClosedSetHoldsWalk(edges: seq<Edge>, held: set<string>, path: seq<string>)
    requires Walk(edges, path) && path[0] in held
    requires forall e :: e in edges && IsContains(e) && e.source in held ==> e.target in held
    ensures path[|path| - 1] in held
  {
    if |path| > 1 {
      var front := path[..|path| - 1];
      assert Walk(edges, front);
      ClosedSetHoldsWalk(edges, held, front);
      assert Edge(path[|path| - 2], path[|path| - 1], "contains") in edges;
    }
  }

  /** Children by parent, in edge order. */
  method IndexChildren(edges: seq<Edge>) returns (childrenOf: map<string, seq<string>>)
    ensures forall id, c :: id in childrenOf && c in childrenOf[id] ==> Edge(id, c, "contains") in edges
    ensures forall e :: e in edges && IsContains(e) ==> e.source in childrenOf && e.target in childrenOf[e.source]
  {
    childrenOf := map[];
    for k := 0 to |edges|
      invariant forall id, c :: id in childrenOf && c in childrenOf[id] ==> Edge(id, c, "contains") in edges
      invariant forall i :: 0 <= i < k && IsContains(edges[i]) ==>
        edges[i].source in childrenOf && edges[i].target in childrenOf[edges[i].source]
    {
      var e := edges[k];
      if e.kind != "contains" {
        continue;
      }
      assert e in edges && e == Edge(e.source, e.target, "contains");
      if e.source in childrenOf {
        childrenOf := childrenOf[e.source := childrenOf[e.source] + [e.target]];
      } else {
        childrenOf := childrenOf[e.source := [e.target]];
      }
    }
  }

  function AllTargets(edges: seq<Edge>): set<string> {
    set e | e in edges :: e.target
  }

  ghost predicate AllReached(edges: seq<Edge>, anchor: string, ids: set<string>) {
    forall id :: id in ids ==> Reaches(edges, anchor, id)
  }

  /** Of the visible ids only those in the queue, and `cur`, may still have hidden children. */
  ghost predicate Settled(childrenOf: map<string, seq<string>>, visible: set<string>, queue: seq<string>,
                          cur: set<string>) {
    && (forall id :: id in queue ==> id in visible)
    && (forall id, c :: id in visible && id !in queue && id !in cur && id in childrenOf && c in childrenOf[id] ==>
        c in visible)
  }

  /** The worklist search: it ends whatever cycles the edges form, with exactly the ids
      reached from the anchor. */
  method Descendants(edges: seq<Edge>, anchor: string) returns (visible: set<string>)
    ensures forall id :: id in visible <==> Reaches(edges, anchor, id)
  {
    var childrenOf := IndexChildren(edges);
    ghost var all := AllTargets(edges) + {anchor};
    ReachesSelf(edges, anchor);
    visible := {anchor};
    var queue := [anchor];
    while |queue| > 0
      invariant anchor in visible && visible <= all
      invariant AllReached(edges, anchor, visible)
      invariant Settled(childrenOf, visible, queue, {})
      decreases |all - visible|, |queue|
    {
      var cur := queue[0];
      ghost var seen := visible;
      queue := queue[1..];
      var children := if cur in childrenOf then childrenOf[cur] else [];
      ghost var rest := queue;
      ghost var added: seq<string>;
      visible, queue, added := VisitChildren(edges, anchor, cur, children, visible, queue, all);
      VisitSettles(childrenOf, seen, rest, cur, added);
      HiddenShrink(all, seen, added);
    }
    SettledIsComplete(edges, childrenOf, anchor, visible);
  }

  lemma HiddenShrink(all: set<string>, seen: set<string>, added: seq<string>)
    requires seen + ToSet(added) <= all && (added != [] ==> added[0] !in seen)
    ensures added == [] ==> seen + ToSet(added) == seen
    ensures added != [] ==> |all - (seen + ToSet(added))| < |all - seen|
  {
    if added != [] {
      assert added[0] in ToSet(added);
      CardinalityDrops(all - (seen + ToSet(added)), all - seen);
    }
  }

  lemma SettledIsComplete(edges: seq<Edge>, childrenOf: map<string, seq<string>>, anchor: string, visible: set<string>)
    requires anchor in visible && Settled(childrenOf, visible, [], {})
    requires forall e :: e in edges && IsContains(e) ==> e.source in childrenOf && e.target in childrenOf[e.source]
    ensures forall id :: Reaches(edges, anchor, id) ==> id in visible
  {
    forall id | Reaches(edges, anchor, id) ensures id in visible {
      var path :| Walk(edges, path) && path[0] == anchor && path[|path| - 1] == id;
      ClosedSetHoldsWalk(edges, visible, path);
    }
  }

  lemma CardinalityDrops(a: set<string>, b: set<string>)
    requires a < b
    ensures |a| < |b|
  {
    assert b == a + (b - a);
  }

  /** One round: the children of `cur` that were not yet visible join the queue. */
  method VisitChildren(edges: seq<Edge>, anchor: string, cur: string, children: seq<string>,
                       visible: set<string>, queue: seq<string>, ghost all: set<string>)
    returns (visible': set<string>, queue': seq<string>, ghost added: seq<string>)
    requires all == AllTargets(edges) + {anchor} && visible <= all && cur in visible
    requires forall i :: 0 <= i < |children| ==> Edge(cur, children[i], "contains") in edges
    requires AllReached(edges, anchor, visible)
    ensures visible' == visible + ToSet(added) && visible' <= all && queue' == queue + added
    ensures added != [] ==> added[0] !in visible
    ensures AllReached(edges, anchor, visible')
    ensures forall i :: 0 <= i < |children| ==> children[i] in visible'
  {
    visible', queue', added := visible, queue, [];
    for k := 0 to |children|
      invariant visible' == visible + ToSet(added) && visible' <= all && queue' == queue + added
      invariant added != [] ==> added[0] !in visible
      invariant AllReached(edges, anchor, visible')
      invariant forall i :: 0 <= i < k ==> children[i] in visible'
    {
      var child := children[k];
      if child !in visible' {
        ReachesStep(edges, anchor, cur, child);
        visible' := visible' + {child};
        queue' := queue' + [child];
        added := added + [child];
      }
    }
  }

  lemma VisitSettles(childrenOf: map<string, seq<string>>, visible: set<string>, queue: seq<string>, cur: string,
                     added: seq<string>)
    requires Settled(childrenOf, visible, queue, {cur})
    requires cur in childrenOf ==> forall i :: 0 <= i < |childrenOf[cur]| ==>
        childrenOf[cur][i] in visible + ToSet(added)
    ensures Settled(childrenOf, visible + ToSet(added), queue + added, {})
  {
    var visible', queue' := visible + ToSet(added), queue + added;
    forall id | id in queue' ensures id in visible' {
    }
    forall id, c | id in visible' && id !in queue' && id in childrenOf && c in childrenOf[id] ensures c in visible' {
      assert id !in added && id in visible && id !in queue;
      if id == cur {
        var i :| 0 <= i < |childrenOf[cur]| && childrenOf[cur][i] == c;
      }
    }
  }

  // ---------------------------------------------------------------- one sweep over the edges

  /** Both ends become visible once either is; the second test sees the first addition. */
  function Join(visible: set<string>, e: Edge): set<string> {
    var v := if e.source in visible then visible + {e.target} else visible;
    if e.target in v then v + {e.source} else v
  }

  function Sweep(edges: seq<Edge>, wanted: Edge -> bool, visible: set<string>): set<string> {
    if edges == [] then visible
    else
      var v := Sweep(edges[..|edges| - 1], wanted, visible);
      if wanted(edges[|edges| - 1]) then Join(v, edges[|edges| - 1]) else v
  }

  predicate Joins(e: Edge, a: string, b: string) {
    (e.source == a && e.target == b) || (e.source == b && e.target == a)
  }

  /** `chain` lists edges in ascending position, all wanted, that lead from `start` to `id`. */
  ghost predicate Chain(edges: seq<Edge>, wanted: Edge -> bool, start: set<string>, id: string, chain: seq<nat>)
    decreases |chain|
  {
    if chain == [] then id in start
    else
      var i := chain[|chain| - 1];
      && i < |edges| && wanted(edges[i])
      && exists via :: Joins(edges[i], via, id) && Chain(edges[..i], wanted, start, via, chain[..|chain| - 1])
  }

  ghost predicate Linked(edges: seq<Edge>, wanted: Edge -> bool, start: set<string>, id: string) {
    exists chain :: Chain(edges, wanted, start, id, chain)
  }

  lemma ChainExtends(edges: seq<Edge>, e: Edge, wanted: Edge -> bool, start: set<string>, id: string, chain: seq<nat>)
    requires Chain(edges, wanted, start, id, chain)
    ensures Chain(edges + [e], wanted, start, id, chain)
  {
    if chain != [] {
      var i := chain[|chain| - 1];
      assert (edges + [e])[..i] == edges[..i];
    }
  }

  lemma ChainGrows(edges: seq<Edge>, e: Edge, wanted: Edge -> bool, start: set<string>, via: string, id: string)
    requires Linked(edges, wanted, start, via) && wanted(e) && Joins(e, via, id)
    ensures Linked(edges + [e], wanted, start, id)
  {
    var chain: seq<nat> :| Chain(edges, wanted, start, via, chain);
    assert (edges + [e])[..|edges|] == edges;
    assert (chain + [|edges|])[..|chain|] == chain;
    assert Chain(edges + [e], wanted, start, id, chain + [|edges|]);
  }

  lemma ChainSplits(edges: seq<Edge>, e: Edge, wanted: Edge -> bool, start: set<string>, id: string)
    requires Linked(edges + [e], wanted, start, id)
    ensures Linked(edges, wanted, start, id) ||
            (wanted(e) && exists via :: Joins(e, via, id) && Linked(edges, wanted, start, via))
  {
    var chain: seq<nat> :| Chain(edges + [e], wanted, start, id, chain);
    if chain == [] {
      assert Chain(edges, wanted, start, id, []);
    } else {
      var i := chain[|chain| - 1];
      if i < |edges| {
        assert (edges + [e])[..i] == edges[..i];
        assert Chain(edges, wanted, start, id, chain);
      } else {
        assert (edges + [e])[..i] == edges;
        var via :| Joins(e, via, id) && Chain(edges, wanted, start, via, chain[..|chain| - 1]);
      }
    }
  }

  /** One sweep adds exactly the ids that a chain of wanted edges, in the order of the edge
      list, links to what was visible. */
  lemma {:induction false} SweepExact(edges: seq<Edge>, wanted: Edge -> bool, visible: set<string>, id: string)
    ensures id in Sweep(edges, wanted, visible) <==> Linked(edges, wanted, visible, id)
  {
    if edges == [] {
      assert id in visible ==> Chain(edges, wanted, visible, id, []);
    } else {
      var u, e := edges[..|edges| - 1], edges[|edges| - 1];
      assert edges == u + [e];
      SweepExact(u, wanted, visible, id);
      SweepExact(u, wanted, visible, e.source);
      SweepExact(u, wanted, visible, e.target);
      if Linked(u, wanted, visible, id) {
        var chain: seq<nat> :| Chain(u, wanted, visible, id, chain);
        ChainExtends(u, e, wanted, visible, id, chain);
      }
      if wanted(e) && Linked(u, wanted, visible, e.source) { ChainGrows(u, e, wanted, visible, e.source, e.target); }
      if wanted(e) && Linked(u, wanted, visible, e.target) { ChainGrows(u, e, wanted, visible, e.target, e.source); }
      if Linked(edges, wanted, visible, id) { ChainSplits(u, e, wanted, visible, id); }
    }
  }

  /** Nothing gets hidden, and the far end of every wanted edge at a visible id is added. */
  lemma {:induction false} SweepCovers(edges: seq<Edge>, wanted: Edge -> bool, visible: set<string>)
    ensures visible <= Sweep(edges, wanted, visible)
    ensures forall e, a, b :: e in edges && wanted(e) && Joins(e, a, b) && a in visible ==>
        b in Sweep(edges, wanted, visible)
  {
    if edges != [] {
      SweepCovers(edges[..|edges| - 1], wanted, visible);
      assert edges == edges[..|edges| - 1] + [edges[|edges| - 1]];
    }
  }

  method SweepEdges(edges: seq<Edge>, wanted: Edge -> bool, start: set<string>) returns (visible: set<string>)
    ensures visible == Sweep(edges, wanted, start)
  {
    visible := start;
    for k := 0 to |edges|
      invariant visible == Sweep(edges[..k], wanted, start)
    {
      assert edges[..k + 1][..k] == edges[..k];
      var e := edges[k];
      if wanted(e) {
        if e.source in visible {
          visible := visible + {e.target};
        }
        if e.target in visible {
          visible := visible + {e.source};
        }
      }
    }
    assert edges[..|edges|] == edges;
  }

  // ---------------------------------------------------------------- the focus filter

  function KeepNodes(nodes: seq<Node>, visible: set<string>): seq<Node> {
    if nodes == [] then []
    else KeepNodes(nodes[..|nodes| - 1], visible) +
         (if nodes[|nodes| - 1].id in visible then [nodes[|nodes| - 1]] else [])
  }

  function KeepEdges(edges: seq<Edge>, visible: set<string>): seq<Edge> {
    if edges == [] then []
    else
      var e := edges[|edges| - 1];
      KeepEdges(edges[..|edges| - 1], visible) + (if e.source in visible && e.target in visible then [e] else [])
  }

  function Keep(g: Graph, visible: set<string>): Graph {
    Graph(KeepNodes(g.nodes, visible), KeepEdges(g.edges, visible))
  }

  lemma {:induction false} KeepExact(nodes: seq<Node>, edges: seq<Edge>, visible: set<string>)
    ensures forall n :: n in KeepNodes(nodes, visible) <==> n in nodes && n.id in visible
    ensures forall e :: e in KeepEdges(edges, visible) <==> e in edges && e.source in visible && e.target in visible
    decreases |nodes| + |edges|
  {
    if nodes != [] {
      KeepExact(nodes[..|nodes| - 1], edges, visible);
      assert nodes == nodes[..|nodes| - 1] + [nodes[|nodes| - 1]];
    } else if edges != [] {
      KeepExact(nodes, edges[..|edges| - 1], visible);
      assert edges == edges[..|edges| - 1] + [edges[|edges| - 1]];
    }
  }

  /** Restricting a closed graph to any set of ids leaves no dangling edge. */
  lemma KeepIsClosed(g: Graph, visible: set<string>)
    requires Closed(g)
    ensures Closed(Keep(g, visible))
  {
    KeepExact(g.nodes, g.edges, visible);
    forall e | e in Keep(g, visible).edges
      ensures HasNode(Keep(g, visible).nodes, e.source) && HasNode(Keep(g, visible).nodes, e.target) {
      var s :| s in g.nodes && s.id == e.source;
      var t :| t in g.nodes && t.id == e.target;
      assert s in Keep(g, visible).nodes && t in Keep(g, visible).nodes;
    }
  }

  /** What the filter keeps around an anchor, given the ids contained in it. */
  function Visible(edges: seq<Edge>, contained: set<string>): set<string> {
    Sweep(edges, IsPair, Sweep(edges, IsPlacement, contained))
  }

  ghost predicate IsClosure(edges: seq<Edge>, anchor: string, contained: set<string>) {
    forall id :: id in contained <==> Reaches(edges, anchor, id)
  }

  method FilterForFocus(g: Graph, focused: Option<string>) returns (r: Graph, ghost contained: set<string>)
    ensures focused.None? || focused.value == "" || !HasNode(g.nodes, focused.value) ==> r == g
    ensures focused.Some? && focused.value != "" && HasNode(g.nodes, focused.value) ==>
      IsClosure(g.edges, focused.value, contained) && r == Keep(g, Visible(g.edges, contained))
  {
    contained := {};
    if focused.None? || focused.value == "" {
      return g, {};
    }
    var found := FindNode(g.nodes, focused.value);
    if found.None? {
      return g, {};
    }
    var visible := Descendants(g.edges, focused.value);
    contained := visible;
    visible := SweepEdges(g.edges, IsPlacement, visible);
    visible := SweepEdges(g.edges, IsPair, visible);
    var nodes := SelectNodes(g.nodes, visible);
    var edges := SelectEdges(g.edges, visible);
    r := Graph(nodes, edges);
  }

  method SelectNodes(nodes: seq<Node>, visible: set<string>) returns (r: seq<Node>)
    ensures r == KeepNodes(nodes, visible)
  {
    r := [];
    for k := 0 to |nodes|
      invariant r == KeepNodes(nodes[..k], visible)
    {
      assert nodes[..k + 1][..k] == nodes[..k];
      if nodes[k].id in visible {
        r := r + [nodes[k]];
      }
    }
    assert nodes[..|nodes|] == nodes;
  }

  method SelectEdges(edges: seq<Edge>, visible: set<string>) returns (r: seq<Edge>)
    ensures r == KeepEdges(edges, visible)
  {
    r := [];
    for k := 0 to |edges|
      invariant r == KeepEdges(edges[..k], visible)
    {
      assert edges[..k + 1][..k] == edges[..k];
      if edges[k].source in visible && edges[k].target in visible {
        r := r + [edges[k]];
      }
    }
    assert edges[..|edges|] == edges;
  }

  /** The first node with that id. */
  method FindNode(nodes: seq<Node>, id: string) returns (n: Option<Node>)
    ensures n == FirstNode(nodes, id)
    ensures n.Some? <==> HasNode(nodes, id)
  {
    FirstNodeExact(nodes, id);
    n := None;
    for k := 0 to |nodes|
      invariant FirstNode(nodes, id) == FirstNode(nodes[k..], id)
    {
      if nodes[k].id == id {
        return Some(nodes[k]);
      }
      assert nodes[k..][1..] == nodes[k + 1..];
    }
  }

  function FirstNode(nodes: seq<Node>, id: string): Option<Node> {
    if nodes == [] then None
    else if nodes[0].id == id then Some(nodes[0])
    else FirstNode(nodes[1..], id)
  }

  lemma {:induction false} FirstNodeExact(nodes: seq<Node>, id: string)
    ensures FirstNode(nodes, id).Some? <==> HasNode(nodes, id)
    ensures FirstNode(nodes, id).Some? ==> FirstNode(nodes, id).value in nodes && FirstNode(nodes, id).value.id == id
  {
    if nodes != [] {
      assert nodes == [nodes[0]] + nodes[1..];
      FirstNodeExact(nodes[1..], id);
    }
  }

  // ---------------------------------------------------------------- is it one hop?

  /** What the comment on the filter promises: one hop along a wanted edge. */
  ghost predicate InOneHop(edges: seq<Edge>, wanted: Edge -> bool, visible: set<string>, id: string) {
    id in visible || exists e, a :: e in edges && wanted(e) && Joins(e, a, id) && a in visible
  }

  ghost predicate SweepIsOneHop(edges: seq<Edge>, wanted: Edge -> bool, visible: set<string>) {
    forall id :: id in Sweep(edges, wanted, visible) ==> InOneHop(edges, wanted, visible, id)
  }

  /** It is not always one hop, and the order of the edges decides: a pod bound to two slices
      drags in the second when the edge to the focused one comes first. */
  lemma OneHopDependsOnOrder()
    ensures var a, b := Edge("pod/a/p", "s1", "binds-to"), Edge("pod/a/p", "s2", "binds-to");
      && "s2" in Sweep([a, b], IsPlacement, {"s1"})
      && !SweepIsOneHop([a, b], IsPlacement, {"s1"})
      && "s2" !in Sweep([b, a], IsPlacement, {"s1"})
      && SweepIsOneHop([b, a], IsPlacement, {"s1"})
  {
    var a, b := Edge("pod/a/p", "s1", "binds-to"), Edge("pod/a/p", "s2", "binds-to");
    SweepTwo(a, b, {"s1"});
    SweepTwo(b, a, {"s1"});
    assert !InOneHop([a, b], IsPlacement, {"s1"}, "s2");
    SweepCovers([b, a], IsPlacement, {"s1"});
    assert InOneHop([b, a], IsPlacement, {"s1"}, "pod/a/p") by {
      assert a in [b, a] && Joins(a, "s1", "pod/a/p");
    }
  }

  lemma SweepTwo(a: Edge, b: Edge, visible: set<string>)
    requires IsPlacement(a) && IsPlacement(b)
    ensures Sweep([a, b], IsPlacement, visible) == Join(Join(visible, a), b)
  {
    assert [a, b][..1] == [a] && [a][..0] == [];
    assert Sweep([], IsPlacement, visible) == visible;
    assert Sweep([a], IsPlacement, visible) == Join(visible, a);
  }

  /** Wanted edges go from one kind of id to another, and only the second kind is visible. */
  ghost predicate TwoSided(edges: seq<Edge>, wanted: Edge -> bool, visible: set<string>) {
    && (forall e, f :: e in edges && f in edges && wanted(e) && wanted(f) ==> e.source != f.target)
    && (forall e :: e in edges && wanted(e) ==> e.source !in visible)
  }

  /** After an edge to a visible id, its source has no later edge to a hidden one. */
  ghost predicate NoLaterStray(edges: seq<Edge>, wanted: Edge -> bool, visible: set<string>) {
    forall i, j :: 0 <= i < j < |edges| && SamePod(edges[i], edges[j], wanted) && edges[i].target in visible ==>
      edges[j].target in visible
  }

  predicate SamePod(e: Edge, f: Edge, wanted: Edge -> bool) {
    wanted(e) && wanted(f) && e.source == f.source
  }

  lemma StrayIsSwept(edges: seq<Edge>, wanted: Edge -> bool, visible: set<string>, i: nat, j: nat)
    requires i < j < |edges| && SamePod(edges[i], edges[j], wanted)
    requires edges[i].target in visible
    ensures edges[j].target in Sweep(edges, wanted, visible)
  {
    var pod, out := edges[i].source, edges[j].target;
    assert Chain(edges[..i], wanted, visible, edges[i].target, []);
    assert [i][..0] == [] && edges[..j][..i] == edges[..i];
    assert Joins(edges[..j][i], edges[i].target, pod);
    assert Chain(edges[..j], wanted, visible, pod, [i]);
    assert [i, j][..1] == [i];
    assert Joins(edges[j], pod, out);
    assert Chain(edges, wanted, visible, out, [i, j]);
    SweepExact(edges, wanted, visible, out);
  }

  /** Under the condition, targets stay visible ones and sources are one hop away. */
  lemma {:induction false} SweepStaysNear(edges: seq<Edge>, wanted: Edge -> bool, visible: set<string>, n: nat)
    requires n <= |edges| && TwoSided(edges, wanted, visible) && NoLaterStray(edges, wanted, visible)
    ensures forall id :: id in Sweep(edges[..n], wanted, visible) ==>
              id in visible || exists i ::
                  0 <= i < n && wanted(edges[i]) && edges[i].source == id && edges[i].target in visible
  {
    if n > 0 {
      SweepStaysNear(edges, wanted, visible, n - 1);
      assert edges[..n][..n - 1] == edges[..n - 1];
      var e, v := edges[n - 1], Sweep(edges[..n - 1], wanted, visible);
      assert e in edges;
      if wanted(e) {
        if e.source in v {
          var i :| 0 <= i < n - 1 && wanted(edges[i]) && edges[i].source == e.source && edges[i].target in visible;
          assert SamePod(edges[i], e, wanted);
        }
        forall i | 0 <= i < n && wanted(edges[i]) ensures edges[i].source != e.target {
          assert edges[i] in edges;
        }
        assert e.target in v ==> e.target in visible;
      }
    }
  }

  /** For placement edges from pods to resources, with a resource in focus, the sweep is one
      hop exactly when no pod has a stray edge after an edge into the focus. */
  lemma OneHopExactly(edges: seq<Edge>, wanted: Edge -> bool, visible: set<string>)
    requires TwoSided(edges, wanted, visible)
    ensures SweepIsOneHop(edges, wanted, visible) <==> NoLaterStray(edges, wanted, visible)
  {
    if NoLaterStray(edges, wanted, visible) {
      SweepStaysNear(edges, wanted, visible, |edges|);
      assert edges[..|edges|] == edges;
      forall id | id in Sweep(edges, wanted, visible) ensures InOneHop(edges, wanted, visible, id) {
        if id !in visible {
          var i :| 0 <= i < |edges| && wanted(edges[i]) && edges[i].source == id && edges[i].target in visible;
          assert edges[i] in edges && Joins(edges[i], edges[i].target, id);
        }
      }
    }
    if SweepIsOneHop(edges, wanted, visible) {
      forall i, j | 0 <= i < j < |edges| && SamePod(edges[i], edges[j], wanted) && edges[i].target in visible
        ensures edges[j].target in visible {
        StrayIsSwept(edges, wanted, visible, i, j);
        HopIntoTarget(edges, wanted, visible, j);
      }
    }
  }

  lemma HopIntoTarget(edges: seq<Edge>, wanted: Edge -> bool, visible: set<string>, j: nat)
    requires TwoSided(edges, wanted, visible) && j < |edges| && wanted(edges[j])
    requires InOneHop(edges, wanted, visible, edges[j].target)
    ensures edges[j].target in visible
  {
    assert edges[j] in edges;
  }

  // ---------------------------------------------------------------- a pod in focus

  function Flip(e: Edge): Edge {
    Edge(e.target, e.source, e.kind)
  }

  function FlipAll(edges: seq<Edge>): seq<Edge> {
    seq(|edges|, i requires 0 <= i < |edges| => Flip(edges[i]))
  }

  function Flipped(wanted: Edge -> bool): Edge -> bool {
    e => wanted(Flip(e))
  }

  /** A sweep does not look at the direction of edges. */
  lemma {:induction false} SweepFlips(edges: seq<Edge>, wanted: Edge -> bool, visible: set<string>)
    ensures Sweep(FlipAll(edges), Flipped(wanted), visible) == Sweep(edges, wanted, visible)
  {
    if edges != [] {
      var u := edges[..|edges| - 1];
      SweepFlips(u, wanted, visible);
      assert FlipAll(edges)[..|edges| - 1] == FlipAll(u);
      assert Flip(Flip(edges[|edges| - 1])) == edges[|edges| - 1];
    }
  }

  lemma HopFlips(edges: seq<Edge>, wanted: Edge -> bool, visible: set<string>, id: string)
    ensures InOneHop(FlipAll(edges), Flipped(wanted), visible, id) <==> InOneHop(edges, wanted, visible, id)
  {
    if e, a :| e in edges && wanted(e) && Joins(e, a, id) && a in visible {
      var i :| 0 <= i < |edges| && edges[i] == e;
      assert FlipAll(edges)[i] == Flip(e) && Flip(Flip(e)) == e && Joins(Flip(e), a, id);
    }
    if e, a :| e in FlipAll(edges) && Flipped(wanted)(e) && Joins(e, a, id) && a in visible {
      var i :| 0 <= i < |edges| && FlipAll(edges)[i] == e;
      assert edges[i] in edges && Flip(e) == edges[i] && Joins(edges[i], a, id);
    }
  }

  /** Wanted edges go from one kind of id to another, and only the first kind is visible. */
  ghost predicate FromVisible(edges: seq<Edge>, wanted: Edge -> bool, visible: set<string>) {
    && (forall e, f :: e in edges && f in edges && wanted(e) && wanted(f) ==> e.source != f.target)
    && (forall e :: e in edges && wanted(e) ==> e.target !in visible)
  }

  /** After an edge from a visible id, its target has no later edge from a hidden one. */
  ghost predicate NoLaterSharer(edges: seq<Edge>, wanted: Edge -> bool, visible: set<string>) {
    forall i, j :: 0 <= i < j < |edges| && SameResource(edges[i], edges[j], wanted) && edges[i].source in visible ==>
      edges[j].source in visible
  }

  predicate SameResource(e: Edge, f: Edge, wanted: Edge -> bool) {
    wanted(e) && wanted(f) && e.target == f.target
  }

  /** With a pod in focus the sweep is one hop exactly when no resource of the pod has an edge
      from another pod after the one from it. */
  lemma OneHopFromPod(edges: seq<Edge>, wanted: Edge -> bool, visible: set<string>)
    requires FromVisible(edges, wanted, visible)
    ensures SweepIsOneHop(edges, wanted, visible) <==> NoLaterSharer(edges, wanted, visible)
  {
    var flipped, want := FlipAll(edges), Flipped(wanted);
    SidesFlip(edges, wanted, visible);
    OneHopExactly(flipped, want, visible);
    SweepFlips(edges, wanted, visible);
    forall id { HopFlips(edges, wanted, visible, id); }
    StraysFlip(edges, wanted, visible);
  }

  lemma SidesFlip(edges: seq<Edge>, wanted: Edge -> bool, visible: set<string>)
    requires FromVisible(edges, wanted, visible)
    ensures TwoSided(FlipAll(edges), Flipped(wanted), visible)
  {
    forall e | e in FlipAll(edges) ensures Flip(e) in edges {
      var i :| 0 <= i < |edges| && FlipAll(edges)[i] == e;
      assert edges[i] == Flip(e);
    }
    forall e, f | e in FlipAll(edges) && f in FlipAll(edges) && Flipped(wanted)(e) && Flipped(wanted)(f)
      ensures e.source != f.target {
      assert Flip(f).source != Flip(e).target;
    }
  }

  lemma StraysFlip(edges: seq<Edge>, wanted: Edge -> bool, visible: set<string>)
    ensures NoLaterStray(FlipAll(edges), Flipped(wanted), visible) <==> NoLaterSharer(edges, wanted, visible)
  {
    var flipped, want := FlipAll(edges), Flipped(wanted);
    forall i, j | 0 <= i < |edges| && 0 <= j < |edges|
      ensures SamePod(flipped[i], flipped[j], want) <==> SameResource(edges[i], edges[j], wanted) {
      assert Flip(flipped[i]) == edges[i] && Flip(flipped[j]) == edges[j];
    }
    if NoLaterStray(flipped, want, visible) {
      forall i, j | 0 <= i < j < |edges| && SameResource(edges[i], edges[j], wanted) && edges[i].source in visible
        ensures edges[j].source in visible {
        assert SamePod(flipped[i], flipped[j], want);
      }
    }
    if NoLaterSharer(edges, wanted, visible) {
      forall i, j | 0 <= i < j < |flipped| && SamePod(flipped[i], flipped[j], want) && flipped[i].target in visible
        ensures flipped[j].target in visible {
        assert SameResource(edges[i], edges[j], wanted);
      }
    }
  }

  /** A pod in focus drags in another pod on the same slice, in one order of the edges. */
  lemma OneHopFromPodDependsOnOrder()
    ensures var a, b := Edge("pod/a/p", "s1", "binds-to"), Edge("pod/a/q", "s1", "binds-to");
      && "pod/a/q" in Sweep([a, b], IsPlacement, {"pod/a/p"})
      && !SweepIsOneHop([a, b], IsPlacement, {"pod/a/p"})
      && "pod/a/q" !in Sweep([b, a], IsPlacement, {"pod/a/p"})
      && SweepIsOneHop([b, a], IsPlacement, {"pod/a/p"})
  {
    var a, b := Edge("pod/a/p", "s1", "binds-to"), Edge("pod/a/q", "s1", "binds-to");
    SweepTwo(a, b, {"pod/a/p"});
    SweepTwo(b, a, {"pod/a/p"});
    assert !InOneHop([a, b], IsPlacement, {"pod/a/p"}, "pod/a/q");
    assert InOneHop([b, a], IsPlacement, {"pod/a/p"}, "s1") by {
      assert a in [b, a] && Joins(a, "pod/a/p", "s1");
    }
  }

  // ---------------------------------------------------------------- any focus

  /** Placement edges lead from pods to resources, and containment does not touch pods. */
  ghost predicate PodsOutsideTree(edges: seq<Edge>) {
    forall e, f :: e in edges && f in edges && IsPlacement(e) ==>
      && (IsPlacement(f) ==> e.source != f.target)
      && (IsContains(f) ==> e.source != f.source && e.source != f.target)
  }

  /** A focus then holds resources only, or one pod only. */
  lemma FocusIsOneSided(edges: seq<Edge>, anchor: string, contained: set<string>)
    requires PodsOutsideTree(edges) && IsClosure(edges, anchor, contained)
    ensures TwoSided(edges, IsPlacement, contained) || FromVisible(edges, IsPlacement, contained)
  {
    if e :| e in edges && IsPlacement(e) && e.source == anchor {
      forall id | id in contained ensures id == anchor {
        if id != anchor {
          FirstStep(edges, anchor, id);
        }
      }
    } else {
      forall e | e in edges && IsPlacement(e) ensures e.source !in contained {
        if e.source in contained {
          LastStep(edges, anchor, e.source);
        }
      }
    }
  }

  lemma FirstStep(edges: seq<Edge>, anchor: string, id: string)
    requires Reaches(edges, anchor, id) && id != anchor
    ensures exists e :: e in edges && IsContains(e) && e.source == anchor
  {
    var path :| Walk(edges, path) && path[0] == anchor && path[|path| - 1] == id;
    assert Edge(path[0], path[1], "contains") in edges;
  }

  lemma LastStep(edges: seq<Edge>, anchor: string, id: string)
    requires Reaches(edges, anchor, id) && id != anchor
    ensures exists e :: e in edges && IsContains(e) && e.target == id
  {
    var path :| Walk(edges, path) && path[0] == anchor && path[|path| - 1] == id;
    assert Edge(path[|path| - 2], path[|path| - 1], "contains") in edges;
  }

  /** So for every focus: the placement sweep is one hop exactly when, later in the list, no pod
      with an edge into the focus has one out of it, and no resource of a pod in focus has an
      edge from another pod. */
  lemma OneHopForFocus(edges: seq<Edge>, anchor: string, contained: set<string>)
    requires PodsOutsideTree(edges) && IsClosure(edges, anchor, contained)
    ensures SweepIsOneHop(edges, IsPlacement, contained) <==>
      NoLaterStray(edges, IsPlacement, contained) && NoLaterSharer(edges, IsPlacement, contained)
  {
    FocusIsOneSided(edges, anchor, contained);
    if TwoSided(edges, IsPlacement, contained) {
      OneHopExactly(edges, IsPlacement, contained);
      assert forall i :: 0 <= i < |edges| && IsPlacement(edges[i]) ==>
          edges[i] in edges && edges[i].source !in contained;
    } else {
      OneHopFromPod(edges, IsPlacement, contained);
      assert forall i :: 0 <= i < |edges| && IsPlacement(edges[i]) ==>
          edges[i] in edges && edges[i].target !in contained;
    }
  }

  // ---------------------------------------------------------------- the slice filter

  /** The source of the last `contains` edge into the id, if its node is a slice. */
  function ParentOf(nodes: seq<Node>, edges: seq<Edge>, id: string): Option<string> {
    if edges == [] then None
    else
      var e := edges[|edges| - 1];
      if IsContains(e) && e.target == id && FirstNode(nodes, id).Some? && FirstNode(nodes, id).value.kind == "slice"
      then Some(e.source)
      else ParentOf(nodes, edges[..|edges| - 1], id)
  }

  predicate ShowsNode(g: Graph, expanded: set<string>, n: Node) {
    n.kind != "slice" ||
    (var parent := ParentOf(g.nodes, g.edges, n.id); parent.Some? && parent.value != "" && parent.value in expanded)
  }

  function ShownNodes(g: Graph, expanded: set<string>, nodes: seq<Node>): seq<Node> {
    if nodes == [] then []
    else ShownNodes(g, expanded, nodes[..|nodes| - 1]) +
         (if ShowsNode(g, expanded, nodes[|nodes| - 1]) then [nodes[|nodes| - 1]] else [])
  }

  function NodeIds(nodes: seq<Node>): set<string> {
    set n | n in nodes :: n.id
  }

  function Expand(g: Graph, expanded: set<string>): Graph {
    if forall n :: n in g.nodes ==> n.kind != "slice" then g
    else
      var nodes := ShownNodes(g, expanded, g.nodes);
      Graph(nodes, KeepEdges(g.edges, NodeIds(nodes)))
  }

  method FilterForExpanded(g: Graph, expanded: set<string>) returns (r: Graph)
    ensures r == Expand(g, expanded)
  {
    if forall n :: n in g.nodes ==> n.kind != "slice" {
      return g;
    }
    var npuOfSlice: map<string, string> := map[];
    for k := 0 to |g.edges|
      invariant forall id :: id in npuOfSlice <==> ParentOf(g.nodes, g.edges[..k], id).Some?
      invariant forall id :: id in npuOfSlice ==> ParentOf(g.nodes, g.edges[..k], id) == Some(npuOfSlice[id])
    {
      assert g.edges[..k + 1][..k] == g.edges[..k];
      var e := g.edges[k];
      if e.kind != "contains" {
        continue;
      }
      var child := FindNode(g.nodes, e.target);
      if child.None? || child.value.kind != "slice" {
        continue;
      }
      npuOfSlice := npuOfSlice[e.target := e.source];
    }
    assert g.edges[..|g.edges|] == g.edges;
    var visibleNodeIds: set<string> := {};
    var nodes: seq<Node> := [];
    for k := 0 to |g.nodes|
      invariant nodes == ShownNodes(g, expanded, g.nodes[..k]) && visibleNodeIds == NodeIds(nodes)
    {
      assert g.nodes[..k + 1][..k] == g.nodes[..k];
      var n := g.nodes[k];
      var visible := n.kind != "slice" ||
          (n.id in npuOfSlice && npuOfSlice[n.id] != "" && npuOfSlice[n.id] in expanded);
      if visible {
        nodes := nodes + [n];
        visibleNodeIds := visibleNodeIds + {n.id};
      }
    }
    assert g.nodes[..|g.nodes|] == g.nodes;
    var edges := SelectEdges(g.edges, visibleNodeIds);
    r := Graph(nodes, edges);
  }

  lemma {:induction false} ShownExact(g: Graph, expanded: set<string>, nodes: seq<Node>)
    ensures forall n :: n in ShownNodes(g, expanded, nodes) <==> n in nodes && ShowsNode(g, expanded, n)
  {
    if nodes != [] {
      ShownExact(g, expanded, nodes[..|nodes| - 1]);
      assert nodes == nodes[..|nodes| - 1] + [nodes[|nodes| - 1]];
    }
  }

  /** Slices show exactly under an expanded parent, everything else always; no edge dangles,
      whether or not the input was closed, once the graph has a slice; and expanding more
      NPUs never hides anything. */
  lemma ExpandExact(g: Graph, expanded: set<string>, more: set<string>)
    requires expanded <= more
    ensures var r := Expand(g, expanded);
      && (forall n :: n in r.nodes <==> n in g.nodes && ShowsNode(g, expanded, n))
      && ((exists n :: n in g.nodes && n.kind == "slice") || Closed(g) ==> Closed(r))
      && (forall n :: n in r.nodes ==> n in Expand(g, more).nodes)
      && (forall e :: e in r.edges ==> e in Expand(g, more).edges)
  {
    ShownExact(g, expanded, g.nodes);
    ShownExact(g, more, g.nodes);
    var nodes, wider := ShownNodes(g, expanded, g.nodes), ShownNodes(g, more, g.nodes);
    KeepExact([], g.edges, NodeIds(nodes));
    KeepExact([], g.edges, NodeIds(wider));
    assert NodeIds(nodes) <= NodeIds(wider);
    forall id | id in NodeIds(nodes) ensures HasNode(nodes, id) {
    }
  }
}
