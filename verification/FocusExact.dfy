/** What the two graph filters show, said on the kinds of edges and nodes themselves
    (frontend/src/components/TopologyGraph/TopologyGraph.tsx). */
module FocusExact {
  import opened Wrappers
  import opened Sorting
  import opened FocusFilter

  function WithId(ids: set<string>): Node -> bool {
    (n: Node) => n.id in ids
  }

  function Between(ids: set<string>): Edge -> bool {
    (e: Edge) => e.source in ids && e.target in ids
  }

  lemma {:induction false} NodesKept(nodes: seq<Node>, ids: set<string>)
    ensures KeepNodes(nodes, ids) == Filter(WithId(ids), nodes)
  {
    if nodes != [] {
      NodesKept(nodes[..|nodes| - 1], ids);
    }
  }

  lemma {:induction false} EdgesKept(edges: seq<Edge>, ids: set<string>)
    ensures KeepEdges(edges, ids) == Filter(Between(ids), edges)
  {
    if edges != [] {
      EdgesKept(edges[..|edges| - 1], ids);
    }
  }

  // ---------------------------------------------------------------- the focus filter

  predicate Places(e: Edge) {
    e.kind in {"binds-to", "runs-on", "allocated"}
  }

  predicate PairsUp(e: Edge) {
    e.kind == "pd-pair"
  }

  lemma {:induction false} SweepSame(edges: seq<Edge>, p: Edge -> bool, q: Edge -> bool, visible: set<string>)
    requires forall e :: p(e) <==> q(e)
    ensures Sweep(edges, p, visible) == Sweep(edges, q, visible)
  {
    if edges != [] {
      SweepSame(edges[..|edges| - 1], p, q, visible);
    }
  }

  /** The other end of every wanted edge at one of the first ids is among the second. */
  ghost predicate PullsIn(edges: seq<Edge>, wanted: Edge -> bool, from: set<string>, ids: set<string>) {
    && from <= ids
    && forall e :: e in edges && wanted(e) ==>
         (e.source in from ==> e.target in ids) && (e.target in from ==> e.source in ids)
  }

  /** What is shown with a focus: containment leads to `contained`; from there edges of the kinds
      binds-to, runs-on and allocated, in list order, lead to `placed`; from there edges of kind
      pd-pair, in list order, lead to `ids`; edges of other kinds pull nothing in.  The nodes of
      these ids and the edges between them remain, in order, and a closed graph stays closed. */
  lemma FocusKeeps(g: Graph, anchor: string, contained: set<string>) returns (placed: set<string>, ids: set<string>)
    requires IsClosure(g.edges, anchor, contained)
    ensures PullsIn(g.edges, Places, contained, placed) && PullsIn(g.edges, PairsUp, placed, ids)
    ensures forall id :: id in placed <==> Linked(g.edges, Places, contained, id)
    ensures forall id :: id in ids <==> Linked(g.edges, PairsUp, placed, id)
    ensures var r := Keep(g, Visible(g.edges, contained));
      && r.nodes == Filter(WithId(ids), g.nodes) && r.edges == Filter(Between(ids), g.edges)
      && (Closed(g) ==> Closed(r))
  {
    placed, ids := Sweep(g.edges, Places, contained), Visible(g.edges, contained);
    SweepSame(g.edges, Places, IsPlacement, contained);
    SweepSame(g.edges, PairsUp, IsPair, placed);
    assert ids == Sweep(g.edges, PairsUp, placed);
    SweepPulls(g.edges, Places, contained);
    SweepPulls(g.edges, PairsUp, placed);
    NodesKept(g.nodes, ids);
    EdgesKept(g.edges, ids);
    if Closed(g) {
      KeepIsClosed(g, ids);
    }
  }

  lemma SweepPulls(edges: seq<Edge>, wanted: Edge -> bool, visible: set<string>)
    ensures PullsIn(edges, wanted, visible, Sweep(edges, wanted, visible))
    ensures forall id :: id in Sweep(edges, wanted, visible) <==> Linked(edges, wanted, visible, id)
  {
    SweepCovers(edges, wanted, visible);
    forall id ensures id in Sweep(edges, wanted, visible) <==> Linked(edges, wanted, visible, id) {
      SweepExact(edges, wanted, visible, id);
    }
    forall e | e in edges && wanted(e)
      ensures e.source in visible ==> e.target in Sweep(edges, wanted, visible)
      ensures e.target in visible ==> e.source in Sweep(edges, wanted, visible) {
      assert Joins(e, e.source, e.target) && Joins(e, e.target, e.source);
    }
  }

  // ---------------------------------------------------------------- the slice filter

  /** Edge `k` is the last containment edge into the id. */
  predicate LastInto(edges: seq<Edge>, id: string, k: nat) {
    && k < |edges| && edges[k].kind == "contains" && edges[k].target == id
    && forall l :: k < l < |edges| ==> edges[l].kind != "contains" || edges[l].target != id
  }

  predicate FirstIsSlice(nodes: seq<Node>, id: string) {
    exists k :: 0 <= k < |nodes| && nodes[k].id == id && nodes[k].kind == "slice"
      && forall l :: 0 <= l < k ==> nodes[l].id != id
  }

  /** A slice shows under an expanded parent, anything else always. */
  predicate Stays(g: Graph, expanded: set<string>, n: Node) {
    n.kind == "slice" ==>
      && FirstIsSlice(g.nodes, n.id)
      && exists k: nat :: k < |g.edges| && LastInto(g.edges, n.id, k) && UnderExpanded(g, expanded, k)
  }

  predicate UnderExpanded(g: Graph, expanded: set<string>, k: nat)
    requires k < |g.edges|
  {
    g.edges[k].source != "" && g.edges[k].source in expanded
  }

  function StaysIn(g: Graph, expanded: set<string>): Node -> bool {
    (n: Node) => Stays(g, expanded, n)
  }

  lemma {:induction false} FirstNodeIs(nodes: seq<Node>, id: string)
    ensures FirstNode(nodes, id).Some? && FirstNode(nodes, id).value.kind == "slice" <==> FirstIsSlice(nodes, id)
  {
    if nodes != [] {
      var rest := nodes[1..];
      FirstNodeIs(rest, id);
      if nodes[0].id != id {
        if FirstIsSlice(rest, id) {
          var k :| 0 <= k < |rest| && rest[k].id == id && rest[k].kind == "slice"
            && forall l :: 0 <= l < k ==> rest[l].id != id;
          assert nodes[k + 1] == rest[k] && forall l :: 0 < l < k + 1 ==> nodes[l] == rest[l - 1];
        }
        if FirstIsSlice(nodes, id) {
          var k :| 0 <= k < |nodes| && nodes[k].id == id && nodes[k].kind == "slice"
            && forall l :: 0 <= l < k ==> nodes[l].id != id;
          assert rest[k - 1] == nodes[k] && forall l :: 0 <= l < k - 1 ==> rest[l] == nodes[l + 1];
        }
      }
    }
  }

  lemma {:induction false} ParentIs(nodes: seq<Node>, edges: seq<Edge>, id: string)
    ensures ParentOf(nodes, edges, id).Some? ==>
      && FirstIsSlice(nodes, id)
      && exists k: nat :: LastInto(edges, id, k) && edges[k].source == ParentOf(nodes, edges, id).value
    ensures forall k: nat :: LastInto(edges, id, k) && FirstIsSlice(nodes, id) ==>
      ParentOf(nodes, edges, id) == Some(edges[k].source)
  {
    FirstNodeIs(nodes, id);
    if edges != [] {
      var u, e := edges[..|edges| - 1], edges[|edges| - 1];
      ParentIs(nodes, u, id);
      if e.kind == "contains" && e.target == id {
        assert LastInto(edges, id, |u|);
        assert forall k: nat :: LastInto(edges, id, k) ==> k == |u|;
      } else {
        assert forall k: nat :: LastInto(edges, id, k) <==> LastInto(u, id, k);
      }
    }
  }

  lemma ShowsIs(g: Graph, expanded: set<string>, n: Node)
    ensures ShowsNode(g, expanded, n) <==> Stays(g, expanded, n)
  {
    ParentIs(g.nodes, g.edges, n.id);
    if n.kind == "slice" && Stays(g, expanded, n) {
      var k: nat :| LastInto(g.edges, n.id, k) && UnderExpanded(g, expanded, k);
    }
  }

  lemma {:induction false} NodesShown(g: Graph, expanded: set<string>, nodes: seq<Node>)
    ensures ShownNodes(g, expanded, nodes) == Filter(StaysIn(g, expanded), nodes)
  {
    if nodes != [] {
      NodesShown(g, expanded, nodes[..|nodes| - 1]);
      ShowsIs(g, expanded, nodes[|nodes| - 1]);
    }
  }

  /** A graph without slices is shown as it is.  Otherwise the nodes that stay and the edges
      between them remain, in order; no edge dangles; and expanding more NPUs hides nothing. */
  lemma ExpandKeeps(g: Graph, expanded: set<string>, more: set<string>)
    requires expanded <= more
    ensures (forall n :: n in g.nodes ==> n.kind != "slice") ==> Expand(g, expanded) == g
    ensures (exists n :: n in g.nodes && n.kind == "slice") ==>
      var nodes := Filter(StaysIn(g, expanded), g.nodes);
      Expand(g, expanded) == Graph(nodes, Filter(Between(set n | n in nodes :: n.id), g.edges))
        && Closed(Expand(g, expanded))
    ensures forall n :: n in Expand(g, expanded).nodes ==> n in Expand(g, more).nodes
    ensures forall e :: e in Expand(g, expanded).edges ==> e in Expand(g, more).edges
  {
    ExpandExact(g, expanded, more);
    NodesShown(g, expanded, g.nodes);
    var nodes := Filter(StaysIn(g, expanded), g.nodes);
    assert NodeIds(nodes) == set n | n in nodes :: n.id;
    EdgesKept(g.edges, NodeIds(nodes));
  }
}
