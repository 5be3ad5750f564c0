/** The attributed-graph path: the undirected networkx graph built from a
    parsed molecule (`smiles_to_nx`) and its flattening into a tensor graph
    (`nx_to_pyg`). The graph keeps its nodes and edges in insertion order,
    as networkx does; the order in which networkx reports edges is derived
    from it by `EdgeView`. Node attributes are typed records with the ten
    named atom fields; an edge's bond type is optional because a graph read
    from a file need not carry one. */
module NxGraph {
  import opened Wrappers
  import opened Molecule
  import opened Features
  import opened TensorGraph
  import opened Chars
  import opened IntText
  import opened SmilesGraph

  /** A node identifier: an atom index, or the text identifier a graph file uses. */
  datatype NodeKey = IntKey(n: int) | StrKey(s: string)

  datatype EdgeAttrs = EdgeAttrs(
    bondType: Option<string>,
    stereo: int,
    isConjugated: bool,
    isAromatic: bool,
    isInRing: bool)

  datatype Node = Node(key: NodeKey, attrs: AtomProps)

  datatype Edge = Edge(u: NodeKey, v: NodeKey, attrs: EdgeAttrs)

  datatype Graph = Graph(nodes: seq<Node>, edges: seq<Edge>)

  /** Some node among the first `p` has key `k`. */
  predicate SeenBefore(nodes: seq<Node>, p: nat, k: NodeKey)
    requires p <= |nodes|
  {
    exists q :: 0 <= q < p && nodes[q].key == k
  }

  predicate DistinctKeys(nodes: seq<Node>)
  {
    forall p, q :: 0 <= p < q < |nodes| ==> nodes[p].key != nodes[q].key
  }

  /** What a networkx graph always satisfies: node keys are distinct and
      every edge joins two nodes of the graph. */
  predicate WellFormed(g: Graph)
  {
    && DistinctKeys(g.nodes)
    && forall e :: e in g.edges ==> SeenBefore(g.nodes, |g.nodes|, e.u) && SeenBefore(g.nodes, |g.nodes|, e.v)
  }

  /** What node `p` reports of edge `e` while networkx walks its adjacency:
      the edge, oriented away from node `p`, if it touches node `p` and its
      other end has not been walked yet. */
  function Report(nodes: seq<Node>, p: nat, e: Edge): seq<Edge>
    requires p < |nodes|
  {
    var n := nodes[p].key;
    if e.u == n && !SeenBefore(nodes, p, e.v) then [Edge(n, e.v, e.attrs)]
    else if e.v == n && !SeenBefore(nodes, p, e.u) then [Edge(n, e.u, e.attrs)]
    else []
  }

  /** What node `p` reports of the edges `es`, in insertion order. */
  function Incident(nodes: seq<Node>, p: nat, es: seq<Edge>): seq<Edge>
    requires p < |nodes|
  {
    if |es| == 0 then []
    else Incident(nodes, p, es[..|es| - 1]) + Report(nodes, p, es[|es| - 1])
  }

  // ----- Parallel edges -----

  /** The edges of `r` whose far end is `w`, in order. */
  function Toward(r: seq<Edge>, w: NodeKey): (t: seq<Edge>)
    ensures |t| <= |r|
    ensures forall x :: x in t ==> x in r && x.v == w
  {
    if |r| == 0 then []
    else (if r[0].v == w then [r[0]] else []) + Toward(r[1..], w)
  }

  /** The edges of `r` whose far end is not `w`, in order. */
  function Away(r: seq<Edge>, w: NodeKey): (t: seq<Edge>)
    ensures |t| <= |r|
    ensures |r| > 0 && r[0].v == w ==> |t| < |r|
    ensures forall x :: x in t ==> x in r && x.v != w
  {
    if |r| == 0 then []
    else (if r[0].v != w then [r[0]] else []) + Away(r[1..], w)
  }

  /** Every edge goes one way or the other. */
  lemma {:induction false} TowardAway(r: seq<Edge>, w: NodeKey)
    ensures multiset(Toward(r, w)) + multiset(Away(r, w)) == multiset(r)
  {
    if |r| > 0 {
      var x, tail := r[0], r[1..];
      assert r == [x] + tail;
      TowardAway(tail, w);
      FilterStep(x, tail, w);
      assert multiset(r) == multiset([x]) + multiset(tail);
      var rest := multiset(Toward(tail, w)) + multiset(Away(tail, w));
      if x.v == w {
        assert Toward(r, w) == [x] + Toward(tail, w) && Away(r, w) == Away(tail, w);
        assert multiset(Toward(r, w)) == multiset([x]) + multiset(Toward(tail, w));
        assert multiset(Toward(r, w)) + multiset(Away(r, w)) == multiset([x]) + rest;
      } else {
        assert Toward(r, w) == Toward(tail, w) && Away(r, w) == [x] + Away(tail, w);
        assert multiset(Away(r, w)) == multiset([x]) + multiset(Away(tail, w));
        assert multiset(Toward(r, w)) + multiset(Away(r, w)) == multiset([x]) + rest;
      }
    }
  }

  /** The edges one node reports, in the order networkx's adjacency holds
      them: a node's neighbours are kept in the order their first edge
      arrived, and the parallel edges to one neighbour are kept together
      under it, as a multigraph read from a file keeps them. */
  function Group(r: seq<Edge>): (g: seq<Edge>)
    ensures multiset(g) == multiset(r)
    decreases |r|
  {
    if |r| == 0 then []
    else
      var w := r[0].v;
      TowardAway(r, w);
      Toward(r, w) + Group(Away(r, w))
  }

  lemma GroupLength(r: seq<Edge>)
    ensures |Group(r)| == |r|
  {
    assert |multiset(Group(r))| == |multiset(r)|;
  }

  lemma GroupMembers(r: seq<Edge>)
    ensures forall x :: x in Group(r) ==> x in r
  {
    assert forall x :: x in Group(r) ==> x in multiset(Group(r));
  }

  /** No two of the edges lead to the same node. */
  predicate DistinctFarEnds(r: seq<Edge>)
  {
    forall i, j :: 0 <= i < j < |r| ==> r[i].v != r[j].v
  }

  lemma {:induction false} TowardNone(r: seq<Edge>, w: NodeKey)
    requires forall k :: 0 <= k < |r| ==> r[k].v != w
    ensures Toward(r, w) == [] && Away(r, w) == r
  {
    if |r| > 0 {
      TowardNone(r[1..], w);
      assert r == [r[0]] + r[1..];
    }
  }

  /** Without parallel edges the grouping keeps insertion order. */
  lemma {:induction false} GroupDistinct(r: seq<Edge>)
    requires DistinctFarEnds(r)
    ensures Group(r) == r
    decreases |r|
  {
    if |r| > 0 {
      var w := r[0].v;
      var tail := r[1..];
      assert r == [r[0]] + tail;
      DistinctHead(r);
      GroupDistinct(tail);
      assert Group(r) == Toward(r, w) + Group(Away(r, w));
    }
  }

  /** The first edge is the only one toward its far end. */
  lemma DistinctHead(r: seq<Edge>)
    requires DistinctFarEnds(r) && |r| > 0
    ensures Toward(r, r[0].v) == [r[0]] && Away(r, r[0].v) == r[1..]
    ensures DistinctFarEnds(r[1..])
  {
    var w := r[0].v;
    var tail := r[1..];
    assert forall k :: 0 <= k < |tail| ==> tail[k] == r[k + 1];
    TowardNone(tail, w);
    assert Toward(r, w) == [r[0]] + Toward(tail, w);
    assert Away(r, w) == Away(tail, w);
  }

  lemma IncidentSnoc(nodes: seq<Node>, p: nat, es: seq<Edge>, e: Edge)
    requires p < |nodes|
    ensures Incident(nodes, p, es + [e]) == Incident(nodes, p, es) + Report(nodes, p, e)
  {
    assert (es + [e])[..|es|] == es;
  }

  /** One step of each filter. */
  lemma FilterStep(x: Edge, r: seq<Edge>, w: NodeKey)
    ensures Toward([x] + r, w) == (if x.v == w then [x] else []) + Toward(r, w)
    ensures Away([x] + r, w) == (if x.v != w then [x] else []) + Away(r, w)
  {
    assert ([x] + r)[1..] == r;
  }

  /** Two parallel edges: with edges a-b, a-c and a second a-b, in that
      order, networkx reports both a-b edges before a-c. */
  lemma ParallelEdgesGrouped(a: NodeKey, b: NodeKey, c: NodeKey, props: AtomProps, s: EdgeAttrs, d: EdgeAttrs)
    requires a != b && a != c && b != c
    ensures EdgeView(Graph([Node(a, props), Node(b, props), Node(c, props)], [Edge(a, b, s), Edge(a, c, s), Edge(a, b, d)]))
         == [Edge(a, b, s), Edge(a, b, d), Edge(a, c, s)]
  {
    var nodes := [Node(a, props), Node(b, props), Node(c, props)];
    var es := [Edge(a, b, s), Edge(a, c, s), Edge(a, b, d)];
    ParallelFirstNode(a, b, c, props, s, d);
    ParallelLaterNodes(a, b, c, props, s, d);
    ParallelGroup(a, b, c, s, d);
    assert EdgesFrom(nodes, es, 0) == Group(Incident(nodes, 0, es)) + EdgesFrom(nodes, es, 1);
  }

  /** The grouping moves the second a-b edge up beside the first. */
  lemma ParallelGroup(a: NodeKey, b: NodeKey, c: NodeKey, s: EdgeAttrs, d: EdgeAttrs)
    requires b != c
    ensures Group([Edge(a, b, s), Edge(a, c, s), Edge(a, b, d)]) == [Edge(a, b, s), Edge(a, b, d), Edge(a, c, s)]
  {
    var x, y, z := Edge(a, b, s), Edge(a, c, s), Edge(a, b, d);
    assert [x, z] + [y] == [x, z, y];
    ParallelFilters(a, b, c, s, d);
    SingleGroup(y);
    assert [x, y, z][0].v == b;
    assert Group([x, y, z]) == Toward([x, y, z], b) + Group(Away([x, y, z], b));
  }

  lemma SingleGroup(y: Edge)
    ensures Group([y]) == [y]
  {
    FilterStep(y, [], y.v);
    assert [y] == [y] + [];
    assert Group([]) == [];
    assert Group([y]) == Toward([y], y.v) + Group(Away([y], y.v));
  }

  /** Sorting the three edges by far end b. */
  lemma ParallelFilters(a: NodeKey, b: NodeKey, c: NodeKey, s: EdgeAttrs, d: EdgeAttrs)
    requires b != c
    ensures var x, y, z := Edge(a, b, s), Edge(a, c, s), Edge(a, b, d);
      Toward([x, y, z], b) == [x, z] && Away([x, y, z], b) == [y]
  {
    var x, y, z := Edge(a, b, s), Edge(a, c, s), Edge(a, b, d);
    assert [x, y, z] == [x] + [y, z] && [y, z] == [y] + [z] && [z] == [z] + [];
    FilterStep(x, [y, z], b);
    FilterStep(y, [z], b);
    FilterStep(z, [], b);
  }

  /** The first node reports all three edges, in insertion order. */
  lemma ParallelFirstNode(a: NodeKey, b: NodeKey, c: NodeKey, props: AtomProps, s: EdgeAttrs, d: EdgeAttrs)
    requires a != b && a != c
    ensures Incident([Node(a, props), Node(b, props), Node(c, props)], 0, [Edge(a, b, s), Edge(a, c, s), Edge(a, b, d)])
         == [Edge(a, b, s), Edge(a, c, s), Edge(a, b, d)]
  {
    var nodes := [Node(a, props), Node(b, props), Node(c, props)];
    var es := [Edge(a, b, s), Edge(a, c, s), Edge(a, b, d)];
    assert Report(nodes, 0, es[0]) == [es[0]];
    assert Report(nodes, 0, es[1]) == [es[1]];
    assert Report(nodes, 0, es[2]) == [es[2]];
    assert es[..1] == [es[0]] && es[..2] == [es[0], es[1]];
    assert es[..2][..1] == [es[0]] && [es[0]][..0] == [];
    assert Incident(nodes, 0, es[..1]) == [es[0]];
    assert Incident(nodes, 0, es[..2]) == [es[0], es[1]];
  }

  /** The other two nodes report nothing: every edge touching them leads
      back to the first node. */
  lemma ParallelLaterNodes(a: NodeKey, b: NodeKey, c: NodeKey, props: AtomProps, s: EdgeAttrs, d: EdgeAttrs)
    requires a != b && a != c && b != c
    ensures var nodes := [Node(a, props), Node(b, props), Node(c, props)];
      var es := [Edge(a, b, s), Edge(a, c, s), Edge(a, b, d)];
      EdgesFrom(nodes, es, 1) == []
  {
    var nodes := [Node(a, props), Node(b, props), Node(c, props)];
    var es := [Edge(a, b, s), Edge(a, c, s), Edge(a, b, d)];
    ParallelNoReports(a, b, c, props, s, d);
    assert EdgesFrom(nodes, es, 3) == [];
    assert Group([]) == [];
    assert EdgesFrom(nodes, es, 2) == Group(Incident(nodes, 2, es)) + EdgesFrom(nodes, es, 3);
    assert EdgesFrom(nodes, es, 1) == Group(Incident(nodes, 1, es)) + EdgesFrom(nodes, es, 2);
  }

  lemma ParallelNoReports(a: NodeKey, b: NodeKey, c: NodeKey, props: AtomProps, s: EdgeAttrs, d: EdgeAttrs)
    requires a != b && a != c && b != c
    ensures var nodes := [Node(a, props), Node(b, props), Node(c, props)];
      var es := [Edge(a, b, s), Edge(a, c, s), Edge(a, b, d)];
      Incident(nodes, 1, es) == [] && Incident(nodes, 2, es) == []
  {
    var nodes := [Node(a, props), Node(b, props), Node(c, props)];
    var es := [Edge(a, b, s), Edge(a, c, s), Edge(a, b, d)];
    assert nodes[0].key == a;
    assert SeenBefore(nodes, 1, a) && SeenBefore(nodes, 2, a);
    forall p, k | 1 <= p < 3 && 0 <= k < 3
      ensures Report(nodes, p, es[k]) == []
    {
    }
    assert es[..1] == [es[0]] && es[..2] == [es[0], es[1]];
    assert es[..2][..1] == [es[0]] && [es[0]][..0] == [];
    assert Report(nodes, 1, es[0]) == [] && Report(nodes, 2, es[0]) == [];
    assert es[..1][..0] == [] && es[..1][0] == es[0];
    assert Incident(nodes, 1, []) == [] && Incident(nodes, 2, []) == [];
    assert Incident(nodes, 1, es[..1]) == [] && Incident(nodes, 2, es[..1]) == [];
    assert Incident(nodes, 1, es[..2]) == [] && Incident(nodes, 2, es[..2]) == [];
  }

  /** What nodes `p`, `p + 1`, ... report, node by node. */
  function EdgesFrom(nodes: seq<Node>, es: seq<Edge>, p: nat): seq<Edge>
    decreases |nodes| - p
  {
    if p >= |nodes| then []
    else Group(Incident(nodes, p, es)) + EdgesFrom(nodes, es, p + 1)
  }

  /** `G.edges(data=True)`: the edges in the order networkx reports them.
      Every reported edge is an edge of the graph, possibly turned round,
      and a graph with distinct node keys whose edges join its nodes has
      exactly as many reported edges as edges. */
  function EdgeView(g: Graph): (r: seq<Edge>)
    ensures WellFormed(g) ==> |r| == |g.edges|
    ensures forall x :: x in r ==> exists e :: e in g.edges && Orients(x, e)
  {
    EdgesFromSize(g.nodes, g.edges);
    EdgesFromFromEdges(g.nodes, g.edges, 0);
    EdgesFrom(g.nodes, g.edges, 0)
  }

  /** How many of nodes `p`, `p + 1`, ... report edge `e`. */
  function Hits(nodes: seq<Node>, e: Edge, p: nat): nat
    decreases |nodes| - p
  {
    if p >= |nodes| then 0 else |Report(nodes, p, e)| + Hits(nodes, e, p + 1)
  }

  lemma {:induction false} EdgesFromSnoc(nodes: seq<Node>, es: seq<Edge>, e: Edge, p: nat)
    ensures |EdgesFrom(nodes, es + [e], p)| == |EdgesFrom(nodes, es, p)| + Hits(nodes, e, p)
    decreases |nodes| - p
  {
    if p < |nodes| {
      IncidentSnoc(nodes, p, es, e);
      GroupLength(Incident(nodes, p, es + [e]));
      GroupLength(Incident(nodes, p, es));
      EdgesFromSnoc(nodes, es, e, p + 1);
    }
  }

  /** A node after the first endpoint of `e` (in node order) does not report it. */
  lemma {:induction false} NoHitsAfterFirstEndpoint(nodes: seq<Node>, e: Edge, pu: nat, pv: nat, p: nat)
    requires DistinctKeys(nodes)
    requires pu < |nodes| && pv < |nodes| && nodes[pu].key == e.u && nodes[pv].key == e.v
    requires p > pu || p > pv
    ensures Hits(nodes, e, p) == 0
    decreases |nodes| - p
  {
    if p < |nodes| {
      var n := nodes[p].key;
      if e.u == n {
        assert pu == p;
        assert SeenBefore(nodes, p, e.v);
      }
      if e.v == n {
        assert pv == p;
        assert SeenBefore(nodes, p, e.u);
      }
      NoHitsAfterFirstEndpoint(nodes, e, pu, pv, p + 1);
    }
  }

  /** In a well-formed graph every edge is reported exactly once: by
      whichever of its endpoints comes first in node order. */
  lemma {:induction false} EdgeReportedOnce(nodes: seq<Node>, e: Edge, p: nat)
    requires DistinctKeys(nodes)
    requires SeenBefore(nodes, |nodes|, e.u) && SeenBefore(nodes, |nodes|, e.v)
    requires p <= |nodes|
    requires !SeenBefore(nodes, p, e.u) && !SeenBefore(nodes, p, e.v)
    ensures Hits(nodes, e, p) == 1
    decreases |nodes| - p
  {
    var pu :| 0 <= pu < |nodes| && nodes[pu].key == e.u;
    var pv :| 0 <= pv < |nodes| && nodes[pv].key == e.v;
    assert p <= pu && p <= pv;
    var n := nodes[p].key;
    if p == pu || p == pv {
      assert |Report(nodes, p, e)| == 1;
      NoHitsAfterFirstEndpoint(nodes, e, pu, pv, p + 1);
    } else {
      assert e.u != n && e.v != n;
      assert !SeenBefore(nodes, p + 1, e.u) && !SeenBefore(nodes, p + 1, e.v);
      EdgeReportedOnce(nodes, e, p + 1);
    }
  }

  /** networkx reports as many edges as the graph holds. */
  lemma {:induction false} EdgesFromSize(nodes: seq<Node>, es: seq<Edge>)
    ensures WellFormed(Graph(nodes, es)) ==> |EdgesFrom(nodes, es, 0)| == |es|
    decreases |es|
  {
    if WellFormed(Graph(nodes, es)) {
      if |es| > 0 {
        var init := es[..|es| - 1];
        var e := es[|es| - 1];
        assert es == init + [e];
        assert WellFormed(Graph(nodes, init));
        EdgesFromSize(nodes, init);
        EdgesFromSnoc(nodes, init, e, 0);
        EdgeReportedOnce(nodes, e, 0);
      } else {
        EdgesFromNoEdges(nodes, 0);
      }
    }
  }

  lemma {:induction false} EdgesFromNoEdges(nodes: seq<Node>, p: nat)
    ensures EdgesFrom(nodes, [], p) == []
    decreases |nodes| - p
  {
    if p < |nodes| {
      EdgesFromNoEdges(nodes, p + 1);
    }
  }

  /** `r` is edge `e`, in one orientation or the other. */
  predicate Orients(r: Edge, e: Edge)
  {
    r.attrs == e.attrs && ((r.u == e.u && r.v == e.v) || (r.u == e.v && r.v == e.u))
  }

  lemma {:induction false} IncidentFromEdges(nodes: seq<Node>, p: nat, es: seq<Edge>)
    requires p < |nodes|
    ensures forall r :: r in Incident(nodes, p, es) ==> exists e :: e in es && Orients(r, e)
  {
    if |es| > 0 {
      var init := es[..|es| - 1];
      IncidentFromEdges(nodes, p, init);
      forall r | r in Incident(nodes, p, es)
        ensures exists e :: e in es && Orients(r, e)
      {
        if r in Incident(nodes, p, init) {
          var e :| e in init && Orients(r, e);
          assert e in es;
        } else {
          assert Orients(r, es[|es| - 1]);
        }
      }
    }
  }

  lemma {:induction false} EdgesFromFromEdges(nodes: seq<Node>, es: seq<Edge>, p: nat)
    ensures forall r :: r in EdgesFrom(nodes, es, p) ==> exists e :: e in es && Orients(r, e)
    decreases |nodes| - p
  {
    if p < |nodes| {
      IncidentFromEdges(nodes, p, es);
      EdgesFromFromEdges(nodes, es, p + 1);
      GroupMembers(Incident(nodes, p, es));
    }
  }

  // ----- The report order permutes the edges -----

  /** What nodes `p`, `p + 1`, ... report of edge `e`, in node order. */
  function ReportsFrom(nodes: seq<Node>, e: Edge, p: nat): seq<Edge>
    decreases |nodes| - p
  {
    if p >= |nodes| then [] else Report(nodes, p, e) + ReportsFrom(nodes, e, p + 1)
  }

  lemma {:induction false} ReportsFromHits(nodes: seq<Node>, e: Edge, p: nat)
    ensures |ReportsFrom(nodes, e, p)| == Hits(nodes, e, p)
    ensures forall x :: x in ReportsFrom(nodes, e, p) ==> Orients(x, e)
    decreases |nodes| - p
  {
    if p < |nodes| {
      ReportsFromHits(nodes, e, p + 1);
    }
  }

  /** Adding an edge adds to the report exactly what the nodes report of it. */
  lemma {:induction false} EdgesFromMultisetSnoc(nodes: seq<Node>, es: seq<Edge>, x: Edge, p: nat)
    ensures multiset(EdgesFrom(nodes, es + [x], p)) == multiset(EdgesFrom(nodes, es, p)) + multiset(ReportsFrom(nodes, x, p))
    decreases |nodes| - p
  {
    if p < |nodes| {
      IncidentSnoc(nodes, p, es, x);
      EdgesFromMultisetSnoc(nodes, es, x, p + 1);
      var before := Incident(nodes, p, es);
      var after := Incident(nodes, p, es + [x]);
      assert multiset(Group(after)) == multiset(Group(before)) + multiset(Report(nodes, p, x));
    }
  }

  /** Every edge's reports, edge after edge. */
  function AllReports(nodes: seq<Node>, es: seq<Edge>): seq<Edge>
  {
    if |es| == 0 then [] else AllReports(nodes, es[..|es| - 1]) + ReportsFrom(nodes, es[|es| - 1], 0)
  }

  lemma {:induction false} EdgesFromIsAllReports(nodes: seq<Node>, es: seq<Edge>)
    ensures multiset(EdgesFrom(nodes, es, 0)) == multiset(AllReports(nodes, es))
  {
    if |es| == 0 {
      EdgesFromNoEdges(nodes, 0);
    } else {
      var init := es[..|es| - 1];
      assert es == init + [es[|es| - 1]];
      EdgesFromIsAllReports(nodes, init);
      EdgesFromMultisetSnoc(nodes, init, es[|es| - 1], 0);
    }
  }

  /** In a well-formed graph each edge is reported once, so the reports
      line up with the edges one to one. */
  lemma {:induction false} AllReportsShape(nodes: seq<Node>, es: seq<Edge>)
    requires DistinctKeys(nodes)
    requires forall e :: e in es ==> SeenBefore(nodes, |nodes|, e.u) && SeenBefore(nodes, |nodes|, e.v)
    ensures |AllReports(nodes, es)| == |es|
    ensures forall k :: 0 <= k < |es| ==> Orients(AllReports(nodes, es)[k], es[k])
  {
    if |es| > 0 {
      var init := es[..|es| - 1];
      var e := es[|es| - 1];
      assert forall x :: x in init ==> x in es;
      assert e in es;
      AllReportsShape(nodes, init);
      OneReport(nodes, e);
      var prev := AllReports(nodes, init);
      var all := AllReports(nodes, es);
      assert all == prev + ReportsFrom(nodes, e, 0);
      forall k | 0 <= k < |es|
        ensures Orients(all[k], es[k])
      {
        if k < |init| {
          assert all[k] == prev[k] && es[k] == init[k];
        }
      }
    }
  }

  /** The nodes of a well-formed graph report an edge exactly once, in one
      of its two orientations. */
  lemma OneReport(nodes: seq<Node>, e: Edge)
    requires DistinctKeys(nodes)
    requires SeenBefore(nodes, |nodes|, e.u) && SeenBefore(nodes, |nodes|, e.v)
    ensures |ReportsFrom(nodes, e, 0)| == 1 && Orients(ReportsFrom(nodes, e, 0)[0], e)
  {
    EdgeReportedOnce(nodes, e, 0);
    ReportsFromHits(nodes, e, 0);
    var one := ReportsFrom(nodes, e, 0);
    assert one[0] in one;
  }

  /** `G.edges(data=True)` of a well-formed graph is a rearrangement of its
      edges, each possibly turned round: there is a sequence holding, at
      position k, edge k in the orientation networkx reports it, and the
      report holds exactly the same edges as that sequence, each as often. */
  lemma EdgeViewPermutesEdges(g: Graph) returns (oriented: seq<Edge>)
    requires WellFormed(g)
    ensures |oriented| == |g.edges|
    ensures forall k :: 0 <= k < |g.edges| ==> Orients(oriented[k], g.edges[k])
    ensures multiset(EdgeView(g)) == multiset(oriented)
  {
    oriented := AllReports(g.nodes, g.edges);
    AllReportsShape(g.nodes, g.edges);
    EdgesFromIsAllReports(g.nodes, g.edges);
  }

  /** `int(u)` on a node identifier: an integer is itself, and text is
      read as `int` reads text, so a run of digits reads as its decimal
      value and text without a digit raises. */
  function KeyToInt(k: NodeKey): (r: Option<int>)
    ensures k.IntKey? ==> r == Some(k.n)
    ensures k.StrKey? ==> r == ParseInt(k.s)
    ensures k.StrKey? && |k.s| > 0 && AllDigits(k.s) ==> r == Some(BodyValue(k.s))
    ensures k.StrKey? && r.Some? ==> exists i :: 0 <= i < |k.s| && IsDigit(k.s[i])
  {
    match k
    case IntKey(n) => Some(n)
    case StrKey(s) => ParseInt(s)
  }

  /** The tensor converter can handle edge `e`: it has a bond type and both
      identifiers are integers. */
  predicate Convertible(e: Edge)
  {
    e.attrs.bondType.Some? && KeyToInt(e.u).Some? && KeyToInt(e.v).Some?
  }

  /** Both identifiers of a convertible edge fit a signed 64-bit integer. */
  predicate LongIds(e: Edge)
    requires Convertible(e)
  {
    InLong(KeyToInt(e.u).value) && InLong(KeyToInt(e.v).value)
  }

  /** The bond row of an edge in the tensor converter: the bond type
      collapses to 1 when it is exactly "SINGLE" and 0 otherwise. */
  function EdgeRow(a: EdgeAttrs): (r: seq<int>)
    requires a.bondType.Some?
    ensures |r| == BondWidth
    ensures r[0] == 1 <==> a.bondType.value == "SINGLE"
    ensures r[0] == 0 <==> a.bondType.value != "SINGLE"
    ensures r[1..] == [a.stereo, BoolToInt(a.isConjugated), BoolToInt(a.isAromatic), BoolToInt(a.isInRing)]
  {
    BondRowOf(if a.bondType.value == "SINGLE" then 1 else 0, a.stereo, a.isConjugated, a.isAromatic, a.isInRing)
  }

  /** A convertible edge as a pair of integers, forwards or backwards. */
  function IntPair(e: Edge, forward: bool): (int, int)
    requires Convertible(e)
  {
    var u := KeyToInt(e.u).value;
    var v := KeyToInt(e.v).value;
    if forward then (u, v) else (v, u)
  }

  /** The edge loop of `nx_to_pyg`: each edge (u, v) appends (u, v) then
      (v, u) and its row twice. It raises on the first edge that has no bond
      type (`KeyError`) or a non-integer identifier (`ValueError`). */
  function EdgeEntries(view: seq<Edge>): (r: Result<(seq<(int, int)>, seq<seq<int>>)>)
    ensures r.Success? <==> forall k :: 0 <= k < |view| ==> Convertible(view[k])
    ensures r.Success? ==>
      && |r.value.0| == 2 * |view| && |r.value.1| == 2 * |view|
      && (forall c :: 0 <= c < 2 * |view| ==>
            r.value.0[c] == IntPair(view[c / 2], c % 2 == 0) && r.value.1[c] == EdgeRow(view[c / 2].attrs))
  {
    if |view| == 0 then Success(([], []))
    else
      var init := view[..|view| - 1];
      var e := view[|view| - 1];
      assert forall k :: 0 <= k < |init| ==> init[k] == view[k];
      match EdgeEntries(init)
      case Failure(err) => Failure(err)
      case Success(acc) =>
        if e.attrs.bondType.None? then Failure("KeyError")
        else if KeyToInt(e.u).None? || KeyToInt(e.v).None? then Failure("ValueError")
        else
          EntriesSnoc(view, acc.0, acc.1);
          var row := EdgeRow(e.attrs);
          Success((acc.0 + [IntPair(e, true), IntPair(e, false)], acc.1 + [row, row]))
  }

  /** One more edge appends its two columns and its two rows. */
  lemma EntriesSnoc(view: seq<Edge>, pairs: seq<(int, int)>, rows: seq<seq<int>>)
    requires |view| > 0 && forall k :: 0 <= k < |view| ==> Convertible(view[k])
    requires |pairs| == 2 * (|view| - 1) && |rows| == 2 * (|view| - 1)
    requires forall c :: 0 <= c < 2 * (|view| - 1) ==>
               pairs[c] == IntPair(view[c / 2], c % 2 == 0) && rows[c] == EdgeRow(view[c / 2].attrs)
    ensures var e := view[|view| - 1];
      var pairs' := pairs + [IntPair(e, true), IntPair(e, false)];
      var rows' := rows + [EdgeRow(e.attrs), EdgeRow(e.attrs)];
      && |pairs'| == 2 * |view| && |rows'| == 2 * |view|
      && forall c :: 0 <= c < 2 * |view| ==>
           pairs'[c] == IntPair(view[c / 2], c % 2 == 0) && rows'[c] == EdgeRow(view[c / 2].attrs)
  {
    var e := view[|view| - 1];
    var pairs' := pairs + [IntPair(e, true), IntPair(e, false)];
    var rows' := rows + [EdgeRow(e.attrs), EdgeRow(e.attrs)];
    forall c | 0 <= c < 2 * |view|
      ensures pairs'[c] == IntPair(view[c / 2], c % 2 == 0) && rows'[c] == EdgeRow(view[c / 2].attrs)
    {
      if c >= 2 * (|view| - 1) {
        assert c / 2 == |view| - 1;
      }
    }
  }

  /** The feature rows of the nodes, in node order. */
  function NodeRows(nodes: seq<Node>): (rows: seq<seq<int>>)
    ensures |rows| == |nodes|
    ensures forall p :: 0 <= p < |nodes| ==> rows[p] == AtomRow(nodes[p].attrs)
  {
    seq(|nodes|, p requires 0 <= p < |nodes| => AtomRow(nodes[p].attrs))
  }

  /** `nx_to_pyg`. No graph, or a graph without nodes, gives one all-zero
      node row and the placeholder edges. Otherwise there is one node row per
      node in node order. The conversion succeeds exactly when every reported
      edge is convertible and its identifiers fit the signed 64-bit entries
      of `torch.LongTensor`: the edge loop raises first, on the first edge it
      cannot read, and building the edge index after the loop raises on an
      identifier out of range. Without edges the edges are the placeholder,
      and with edges each reported edge (u, v) gives the columns (u, v),
      (v, u) and two identical rows. */
  function NxToPyg(g: Option<Graph>, smiles: string, mol: Option<Mol>): (r: Result<PygData>)
    ensures g.None? || |g.value.nodes| == 0 ==> r == Success(EmptyGraphData)
    ensures g.Some? && |g.value.nodes| > 0 ==>
      (r.Success? <==> forall k :: 0 <= k < |EdgeView(g.value)| ==>
         Convertible(EdgeView(g.value)[k]) && LongIds(EdgeView(g.value)[k]))
    ensures g.Some? && |g.value.nodes| > 0 && r.Success? ==>
      && r.value.x == NodeRows(g.value.nodes)
      && r.value.mol == mol && r.value.smiles == smiles
    ensures g.Some? && |g.value.nodes| > 0 && r.Success? && |EdgeView(g.value)| == 0 ==>
      HasPlaceholderEdges(r.value)
    ensures g.Some? && |g.value.nodes| > 0 && r.Success? && |EdgeView(g.value)| > 0 ==>
      var view := EdgeView(g.value);
      && |r.value.edgeIndex| == 2
      && |r.value.edgeIndex[0]| == 2 * |view| && |r.value.edgeIndex[1]| == 2 * |view|
      && |r.value.edgeAttr| == 2 * |view|
      && (forall c :: 0 <= c < 2 * |view| ==>
            Column(r.value.edgeIndex, c) == IntPair(view[c / 2], c % 2 == 0)
            && r.value.edgeAttr[c] == EdgeRow(view[c / 2].attrs))
      && Reciprocal(Zip(r.value.edgeIndex))
      && PairedRows(r.value.edgeAttr)
  {
    if g.None? || |g.value.nodes| == 0 then Success(EmptyGraphData)
    else
      var view := EdgeView(g.value);
      var x := NodeRows(g.value.nodes);
      var entries := EdgeEntries(view);
      var r := Tensors(entries, x, mol, smiles);
      if entries.Success? && |entries.value.0| > 0 then
        EntriesLong(view, entries.value.0);
        EntriesPaired(view, entries.value.0, entries.value.1);
        UnzipZip(entries.value.0, []);
        r
      else r
  }

  /** What `nx_to_pyg` builds after its edge loop: the loop's error, the
      placeholder edges when the loop added nothing, `torch.LongTensor`'s
      error when an identifier does not fit, and otherwise the transposed
      edge index with its rows. */
  function Tensors(entries: Result<(seq<(int, int)>, seq<seq<int>>)>, x: seq<seq<int>>, mol: Option<Mol>, smiles: string): Result<PygData>
  {
    match entries
    case Failure(err) => Failure(err)
    case Success((pairs, rows)) =>
      if |pairs| == 0 then Success(PygData(PlaceholderEdgeIndex, x, [PlaceholderEdgeAttr], mol, smiles))
      else if !LongPairs(pairs) then Failure("RuntimeError")
      else Success(PygData(Unzip(pairs), x, rows, mol, smiles))
  }

  /** The edge index fits `torch.LongTensor` exactly when every reported
      edge's identifiers do. */
  lemma EntriesLong(view: seq<Edge>, pairs: seq<(int, int)>)
    requires forall k :: 0 <= k < |view| ==> Convertible(view[k])
    requires |pairs| == 2 * |view|
    requires forall c :: 0 <= c < 2 * |view| ==> pairs[c] == IntPair(view[c / 2], c % 2 == 0)
    ensures LongPairs(pairs) <==> forall k :: 0 <= k < |view| ==> LongIds(view[k])
  {
    if LongPairs(pairs) {
      forall k | 0 <= k < |view|
        ensures LongIds(view[k])
      {
        assert (2 * k) / 2 == k && (2 * k) % 2 == 0;
        assert pairs[2 * k] == IntPair(view[k], true);
      }
    }
  }

  /** The edge loop's output comes in couples: each edge's reversed pair
      follows it, with the same row. */
  lemma EntriesPaired(view: seq<Edge>, pairs: seq<(int, int)>, rows: seq<seq<int>>)
    requires forall k :: 0 <= k < |view| ==> Convertible(view[k])
    requires |pairs| == 2 * |view| && |rows| == 2 * |view|
    requires forall c :: 0 <= c < 2 * |view| ==>
               pairs[c] == IntPair(view[c / 2], c % 2 == 0) && rows[c] == EdgeRow(view[c / 2].attrs)
    ensures Reciprocal(pairs) && PairedRows(rows)
  {
    forall c | 0 <= c < |pairs| && c % 2 == 1
      ensures pairs[c] == Flip(pairs[c - 1]) && rows[c] == rows[c - 1]
    {
      assert (c - 1) / 2 == c / 2;
    }
  }

  /** An identifier one past the signed 64-bit range makes the conversion
      fail, although every edge is readable. */
  lemma OutOfRangeIdentifierFails(props: AtomProps, a: EdgeAttrs)
    requires a.bondType.Some?
    ensures NxToPyg(Some(Graph([Node(IntKey(0), props), Node(IntKey(LongMax + 1), props)],
                               [Edge(IntKey(0), IntKey(LongMax + 1), a)])), "None", None).Failure?
  {
    var g := Graph([Node(IntKey(0), props), Node(IntKey(LongMax + 1), props)], [Edge(IntKey(0), IntKey(LongMax + 1), a)]);
    OneEdgeGraph(g);
    var view := EdgeView(g);
    assert view[0] in view;
    assert !LongIds(view[0]);
  }

  /** A graph of two nodes joined by one edge is well formed. */
  lemma OneEdgeGraph(g: Graph)
    requires |g.nodes| == 2 && |g.edges| == 1 && g.nodes[0].key != g.nodes[1].key
    requires g.edges[0].u == g.nodes[0].key && g.edges[0].v == g.nodes[1].key
    ensures WellFormed(g)
  {
    assert SeenBefore(g.nodes, 2, g.edges[0].u) && SeenBefore(g.nodes, 2, g.edges[0].v);
  }

  /** In a well-formed graph the converter emits exactly two columns and two
      rows per edge of the graph. */
  lemma NxToPygEdgeCount(g: Graph, smiles: string, mol: Option<Mol>)
    requires WellFormed(g) && |g.nodes| > 0 && |g.edges| > 0
    requires NxToPyg(Some(g), smiles, mol).Success?
    ensures var d := NxToPyg(Some(g), smiles, mol).value;
      && |d.edgeIndex| == 2
      && |d.edgeIndex[0]| == 2 * |g.edges| && |d.edgeIndex[1]| == 2 * |g.edges|
      && |d.edgeAttr| == 2 * |g.edges|
  {
  }

  /** The named edge attributes `smiles_to_nx` stores for a bond. */
  function BondAttrs(b: Bond): EdgeAttrs
  {
    EdgeAttrs(Some(b.bondType.name), b.stereo, b.isConjugated, b.isAromatic, b.isInRing)
  }

  /** The edge of bond `b` in a molecule's graph. */
  function BondEdge(b: Bond): Edge
  {
    Edge(IntKey(b.begin), IntKey(b.end), BondAttrs(b))
  }

  /** `smiles_to_nx`: `None` when the toolkit rejects the string; otherwise
      one node per atom, keyed by its index, and one undirected edge per
      bond carrying the bond's named attributes. */
  function SmilesToNx(parsed: Option<Mol>): (g: Option<Graph>)
    requires parsed.Some? ==> ValidMol(parsed.value)
    ensures parsed.None? <==> g.None?
    ensures g.Some? ==>
      && WellFormed(g.value)
      && |g.value.nodes| == |parsed.value.atoms|
      && |g.value.edges| == |parsed.value.bonds|
      && (forall k :: 0 <= k < |g.value.nodes| ==> g.value.nodes[k] == Node(IntKey(k), parsed.value.atoms[k].props))
      && (forall k :: 0 <= k < |g.value.edges| ==>
            g.value.edges[k] == Edge(IntKey(parsed.value.bonds[k].begin), IntKey(parsed.value.bonds[k].end), BondAttrs(parsed.value.bonds[k])))
  {
    match parsed
    case None => None
    case Some(m) =>
      var nodes := seq(|m.atoms|, k requires 0 <= k < |m.atoms| => Node(IntKey(m.atoms[k].idx), m.atoms[k].props));
      var edges := seq(|m.bonds|, k requires 0 <= k < |m.bonds| =>
        Edge(IntKey(m.bonds[k].begin), IntKey(m.bonds[k].end), BondAttrs(m.bonds[k])));
      assert forall k :: 0 <= k < |m.bonds| ==>
        nodes[m.bonds[k].begin].key == edges[k].u && nodes[m.bonds[k].end].key == edges[k].v;
      Some(Graph(nodes, edges))
  }

  /** Column `c` of a converted graph joins the atoms of bond `b`, in one
      direction or the other, and its row is the row of `b`. */
  predicate CarriesBond(d: PygData, c: nat, b: Bond)
  {
    && |d.edgeIndex| == 2 && c < |d.edgeIndex[0]| && c < |d.edgeIndex[1]| && c < |d.edgeAttr|
    && d.edgeAttr[c] == EdgeRow(BondAttrs(b))
    && (Column(d.edgeIndex, c) == DirectedPair(b, true) || Column(d.edgeIndex, c) == DirectedPair(b, false))
  }

  /** Some bond of `bonds` is carried by column `c`. */
  predicate ColumnFromBonds(d: PygData, c: nat, bonds: seq<Bond>)
  {
    exists k :: 0 <= k < |bonds| && CarriesBond(d, c, bonds[k])
  }

  /** Each edge networkx reports for a molecule's graph is one of its bonds. */
  lemma ReportedBond(m: Mol, j: nat) returns (k: nat)
    requires ValidMol(m) && j < |EdgeView(SmilesToNx(Some(m)).value)|
    ensures k < |m.bonds|
    ensures Orients(EdgeView(SmilesToNx(Some(m)).value)[j], SmilesToNx(Some(m)).value.edges[k])
    ensures SmilesToNx(Some(m)).value.edges[k] == Edge(IntKey(m.bonds[k].begin), IntKey(m.bonds[k].end), BondAttrs(m.bonds[k]))
  {
    var g := SmilesToNx(Some(m)).value;
    var view := EdgeView(g);
    assert view[j] in view;
    var e :| e in g.edges && Orients(view[j], e);
    k :| 0 <= k < |g.edges| && g.edges[k] == e;
  }

  /** A reported edge orients at most one bond of a molecule, since no two
      bonds join the same pair of atoms. */
  lemma OrientsOneBond(m: Mol, x: Edge, a: nat, b: nat)
    requires ValidMol(m) && a < |m.bonds| && b < |m.bonds|
    requires Orients(x, BondEdge(m.bonds[a])) && Orients(x, BondEdge(m.bonds[b]))
    ensures a == b
  {
    assert Connects(m.bonds[b], m.bonds[a].begin, m.bonds[a].end);
    assert Connects(m.bonds[a], m.bonds[b].begin, m.bonds[b].end);
  }

  /** A value at two positions of a sequence occurs in it at least twice. */
  lemma CountTwo(s: seq<Edge>, i: nat, j: nat)
    requires i < j < |s| && s[i] == s[j]
    ensures multiset(s)[s[i]] >= 2
  {
    assert s == s[..i] + [s[i]] + s[i + 1..j] + [s[j]] + s[j + 1..];
  }

  /** A value at no other position of a sequence occurs in it once. */
  lemma CountOne(s: seq<Edge>, k: nat)
    requires k < |s| && forall a :: 0 <= a < |s| && a != k ==> s[a] != s[k]
    ensures multiset(s)[s[k]] == 1
  {
    var front, back := s[..k], s[k + 1..];
    assert s == front + [s[k]] + back;
    assert s[k] !in front by {
      forall a | 0 <= a < |front| ensures front[a] != s[k] { assert front[a] == s[a]; }
    }
    assert s[k] !in back by {
      forall a | 0 <= a < |back| ensures back[a] != s[k] { assert back[a] == s[k + 1 + a]; }
    }
  }

  /** networkx reports each bond of a molecule's graph at exactly one
      position. */
  lemma BondReportedOnce(m: Mol, k: nat) returns (j: nat)
    requires ValidMol(m) && k < |m.bonds|
    ensures var view := EdgeView(SmilesToNx(Some(m)).value);
      && j < |view| && Orients(view[j], BondEdge(m.bonds[k]))
      && forall i :: 0 <= i < |view| && Orients(view[i], BondEdge(m.bonds[k])) ==> i == j
  {
    var g := SmilesToNx(Some(m)).value;
    var view := EdgeView(g);
    assert g.edges[k] == BondEdge(m.bonds[k]);
    var oriented := EdgeViewPermutesEdges(g);
    forall a | 0 <= a < |oriented| && a != k
      ensures oriented[a] != oriented[k]
    {
      if oriented[a] == oriented[k] {
        OrientsOneBond(m, oriented[a], a, k);
      }
    }
    CountOne(oriented, k);
    assert oriented[k] in multiset(view);
    j :| 0 <= j < |view| && view[j] == oriented[k];
    forall i | 0 <= i < |view| && Orients(view[i], g.edges[k])
      ensures i == j
    {
      assert view[i] in multiset(oriented);
      var a :| 0 <= a < |oriented| && oriented[a] == view[i];
      OrientsOneBond(m, view[i], a, k);
      if i < j {
        CountTwo(view, i, j);
      } else if j < i {
        CountTwo(view, j, i);
      }
    }
  }

  /** Columns `2 j` and `2 j + 1` of a converted graph both carry bond `b`. */
  predicate CoupleOf(d: PygData, j: nat, b: Bond)
  {
    CarriesBond(d, 2 * j, b) && CarriesBond(d, 2 * j + 1, b)
  }

  /** Bond `b` is carried by exactly one of the first `n` couples. */
  predicate OneCoupleCarries(d: PygData, n: nat, b: Bond)
  {
    exists j :: 0 <= j < n && CoupleOf(d, j, b) && forall i :: 0 <= i < n && CoupleOf(d, i, b) ==> i == j
  }

  /** Each bond is carried by exactly one couple of columns. */
  predicate CouplesOneToOne(d: PygData, bonds: seq<Bond>)
  {
    forall k :: 0 <= k < |bonds| ==> OneCoupleCarries(d, |bonds|, bonds[k])
  }

  /** The graph path agrees with the structure-string path: for a molecule
      the toolkit returns, with at least one atom and one bond, converting
      its graph succeeds, gives the same node rows as the direct conversion,
      two columns per bond, and for each column a bond whose endpoints it
      joins and whose row it carries, its type collapsed to "is SINGLE";
      each bond is carried by exactly one couple of columns. Atom indices
      are identifiers, so they must fit `torch.LongTensor`. */
  lemma SmilesToNxToPyg(smiles: string, m: Mol)
    requires ValidMol(m) && |m.atoms| > 0 && |m.bonds| > 0 && smiles != "None"
    requires |m.atoms| - 1 <= LongMax
    ensures var r := NxToPyg(SmilesToNx(Some(m)), smiles, Some(m));
      && r.Success?
      && r.value.x == SmilesToPyg(smiles, Some(m)).x
      && |r.value.edgeAttr| == 2 * |m.bonds|
      && |r.value.edgeIndex| == 2 && |r.value.edgeIndex[0]| == 2 * |m.bonds| && |r.value.edgeIndex[1]| == 2 * |m.bonds|
      && (forall c :: 0 <= c < 2 * |m.bonds| ==> ColumnFromBonds(r.value, c, m.bonds))
      && CouplesOneToOne(r.value, m.bonds)
  {
    var g := SmilesToNx(Some(m)).value;
    var view := EdgeView(g);
    forall j | 0 <= j < |view|
      ensures Convertible(view[j]) && LongIds(view[j])
    {
      var k := ReportedBond(m, j);
    }
    var r := NxToPyg(Some(g), smiles, Some(m));
    assert r.Success?;
    var d := r.value;
    forall c | 0 <= c < 2 * |m.bonds|
      ensures ColumnFromBonds(d, c, m.bonds)
    {
      var k := ReportedBond(m, c / 2);
      assert CarriesBond(d, c, m.bonds[k]);
    }
    EachBondOneCouple(smiles, m);
    NodeRowsMatchAtoms(m, g);
  }

  /** `d`'s columns and rows are those the converter builds from `view`:
      couple `j`, columns `2 j` and `2 j + 1`, is reported edge `j` forwards
      and backwards, each with that edge's row. */
  predicate ViewColumns(d: PygData, view: seq<Edge>)
  {
    && (forall j :: 0 <= j < |view| ==> Convertible(view[j]))
    && |d.edgeIndex| == 2 && |d.edgeIndex[0]| == 2 * |view| && |d.edgeIndex[1]| == 2 * |view|
    && |d.edgeAttr| == 2 * |view|
    && forall j :: 0 <= j < |view| ==>
         && Column(d.edgeIndex, 2 * j) == IntPair(view[j], true)
         && Column(d.edgeIndex, 2 * j + 1) == IntPair(view[j], false)
         && d.edgeAttr[2 * j] == EdgeRow(view[j].attrs) && d.edgeAttr[2 * j + 1] == EdgeRow(view[j].attrs)
  }

  /** A converted graph with edges has the couples of its report. */
  lemma ConversionColumns(g: Graph, smiles: string, mol: Option<Mol>)
    requires |g.nodes| > 0 && |EdgeView(g)| > 0 && NxToPyg(Some(g), smiles, mol).Success?
    ensures ViewColumns(NxToPyg(Some(g), smiles, mol).value, EdgeView(g))
  {
    var view := EdgeView(g);
    var d := NxToPyg(Some(g), smiles, mol).value;
    forall j | 0 <= j < |view|
      ensures Convertible(view[j])
      ensures Column(d.edgeIndex, 2 * j) == IntPair(view[j], true)
      ensures Column(d.edgeIndex, 2 * j + 1) == IntPair(view[j], false)
      ensures d.edgeAttr[2 * j] == EdgeRow(view[j].attrs) && d.edgeAttr[2 * j + 1] == EdgeRow(view[j].attrs)
    {
      assert (2 * j) / 2 == j && (2 * j + 1) / 2 == j && (2 * j) % 2 == 0 && (2 * j + 1) % 2 == 1;
    }
  }

  /** Every reported edge orients some bond of `m`. */
  predicate ReportsBonds(view: seq<Edge>, m: Mol)
  {
    forall i :: 0 <= i < |view| ==> exists l :: 0 <= l < |m.bonds| && Orients(view[i], BondEdge(m.bonds[l]))
  }

  /** Exactly one position of `view` reports edge `e`. */
  predicate ReportedOnceIn(view: seq<Edge>, e: Edge)
  {
    exists j :: 0 <= j < |view| && Orients(view[j], e) && forall i :: 0 <= i < |view| && Orients(view[i], e) ==> i == j
  }

  /** Every bond of `m` is reported at exactly one position. */
  predicate BondsReportedOnce(view: seq<Edge>, m: Mol)
  {
    forall k :: 0 <= k < |m.bonds| ==> ReportedOnceIn(view, BondEdge(m.bonds[k]))
  }

  /** Every bond is the bond of exactly one couple of columns. */
  lemma EachBondOneCouple(smiles: string, m: Mol)
    requires ValidMol(m) && |m.atoms| > 0
    requires NxToPyg(SmilesToNx(Some(m)), smiles, Some(m)).Success?
    ensures CouplesOneToOne(NxToPyg(SmilesToNx(Some(m)), smiles, Some(m)).value, m.bonds)
  {
    if |m.bonds| > 0 {
      var g := SmilesToNx(Some(m)).value;
      var view := EdgeView(g);
      var d := NxToPyg(Some(g), smiles, Some(m)).value;
      assert |view| == |m.bonds| > 0;
      ConversionColumns(g, smiles, Some(m));
      MoleculeReportsBonds(m);
      MoleculeBondsReportedOnce(m);
      CouplesFromView(m, view, d);
    }
  }

  lemma MoleculeReportsBonds(m: Mol)
    requires ValidMol(m)
    ensures ReportsBonds(EdgeView(SmilesToNx(Some(m)).value), m)
  {
    var view := EdgeView(SmilesToNx(Some(m)).value);
    forall i | 0 <= i < |view|
      ensures exists l :: 0 <= l < |m.bonds| && Orients(view[i], BondEdge(m.bonds[l]))
    {
      var l := ReportedBond(m, i);
    }
  }

  lemma MoleculeBondsReportedOnce(m: Mol)
    requires ValidMol(m)
    ensures BondsReportedOnce(EdgeView(SmilesToNx(Some(m)).value), m)
  {
    var view := EdgeView(SmilesToNx(Some(m)).value);
    forall k | 0 <= k < |m.bonds|
      ensures ReportedOnceIn(view, BondEdge(m.bonds[k]))
    {
      var j := BondReportedOnce(m, k);
    }
  }

  /** When every bond is reported at exactly one position and every report
      is a bond, every bond has exactly one couple of columns. */
  lemma CouplesFromView(m: Mol, view: seq<Edge>, d: PygData)
    requires ValidMol(m) && |view| == |m.bonds|
    requires ViewColumns(d, view) && ReportsBonds(view, m) && BondsReportedOnce(view, m)
    ensures CouplesOneToOne(d, m.bonds)
  {
    forall k | 0 <= k < |m.bonds|
      ensures OneCoupleCarries(d, |m.bonds|, m.bonds[k])
    {
      var j := CoupleOfBond(m, view, d, k);
    }
  }

  lemma CoupleOfBond(m: Mol, view: seq<Edge>, d: PygData, k: nat) returns (j: nat)
    requires ValidMol(m) && |view| == |m.bonds| && k < |m.bonds|
    requires ViewColumns(d, view) && ReportsBonds(view, m) && BondsReportedOnce(view, m)
    ensures j < |m.bonds| && CoupleOf(d, j, m.bonds[k])
    ensures forall i :: 0 <= i < |m.bonds| && CoupleOf(d, i, m.bonds[k]) ==> i == j
  {
    j :| 0 <= j < |view| && Orients(view[j], BondEdge(m.bonds[k]))
         && forall i :: 0 <= i < |view| && Orients(view[i], BondEdge(m.bonds[k])) ==> i == j;
    CoupleOfReport(view, d, j, m.bonds[k]);
    forall i | 0 <= i < |m.bonds| && CoupleOf(d, i, m.bonds[k])
      ensures i == j
    {
      CoupleIsReport(m, view, d, i, k);
    }
  }

  /** A couple carrying bond `k` comes from a report of bond `k`. */
  lemma CoupleIsReport(m: Mol, view: seq<Edge>, d: PygData, i: nat, k: nat)
    requires ValidMol(m) && ViewColumns(d, view) && ReportsBonds(view, m)
    requires i < |view| && k < |m.bonds| && CoupleOf(d, i, m.bonds[k])
    ensures Orients(view[i], BondEdge(m.bonds[k]))
  {
    var l :| 0 <= l < |m.bonds| && Orients(view[i], BondEdge(m.bonds[l]));
    CarriedBondIsReported(m, view[i], d, 2 * i, k, l);
  }

  /** A reported edge that orients bond `b` gives a couple carrying `b`. */
  lemma CoupleOfReport(view: seq<Edge>, d: PygData, j: nat, b: Bond)
    requires ViewColumns(d, view) && j < |view| && Orients(view[j], BondEdge(b))
    ensures CoupleOf(d, j, b)
  {
    assert Convertible(view[j]);
    assert Column(d.edgeIndex, 2 * j) == IntPair(view[j], true);
  }

  /** If column `c` comes from reported edge `x`, which orients bond `l`,
      and the column carries bond `k`, then `k` is `l`. */
  lemma CarriedBondIsReported(m: Mol, x: Edge, d: PygData, c: nat, k: nat, l: nat)
    requires ValidMol(m) && k < |m.bonds| && l < |m.bonds|
    requires Convertible(x) && Orients(x, BondEdge(m.bonds[l]))
    requires |d.edgeIndex| == 2 && c < |d.edgeIndex[0]| && c < |d.edgeIndex[1]|
    requires Column(d.edgeIndex, c) == IntPair(x, true) || Column(d.edgeIndex, c) == IntPair(x, false)
    requires CarriesBond(d, c, m.bonds[k])
    ensures k == l
  {
    assert Connects(m.bonds[k], m.bonds[l].begin, m.bonds[l].end);
    assert Connects(m.bonds[l], m.bonds[k].begin, m.bonds[k].end);
  }

  lemma NodeRowsMatchAtoms(m: Mol, g: Graph)
    requires ValidMol(m) && SmilesToNx(Some(m)) == Some(g)
    ensures NodeRows(g.nodes) == AtomRows(m.atoms)
  {
  }
}
