/** Graphs made from molecules, saved as graph files and loaded back.
    Saving turns integer node identifiers into their decimal text, and
    loading keeps them as text; the tensor converter turns them back into
    integers. Because the renaming is one to one, networkx reports the same
    edges in the same order, so a loaded file converts to exactly the
    tensors of the graph that was saved. */
module GraphRoundTrip {
  import opened Wrappers
  import opened Molecule
  import opened TensorGraph
  import opened IntText
  import opened NxGraph
  import opened GraphFile

  /** A node identifier after saving and loading. */
  function RenameKey(k: NodeKey): NodeKey
  {
    StrKey(KeyText(k))
  }

  function RenameEdge(e: Edge): Edge
  {
    Edge(RenameKey(e.u), RenameKey(e.v), e.attrs)
  }

  function RenameEdges(es: seq<Edge>): (r: seq<Edge>)
    ensures |r| == |es|
    ensures forall k :: 0 <= k < |es| ==> r[k] == RenameEdge(es[k])
  {
    seq(|es|, k requires 0 <= k < |es| => RenameEdge(es[k]))
  }

  /** Every node of the graph and every end of every edge is an integer. */
  predicate IntKeyed(g: Graph)
  {
    && (forall p :: 0 <= p < |g.nodes| ==> g.nodes[p].key.IntKey?)
    && (forall k :: 0 <= k < |g.edges| ==> g.edges[k].u.IntKey? && g.edges[k].v.IntKey?)
  }

  predicate IntEnds(es: seq<Edge>)
  {
    forall k :: 0 <= k < |es| ==> es[k].u.IntKey? && es[k].v.IntKey?
  }

  /** `tnodes` is `nodes` with every identifier renamed. */
  predicate RenamedNodes(nodes: seq<Node>, tnodes: seq<Node>)
  {
    && |tnodes| == |nodes|
    && forall q :: 0 <= q < |nodes| ==> tnodes[q].key == RenameKey(nodes[q].key)
  }

  predicate IntNodes(nodes: seq<Node>)
  {
    forall q :: 0 <= q < |nodes| ==> nodes[q].key.IntKey?
  }

  /** Distinct integers get distinct text. */
  lemma RenameKeyInjective(a: NodeKey, b: NodeKey)
    requires a.IntKey? && b.IntKey?
    ensures RenameKey(a) == RenameKey(b) <==> a == b
  {
    IntToStringInjective(a.n, b.n);
  }

  lemma SeenBeforeRenamed(nodes: seq<Node>, tnodes: seq<Node>, p: nat, k: NodeKey)
    requires RenamedNodes(nodes, tnodes) && IntNodes(nodes) && k.IntKey? && p <= |nodes|
    ensures SeenBefore(tnodes, p, RenameKey(k)) <==> SeenBefore(nodes, p, k)
  {
    if SeenBefore(tnodes, p, RenameKey(k)) {
      var q :| 0 <= q < p && tnodes[q].key == RenameKey(k);
      RenameKeyInjective(nodes[q].key, k);
    }
  }

  /** A node reports the renamed edge exactly as it reported the edge. */
  lemma ReportRenamed(nodes: seq<Node>, tnodes: seq<Node>, p: nat, e: Edge)
    requires RenamedNodes(nodes, tnodes) && IntNodes(nodes) && e.u.IntKey? && e.v.IntKey? && p < |nodes|
    ensures Report(tnodes, p, RenameEdge(e)) == RenameEdges(Report(nodes, p, e))
  {
    var n := nodes[p].key;
    RenameKeyInjective(e.u, n);
    RenameKeyInjective(e.v, n);
    SeenBeforeRenamed(nodes, tnodes, p, e.u);
    SeenBeforeRenamed(nodes, tnodes, p, e.v);
  }

  lemma RenameEdgesConcat(a: seq<Edge>, b: seq<Edge>)
    ensures RenameEdges(a + b) == RenameEdges(a) + RenameEdges(b)
  {
  }

  lemma {:induction false} IncidentRenamed(nodes: seq<Node>, tnodes: seq<Node>, p: nat, es: seq<Edge>)
    requires RenamedNodes(nodes, tnodes) && IntNodes(nodes) && IntEnds(es) && p < |nodes|
    ensures Incident(tnodes, p, RenameEdges(es)) == RenameEdges(Incident(nodes, p, es))
  {
    if |es| > 0 {
      var init := es[..|es| - 1];
      var e := es[|es| - 1];
      var tes := RenameEdges(es);
      assert tes[..|tes| - 1] == RenameEdges(init);
      IncidentRenamed(nodes, tnodes, p, init);
      ReportRenamed(nodes, tnodes, p, e);
      RenameEdgesConcat(Incident(nodes, p, init), Report(nodes, p, e));
    }
  }

  lemma {:induction false} EdgesFromRenamed(nodes: seq<Node>, tnodes: seq<Node>, es: seq<Edge>, p: nat)
    requires RenamedNodes(nodes, tnodes) && IntNodes(nodes) && IntEnds(es)
    ensures EdgesFrom(tnodes, RenameEdges(es), p) == RenameEdges(EdgesFrom(nodes, es, p))
    decreases |nodes| - p
  {
    if p < |nodes| {
      var inc := Incident(nodes, p, es);
      IncidentRenamed(nodes, tnodes, p, es);
      IncidentIntFarEnds(nodes, p, es);
      GroupRenamed(inc);
      EdgesFromRenamed(nodes, tnodes, es, p + 1);
      RenameEdgesConcat(Group(inc), EdgesFrom(nodes, es, p + 1));
    }
  }

  /** Every edge leads to an integer identifier. */
  predicate IntFarEnds(r: seq<Edge>)
  {
    forall x :: x in r ==> x.v.IntKey?
  }

  /** The edges a node reports in an integer-keyed graph lead to integers. */
  lemma IncidentIntFarEnds(nodes: seq<Node>, p: nat, es: seq<Edge>)
    requires IntEnds(es) && p < |nodes|
    ensures IntFarEnds(Incident(nodes, p, es))
  {
    IncidentFromEdges(nodes, p, es);
    forall x | x in Incident(nodes, p, es)
      ensures x.v.IntKey?
    {
      var e :| e in es && Orients(x, e);
      var k :| 0 <= k < |es| && es[k] == e;
    }
  }

  lemma IntFarEndsTail(r: seq<Edge>)
    requires IntFarEnds(r) && |r| > 0
    ensures r[0].v.IntKey? && IntFarEnds(r[1..]) && r == [r[0]] + r[1..]
  {
    assert r[0] in r;
    forall y | y in r[1..]
      ensures y.v.IntKey?
    {
      assert y in r;
    }
  }

  lemma RenameCons(x: Edge, tail: seq<Edge>)
    ensures RenameEdges([x] + tail) == [RenameEdge(x)] + RenameEdges(tail)
  {
    RenameEdgesConcat([x], tail);
  }

  /** Renaming commutes with picking the edges toward one node. */
  lemma {:induction false} TowardRenamed(r: seq<Edge>, w: NodeKey)
    requires IntFarEnds(r) && w.IntKey?
    ensures Toward(RenameEdges(r), RenameKey(w)) == RenameEdges(Toward(r, w))
  {
    if |r| > 0 {
      var x, tail := r[0], r[1..];
      var tw := RenameKey(w);
      IntFarEndsTail(r);
      RenameKeyInjective(x.v, w);
      TowardRenamed(tail, w);
      RenameCons(x, tail);
      FilterStep(x, tail, w);
      FilterStep(RenameEdge(x), RenameEdges(tail), tw);
      if x.v == w {
        assert RenameEdge(x).v == tw;
        assert Toward(r, w) == [x] + Toward(tail, w);
        RenameCons(x, Toward(tail, w));
        assert Toward(RenameEdges(r), tw) == [RenameEdge(x)] + Toward(RenameEdges(tail), tw);
      } else {
        assert RenameEdge(x).v != tw;
        assert Toward(r, w) == Toward(tail, w);
        assert Toward(RenameEdges(r), tw) == Toward(RenameEdges(tail), tw);
      }
    }
  }

  /** Renaming commutes with dropping the edges toward one node. */
  lemma {:induction false} AwayRenamed(r: seq<Edge>, w: NodeKey)
    requires IntFarEnds(r) && w.IntKey?
    ensures Away(RenameEdges(r), RenameKey(w)) == RenameEdges(Away(r, w))
  {
    if |r| > 0 {
      var x, tail := r[0], r[1..];
      var tw := RenameKey(w);
      IntFarEndsTail(r);
      RenameKeyInjective(x.v, w);
      AwayRenamed(tail, w);
      RenameCons(x, tail);
      FilterStep(x, tail, w);
      FilterStep(RenameEdge(x), RenameEdges(tail), tw);
      if x.v != w {
        assert RenameEdge(x).v != tw;
        assert Away(r, w) == [x] + Away(tail, w);
        RenameCons(x, Away(tail, w));
        assert Away(RenameEdges(r), tw) == [RenameEdge(x)] + Away(RenameEdges(tail), tw);
      } else {
        assert RenameEdge(x).v == tw;
        assert Away(r, w) == Away(tail, w);
        assert Away(RenameEdges(r), tw) == Away(RenameEdges(tail), tw);
      }
    }
  }

  /** Renaming commutes with the grouping of parallel edges, because it
      keeps distinct identifiers distinct. */
  lemma {:induction false} GroupRenamed(r: seq<Edge>)
    requires IntFarEnds(r)
    ensures Group(RenameEdges(r)) == RenameEdges(Group(r))
    decreases |r|
  {
    if |r| > 0 {
      var w := r[0].v;
      assert r[0] in r;
      var tr := RenameEdges(r);
      assert tr[0].v == RenameKey(w);
      TowardRenamed(r, w);
      AwayRenamed(r, w);
      GroupRenamed(Away(r, w));
      RenameEdgesConcat(Toward(r, w), Group(Away(r, w)));
      assert Group(tr) == Toward(tr, RenameKey(w)) + Group(Away(tr, RenameKey(w)));
      assert Group(r) == Toward(r, w) + Group(Away(r, w));
    }
  }

  /** networkx reports the edges of the loaded graph in the order it reports
      those of the saved one, each with its identifiers renamed. */
  lemma EdgeViewRenamed(g: Graph)
    requires IntKeyed(g)
    ensures EdgeView(TextKeys(g)) == RenameEdges(EdgeView(g))
  {
    var t := TextKeys(g);
    assert t.edges == RenameEdges(g.edges);
    EdgesFromRenamed(g.nodes, t.nodes, g.edges, 0);
  }

  /** The edges networkx reports for an integer-keyed graph have integer ends. */
  lemma EdgeViewIntEnds(g: Graph)
    requires IntKeyed(g)
    ensures IntEnds(EdgeView(g))
  {
    var view := EdgeView(g);
    forall k | 0 <= k < |view|
      ensures view[k].u.IntKey? && view[k].v.IntKey?
    {
      assert view[k] in view;
      var e :| e in g.edges && Orients(view[k], e);
    }
  }

  /** The tensor converter reads a renamed identifier back as the integer it was. */
  lemma KeyToIntRenamed(k: NodeKey)
    requires k.IntKey?
    ensures KeyToInt(RenameKey(k)) == KeyToInt(k)
  {
    ParseIntToString(k.n);
  }

  /** The edge loop of the converter gives the same columns and rows, or
      the same error, on renamed edges. */
  lemma {:induction false} EdgeEntriesRenamed(view: seq<Edge>)
    requires IntEnds(view)
    ensures EdgeEntries(RenameEdges(view)) == EdgeEntries(view)
  {
    if |view| > 0 {
      var init := view[..|view| - 1];
      var tview := RenameEdges(view);
      assert tview[..|tview| - 1] == RenameEdges(init);
      EdgeEntriesRenamed(init);
      LastEdgeRenamed(view[|view| - 1]);
    }
  }

  /** The last step of the edge loop acts alike on an edge and its renaming. */
  lemma LastEdgeRenamed(e: Edge)
    requires e.u.IntKey? && e.v.IntKey?
    ensures Convertible(RenameEdge(e)) == Convertible(e)
    ensures Convertible(e) ==>
      IntPair(RenameEdge(e), true) == IntPair(e, true) && IntPair(RenameEdge(e), false) == IntPair(e, false)
  {
    KeyToIntRenamed(e.u);
    KeyToIntRenamed(e.v);
  }

  /** Renaming integer identifiers to their text does not change the
      converted tensors. */
  lemma NxToPygRenamed(g: Graph, smiles: string, mol: Option<Mol>)
    requires IntKeyed(g)
    ensures NxToPyg(Some(TextKeys(g)), smiles, mol) == NxToPyg(Some(g), smiles, mol)
  {
    var t := TextKeys(g);
    if |g.nodes| > 0 {
      EdgeViewRenamed(g);
      EdgeViewIntEnds(g);
      EdgeEntriesRenamed(EdgeView(g));
      assert EdgeEntries(EdgeView(t)) == EdgeEntries(EdgeView(g));
      assert NodeRows(t.nodes) == NodeRows(g.nodes);
    }
  }

  /** A saved integer-keyed graph, loaded back, converts to the tensors of
      the graph itself. */
  lemma SavedGraphConvertsAlike(g: Graph)
    requires IntKeyed(g)
    ensures NxToPyg(LoadGraphml(Some(WriteGraph(g))), "None", None) == NxToPyg(Some(g), "None", None)
  {
    WriteThenLoad(g);
    NxToPygRenamed(g, "None", None);
  }

  /** The whole cache path: the graph file saved for a molecule is stored by
      the directory loader as the converted graph of that molecule. */
  lemma MoleculeFileConvertsAlike(m: Mol, name: string)
    requires ValidMol(m)
    ensures Convert(DirEntry(name, Some(WriteGraph(SmilesToNx(Some(m)).value))))
         == NxToPyg(SmilesToNx(Some(m)), "None", None)
  {
    var g := SmilesToNx(Some(m)).value;
    assert IntKeyed(g);
    SavedGraphConvertsAlike(g);
  }
}
