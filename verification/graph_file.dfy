/** Graph files: `load_graphml`, which re-types the text attributes of a
    graph read from a file and fills defaults for missing ones, and
    `load_graph`, which converts every graph file of a directory and keys
    the results by file stem. Reading and parsing the file is the graph
    library's work: its outcome is an input, `None` when reading fails, and
    otherwise the nodes and edges with their attributes as text. */
module GraphFile {
  import opened Wrappers
  import opened Molecule
  import opened Features
  import opened TensorGraph
  import opened IntText
  import opened NxGraph

  /** The attributes of one node or edge, as the file stores them. */
  type Bag = map<string, string>

  datatype RawNode = RawNode(id: string, bag: Bag)

  datatype RawEdge = RawEdge(u: string, v: string, bag: Bag)

  /** A graph as the graph library returns it from a file: each node once,
      in the order the library keeps its nodes, and the edges in the order
      the library stores them. */
  datatype RawGraph = RawGraph(nodes: seq<RawNode>, edges: seq<RawEdge>)

  /** `int(data.get(key, 0))`: 0 when the attribute is missing, `None` when
      the stored text is not an integer. */
  function IntField(bag: Bag, key: string): (r: Option<int>)
    ensures key !in bag ==> r == Some(0)
    ensures key in bag ==> r == ParseInt(bag[key])
  {
    if key in bag then ParseInt(bag[key]) else Some(0)
  }

  /** `data.get(key, "False") == "True"`: true exactly when the stored text is "True". */
  function FlagField(bag: Bag, key: string): (r: bool)
    ensures r <==> key in bag && bag[key] == "True"
  {
    (if key in bag then bag[key] else "False") == "True"
  }

  /** Every integer attribute of node `n` that is present holds an integer. */
  predicate NodeLoads(n: RawNode)
  {
    && IntField(n.bag, "atomic_num").Some?
    && IntField(n.bag, "degree").Some?
    && IntField(n.bag, "num_implicit_h").Some?
    && IntField(n.bag, "explicit_valence").Some?
    && IntField(n.bag, "implicit_valence").Some?
    && IntField(n.bag, "total_valence").Some?
    && IntField(n.bag, "num_radical_e").Some?
    && IntField(n.bag, "hybridization").Some?
  }

  predicate EdgeLoads(e: RawEdge)
  {
    IntField(e.bag, "stereo").Some?
  }

  /** A node keyed by its text identifier. Each of its eight integer
      fields is the stored integer, or 0 when none is stored; its flags hold
      exactly when the stored text is "True". */
  function LoadNode(n: RawNode): (r: Node)
    requires NodeLoads(n)
    ensures r.key == StrKey(n.id)
    ensures r.attrs.atomicNum == IntField(n.bag, "atomic_num").value
    ensures r.attrs.degree == IntField(n.bag, "degree").value
    ensures r.attrs.numImplicitHs == IntField(n.bag, "num_implicit_h").value
    ensures r.attrs.explicitValence == IntField(n.bag, "explicit_valence").value
    ensures r.attrs.implicitValence == IntField(n.bag, "implicit_valence").value
    ensures r.attrs.totalValence == IntField(n.bag, "total_valence").value
    ensures r.attrs.numRadicalElectrons == IntField(n.bag, "num_radical_e").value
    ensures r.attrs.hybridization == IntField(n.bag, "hybridization").value
    ensures r.attrs.isAromatic <==> "is_aromatic" in n.bag && n.bag["is_aromatic"] == "True"
    ensures r.attrs.isInRing <==> "in_ring" in n.bag && n.bag["in_ring"] == "True"
  {
    var b := n.bag;
    Node(StrKey(n.id), AtomProps(
      IntField(b, "atomic_num").value,
      IntField(b, "degree").value,
      IntField(b, "num_implicit_h").value,
      IntField(b, "explicit_valence").value,
      IntField(b, "implicit_valence").value,
      IntField(b, "total_valence").value,
      IntField(b, "num_radical_e").value,
      IntField(b, "hybridization").value,
      FlagField(b, "is_aromatic"),
      FlagField(b, "in_ring")))
  }

  /** An edge's bond type is kept as stored, and missing when not stored. */
  function LoadEdge(e: RawEdge): (r: Edge)
    requires EdgeLoads(e)
    ensures r.u == StrKey(e.u) && r.v == StrKey(e.v)
    ensures r.attrs.bondType.Some? <==> "bond_type" in e.bag
    ensures r.attrs.bondType.Some? ==> r.attrs.bondType.value == e.bag["bond_type"]
    ensures r.attrs.stereo == IntField(e.bag, "stereo").value
    ensures r.attrs.isConjugated <==> "is_conjugated" in e.bag && e.bag["is_conjugated"] == "True"
    ensures r.attrs.isAromatic <==> "is_aromatic" in e.bag && e.bag["is_aromatic"] == "True"
    ensures r.attrs.isInRing <==> "in_ring" in e.bag && e.bag["in_ring"] == "True"
  {
    var b := e.bag;
    Edge(StrKey(e.u), StrKey(e.v), EdgeAttrs(
      if "bond_type" in b then Some(b["bond_type"]) else None,
      IntField(b, "stereo").value,
      FlagField(b, "is_conjugated"),
      FlagField(b, "is_aromatic"),
      FlagField(b, "in_ring")))
  }

  /** Every node and every edge of the file loads. */
  predicate AllLoad(raw: RawGraph)
  {
    && (forall k :: 0 <= k < |raw.nodes| ==> NodeLoads(raw.nodes[k]))
    && (forall k :: 0 <= k < |raw.edges| ==> EdgeLoads(raw.edges[k]))
  }

  /** `load_graphml`: `None` when reading fails or any stored integer
      attribute is not an integer (the exception is caught); otherwise the
      same nodes and edges in the same order, every missing attribute
      filled with its default. */
  function LoadGraphml(file: Option<RawGraph>): (r: Option<Graph>)
    ensures file.None? ==> r.None?
    ensures file.Some? ==>
      (r.Some? <==> AllLoad(file.value))
    ensures r.Some? ==>
      && |r.value.nodes| == |file.value.nodes| && |r.value.edges| == |file.value.edges|
      && (forall k :: 0 <= k < |file.value.nodes| ==> r.value.nodes[k] == LoadNode(file.value.nodes[k]))
      && (forall k :: 0 <= k < |file.value.edges| ==> r.value.edges[k] == LoadEdge(file.value.edges[k]))
  {
    match file
    case None => None
    case Some(raw) =>
      if AllLoad(raw) then
        Some(Graph(
          seq(|raw.nodes|, k requires 0 <= k < |raw.nodes| => LoadNode(raw.nodes[k])),
          seq(|raw.edges|, k requires 0 <= k < |raw.edges| => LoadEdge(raw.edges[k]))))
      else None
  }

  /** Filling defaults is total: a node that stores no attributes loads as
      all zeros and false, and an edge that stores none loads with stereo 0,
      false flags and no bond type. */
  lemma DefaultsForEmptyBags(id: string, u: string, v: string)
    ensures NodeLoads(RawNode(id, map[]))
    ensures AtomRow(LoadNode(RawNode(id, map[])).attrs) == ZeroAtomRow
    ensures EdgeLoads(RawEdge(u, v, map[]))
    ensures LoadEdge(RawEdge(u, v, map[])).attrs == EdgeAttrs(None, 0, false, false, false)
  {
  }

  // ----- Writing: the persisted form the reader above consumes -----

  function BoolText(b: bool): string
  {
    if b then "True" else "False"
  }

  /** A node identifier as text. */
  function KeyText(k: NodeKey): string
  {
    match k
    case IntKey(n) => IntToString(n)
    case StrKey(s) => s
  }

  /** Every node field under its name: numbers in decimal, flags as "True"/"False". */
  function NodeBag(p: AtomProps): Bag
  {
    map["atomic_num" := IntToString(p.atomicNum),
        "degree" := IntToString(p.degree),
        "num_implicit_h" := IntToString(p.numImplicitHs),
        "explicit_valence" := IntToString(p.explicitValence),
        "implicit_valence" := IntToString(p.implicitValence),
        "total_valence" := IntToString(p.totalValence),
        "num_radical_e" := IntToString(p.numRadicalElectrons),
        "hybridization" := IntToString(p.hybridization),
        "is_aromatic" := BoolText(p.isAromatic),
        "in_ring" := BoolText(p.isInRing)]
  }

  /** Every edge field under its name; the bond type only when there is one. */
  function EdgeBag(a: EdgeAttrs): Bag
  {
    var base := map["stereo" := IntToString(a.stereo),
                    "is_conjugated" := BoolText(a.isConjugated),
                    "is_aromatic" := BoolText(a.isAromatic),
                    "in_ring" := BoolText(a.isInRing)];
    if a.bondType.Some? then base["bond_type" := a.bondType.value] else base
  }

  function WriteGraph(g: Graph): RawGraph
  {
    RawGraph(
      seq(|g.nodes|, k requires 0 <= k < |g.nodes| => RawNode(KeyText(g.nodes[k].key), NodeBag(g.nodes[k].attrs))),
      seq(|g.edges|, k requires 0 <= k < |g.edges| =>
        RawEdge(KeyText(g.edges[k].u), KeyText(g.edges[k].v), EdgeBag(g.edges[k].attrs))))
  }

  /** A graph whose identifiers have all become text, as a file gives them back. */
  function TextKeys(g: Graph): Graph
  {
    Graph(
      seq(|g.nodes|, k requires 0 <= k < |g.nodes| => Node(StrKey(KeyText(g.nodes[k].key)), g.nodes[k].attrs)),
      seq(|g.edges|, k requires 0 <= k < |g.edges| =>
        Edge(StrKey(KeyText(g.edges[k].u)), StrKey(KeyText(g.edges[k].v)), g.edges[k].attrs)))
  }

  /** A written integer attribute reads back as itself. */
  lemma WrittenIntField(bag: Bag, key: string, n: int)
    requires key in bag && bag[key] == IntToString(n)
    ensures IntField(bag, key) == Some(n)
  {
    ParseIntToString(n);
  }

  lemma {:induction false} NodeRoundTrip(p: AtomProps, id: string)
    ensures NodeLoads(RawNode(id, NodeBag(p)))
    ensures LoadNode(RawNode(id, NodeBag(p))) == Node(StrKey(id), p)
  {
    var b := NodeBag(p);
    NodeBagIntFields(p);
    NodeBagFlags(p);
    WrittenIntField(b, "atomic_num", p.atomicNum);
    WrittenIntField(b, "degree", p.degree);
    WrittenIntField(b, "num_implicit_h", p.numImplicitHs);
    WrittenIntField(b, "explicit_valence", p.explicitValence);
    WrittenIntField(b, "implicit_valence", p.implicitValence);
    WrittenIntField(b, "total_valence", p.totalValence);
    WrittenIntField(b, "num_radical_e", p.numRadicalElectrons);
    WrittenIntField(b, "hybridization", p.hybridization);
  }

  lemma NodeBagIntFields(p: AtomProps)
    ensures var b := NodeBag(p);
      && "atomic_num" in b && b["atomic_num"] == IntToString(p.atomicNum)
      && "degree" in b && b["degree"] == IntToString(p.degree)
      && "num_implicit_h" in b && b["num_implicit_h"] == IntToString(p.numImplicitHs)
      && "explicit_valence" in b && b["explicit_valence"] == IntToString(p.explicitValence)
      && "implicit_valence" in b && b["implicit_valence"] == IntToString(p.implicitValence)
      && "total_valence" in b && b["total_valence"] == IntToString(p.totalValence)
      && "num_radical_e" in b && b["num_radical_e"] == IntToString(p.numRadicalElectrons)
      && "hybridization" in b && b["hybridization"] == IntToString(p.hybridization)
  {
    NodeBagCounts(p);
    NodeBagValences(p);
  }

  lemma NodeBagCounts(p: AtomProps)
    ensures var b := NodeBag(p);
      && "atomic_num" in b && b["atomic_num"] == IntToString(p.atomicNum)
      && "degree" in b && b["degree"] == IntToString(p.degree)
      && "num_implicit_h" in b && b["num_implicit_h"] == IntToString(p.numImplicitHs)
      && "explicit_valence" in b && b["explicit_valence"] == IntToString(p.explicitValence)
  {
  }

  lemma NodeBagValences(p: AtomProps)
    ensures var b := NodeBag(p);
      && "implicit_valence" in b && b["implicit_valence"] == IntToString(p.implicitValence)
      && "total_valence" in b && b["total_valence"] == IntToString(p.totalValence)
      && "num_radical_e" in b && b["num_radical_e"] == IntToString(p.numRadicalElectrons)
      && "hybridization" in b && b["hybridization"] == IntToString(p.hybridization)
  {
  }

  lemma NodeBagFlags(p: AtomProps)
    ensures FlagField(NodeBag(p), "is_aromatic") == p.isAromatic
    ensures FlagField(NodeBag(p), "in_ring") == p.isInRing
  {
  }

  lemma {:induction false} EdgeRoundTrip(a: EdgeAttrs, u: string, v: string)
    ensures EdgeLoads(RawEdge(u, v, EdgeBag(a)))
    ensures LoadEdge(RawEdge(u, v, EdgeBag(a))) == Edge(StrKey(u), StrKey(v), a)
  {
    var b := EdgeBag(a);
    EdgeBagFields(a);
    EdgeBagFlags(a);
    WrittenIntField(b, "stereo", a.stereo);
  }

  lemma EdgeBagFields(a: EdgeAttrs)
    ensures var b := EdgeBag(a);
      && "stereo" in b && b["stereo"] == IntToString(a.stereo)
      && ("bond_type" in b <==> a.bondType.Some?)
      && (a.bondType.Some? ==> b["bond_type"] == a.bondType.value)
  {
  }

  lemma EdgeBagFlags(a: EdgeAttrs)
    ensures FlagField(EdgeBag(a), "is_conjugated") == a.isConjugated
    ensures FlagField(EdgeBag(a), "is_aromatic") == a.isAromatic
    ensures FlagField(EdgeBag(a), "in_ring") == a.isInRing
  {
  }

  /** Writing a graph and reading it back gives the same graph, its
      identifiers turned to text. */
  lemma WriteThenLoad(g: Graph)
    ensures LoadGraphml(Some(WriteGraph(g))) == Some(TextKeys(g))
  {
    var raw := WriteGraph(g);
    forall k | 0 <= k < |raw.nodes|
      ensures NodeLoads(raw.nodes[k]) && LoadNode(raw.nodes[k]) == TextKeys(g).nodes[k]
    {
      NodeRoundTrip(g.nodes[k].attrs, KeyText(g.nodes[k].key));
    }
    forall k | 0 <= k < |raw.edges|
      ensures EdgeLoads(raw.edges[k]) && LoadEdge(raw.edges[k]) == TextKeys(g).edges[k]
    {
      EdgeRoundTrip(g.edges[k].attrs, KeyText(g.edges[k].u), KeyText(g.edges[k].v));
    }
    assert AllLoad(raw);
    var r := LoadGraphml(Some(raw)).value;
    assert r.nodes == TextKeys(g).nodes;
    assert r.edges == TextKeys(g).edges;
  }

  // ----- The directory loader -----

  /** `name.endswith(".graphml")`. */
  predicate IsGraphmlName(name: string)
  {
    |name| >= 8 && name[|name| - 8..] == ".graphml"
  }

  /** The index of the last '.' of `s`, or -1 when there is none. */
  function LastDot(s: string): (d: int)
    ensures -1 <= d < |s|
    ensures d >= 0 ==> s[d] == '.'
    ensures forall k :: d < k < |s| ==> s[k] != '.'
  {
    if |s| == 0 then -1
    else if s[|s| - 1] == '.' then |s| - 1
    else LastDot(s[..|s| - 1])
  }

  predicate AllDots(s: string)
  {
    forall k :: 0 <= k < |s| ==> s[k] == '.'
  }

  /** `os.path.splitext(name)[0]` for a file name without separators: the
      name without its last extension, where a dot that only leading dots
      precede does not start an extension. */
  function Stem(name: string): (r: string)
    ensures |r| <= |name| && r == name[..|r|]
    ensures |r| < |name| ==> name[|r|] == '.' && !AllDots(r)
    ensures |r| < |name| ==> forall k :: |r| < k < |name| ==> name[k] != '.'
  {
    var d := LastDot(name);
    if d < 0 || AllDots(name[..d]) then name else name[..d]
  }

  /** The stem of `base + ".graphml"` is `base`, unless `base` is nothing
      but dots, in which case the whole name is its own stem. */
  lemma StemOfGraphml(base: string)
    ensures IsGraphmlName(base + ".graphml")
    ensures !AllDots(base) ==> Stem(base + ".graphml") == base
    ensures AllDots(base) ==> Stem(base + ".graphml") == base + ".graphml"
  {
    var name := base + ".graphml";
    assert name[|name| - 8..] == ".graphml";
    var d := LastDot(name);
    assert name[|base|] == '.';
    assert d == |base|;
    assert name[..d] == base;
  }

  /** A directory entry: a file name and what reading it as a graph gives. */
  datatype DirEntry = DirEntry(name: string, contents: Option<RawGraph>)

  /** What `load_graph` stores for one graph file: the placeholder when the
      file cannot be read or holds a non-integer where an integer belongs,
      since `load_graphml` then gives `None`; only a loaded graph with nodes
      can make the conversion raise. */
  function Convert(f: DirEntry): (r: Result<PygData>)
    ensures f.contents.None? ==> r == Success(EmptyGraphData)
    ensures f.contents.Some? && !AllLoad(f.contents.value) ==> r == Success(EmptyGraphData)
    ensures r.Failure? ==> f.contents.Some? && AllLoad(f.contents.value) && |f.contents.value.nodes| > 0
  {
    NxToPyg(LoadGraphml(f.contents), "None", None)
  }

  /** The loop of `load_graph`, with the conversion of one entry as a
      parameter: every `.graphml` entry, in listing order, is converted and
      stored under its stem, a later entry replacing an earlier one with the
      same stem. The first conversion that fails ends the whole loop. */
  function StoreGraphs(dir: seq<DirEntry>, convert: DirEntry -> Result<PygData>): (r: Result<map<string, PygData>>)
    ensures r.Success? <==> forall k :: 0 <= k < |dir| && IsGraphmlName(dir[k].name) ==> convert(dir[k]).Success?
  {
    if |dir| == 0 then Success(map[])
    else
      var init := dir[..|dir| - 1];
      var f := dir[|dir| - 1];
      assert forall k :: 0 <= k < |init| ==> init[k] == dir[k];
      match StoreGraphs(init, convert)
      case Failure(err) => Failure(err)
      case Success(m) =>
        if !IsGraphmlName(f.name) then Success(m)
        else
          match convert(f)
          case Failure(err) => Failure(err)
          case Success(d) => Success(m[Stem(f.name) := d])
  }

  /** `load_graph`: every `.graphml` entry is loaded, converted and stored
      under its stem. A file that fails to load is still stored, as the
      placeholder graph. An exception from the conversion is not caught and
      ends the whole load, so the load succeeds exactly when every graph
      file converts. */
  function LoadGraph(dir: seq<DirEntry>): (r: Result<map<string, PygData>>)
    ensures r.Success? <==> forall k :: 0 <= k < |dir| && IsGraphmlName(dir[k].name) ==> Convert(dir[k]).Success?
  {
    StoreGraphs(dir, Convert)
  }

  /** Some graph file of the listing has stem `key`. */
  predicate HasGraphWithStem(dir: seq<DirEntry>, key: string)
  {
    exists k :: 0 <= k < |dir| && IsGraphmlName(dir[k].name) && Stem(dir[k].name) == key
  }

  /** A successful loop over a listing is the loop over all but its last
      entry, updated with the last entry when that is a graph file. */
  lemma StoreGraphsSnoc(dir: seq<DirEntry>, convert: DirEntry -> Result<PygData>)
    requires |dir| > 0 && StoreGraphs(dir, convert).Success?
    ensures StoreGraphs(dir[..|dir| - 1], convert).Success?
    ensures var f := dir[|dir| - 1];
      var m := StoreGraphs(dir[..|dir| - 1], convert).value;
      StoreGraphs(dir, convert).value ==
        if IsGraphmlName(f.name) then m[Stem(f.name) := convert(f).value] else m
  {
    var init := dir[..|dir| - 1];
    var f := dir[|dir| - 1];
    var m := StoreGraphs(init, convert).value;
    if IsGraphmlName(f.name) {
      var c := convert(f);
      assert c.Success?;
      assert StoreGraphs(dir, convert) == Success(m[Stem(f.name) := c.value]);
    } else {
      assert StoreGraphs(dir, convert) == Success(m);
    }
  }

  lemma HasGraphWithStemSnoc(dir: seq<DirEntry>, key: string)
    requires |dir| > 0
    ensures var f := dir[|dir| - 1];
      HasGraphWithStem(dir, key) <==>
        HasGraphWithStem(dir[..|dir| - 1], key) || (IsGraphmlName(f.name) && Stem(f.name) == key)
  {
    HasGraphWithStemInit(dir, key);
    HasGraphWithStemSplit(dir, key);
  }

  lemma HasGraphWithStemInit(dir: seq<DirEntry>, key: string)
    requires |dir| > 0
    ensures HasGraphWithStem(dir[..|dir| - 1], key) ==> HasGraphWithStem(dir, key)
  {
    var init := dir[..|dir| - 1];
    if HasGraphWithStem(init, key) {
      var k :| 0 <= k < |init| && IsGraphmlName(init[k].name) && Stem(init[k].name) == key;
      assert dir[k] == init[k];
    }
  }

  lemma HasGraphWithStemSplit(dir: seq<DirEntry>, key: string)
    requires |dir| > 0
    ensures var f := dir[|dir| - 1];
      HasGraphWithStem(dir, key) ==>
        HasGraphWithStem(dir[..|dir| - 1], key) || (IsGraphmlName(f.name) && Stem(f.name) == key)
  {
    var init := dir[..|dir| - 1];
    if HasGraphWithStem(dir, key) {
      var k :| 0 <= k < |dir| && IsGraphmlName(dir[k].name) && Stem(dir[k].name) == key;
      if k < |init| {
        assert init[k] == dir[k];
      }
    }
  }

  /** The keys of a successful loop are exactly the stems of the graph files. */
  lemma {:induction false} StoreGraphsKeys(dir: seq<DirEntry>, convert: DirEntry -> Result<PygData>, key: string)
    requires StoreGraphs(dir, convert).Success?
    ensures key in StoreGraphs(dir, convert).value <==> HasGraphWithStem(dir, key)
  {
    if |dir| > 0 {
      StoreGraphsSnoc(dir, convert);
      StoreGraphsKeys(dir[..|dir| - 1], convert, key);
      HasGraphWithStemSnoc(dir, key);
    }
  }

  /** The keys of a successful load are exactly the stems of the graph files. */
  lemma LoadGraphKeys(dir: seq<DirEntry>, key: string)
    requires LoadGraph(dir).Success?
    ensures key in LoadGraph(dir).value <==> HasGraphWithStem(dir, key)
  {
    StoreGraphsKeys(dir, Convert, key);
  }

  /** No graph file after entry `k` has the same stem. */
  predicate LastWithStem(dir: seq<DirEntry>, k: nat)
    requires k < |dir|
  {
    forall j :: k < j < |dir| && IsGraphmlName(dir[j].name) ==> Stem(dir[j].name) != Stem(dir[k].name)
  }

  /** The value stored under a graph file's stem is that file's conversion,
      provided no later graph file has the same stem. */
  lemma {:induction false} StoreGraphsLastWins(dir: seq<DirEntry>, convert: DirEntry -> Result<PygData>, k: nat)
    requires k < |dir| && IsGraphmlName(dir[k].name) && LastWithStem(dir, k)
    requires StoreGraphs(dir, convert).Success?
    ensures convert(dir[k]).Success?
    ensures Stem(dir[k].name) in StoreGraphs(dir, convert).value
    ensures StoreGraphs(dir, convert).value[Stem(dir[k].name)] == convert(dir[k]).value
  {
    var init := dir[..|dir| - 1];
    StoreGraphsSnoc(dir, convert);
    if k < |init| {
      assert init[k] == dir[k];
      assert LastWithStem(init, k) by {
        forall j | k < j < |init| && IsGraphmlName(init[j].name)
          ensures Stem(init[j].name) != Stem(init[k].name)
        {
          assert init[j] == dir[j];
        }
      }
      StoreGraphsLastWins(init, convert, k);
    }
  }

  /** The same for the whole load: the last graph file with a stem wins. */
  lemma LoadGraphLastWins(dir: seq<DirEntry>, k: nat)
    requires k < |dir| && IsGraphmlName(dir[k].name) && LastWithStem(dir, k)
    requires LoadGraph(dir).Success?
    ensures Convert(dir[k]).Success?
    ensures Stem(dir[k].name) in LoadGraph(dir).value
    ensures LoadGraph(dir).value[Stem(dir[k].name)] == Convert(dir[k]).value
  {
    StoreGraphsLastWins(dir, Convert, k);
  }

  /** A graph file that cannot be read is stored as the placeholder graph. */
  lemma UnreadableFileStoresPlaceholder(dir: seq<DirEntry>, k: nat)
    requires k < |dir| && IsGraphmlName(dir[k].name) && dir[k].contents.None? && LastWithStem(dir, k)
    requires LoadGraph(dir).Success?
    ensures Stem(dir[k].name) in LoadGraph(dir).value
    ensures LoadGraph(dir).value[Stem(dir[k].name)] == EmptyGraphData
  {
    LoadGraphLastWins(dir, k);
  }
}
