/** The numeric-tensor graph: a node matrix (one row per atom), an edge
    index of two rows (sources and targets, one column per directed edge),
    an edge-feature matrix (one row per directed edge), and provenance.
    Tensors are sequences of exact integer rows; only the signed 64-bit
    range of an index tensor is modelled. Also the fixed placeholder values substituted for missing
    or degenerate input. */
module TensorGraph {
  import opened Wrappers
  import opened Molecule

  /** A `Data` record. `mol == None` and `smiles == "None"` stand for the
      literal string "None" the encoder stores when there is no molecule. */
  datatype PygData = PygData(
    edgeIndex: seq<seq<int>>,
    x: seq<seq<int>>,
    edgeAttr: seq<seq<int>>,
    mol: Option<Mol>,
    smiles: string)

  /** The edge index [[0], [0]]: one self-loop on node 0. */
  const PlaceholderEdgeIndex: seq<seq<int>> := [[0], [0]]

  /** The placeholder bond row: 2 marks the three flags as unknown. */
  const PlaceholderEdgeAttr: seq<int> := [0, 0, 2, 2, 2]

  /** The placeholder atom row of the structure-string path: 2 marks the
      aromatic and in-ring flags as unknown. */
  const SentinelAtomRow: seq<int> := [0, 0, 0, 0, 0, 0, 0, 0, 2, 2]

  /** The all-zero atom row of the attributed-graph path. */
  const ZeroAtomRow: seq<int> := [0, 0, 0, 0, 0, 0, 0, 0, 0, 0]

  /** What the structure-string path returns for "None" or an unparsable string. */
  const Sentinel: PygData := PygData(PlaceholderEdgeIndex, [SentinelAtomRow], [PlaceholderEdgeAttr], None, "None")

  /** What the attributed-graph path returns for no graph or a graph without nodes. */
  const EmptyGraphData: PygData := PygData(PlaceholderEdgeIndex, [ZeroAtomRow], [PlaceholderEdgeAttr], None, "None")

  /** The range of a `torch.LongTensor` entry: a signed 64-bit integer. */
  const LongMin: int := -0x8000_0000_0000_0000
  const LongMax: int := 0x7FFF_FFFF_FFFF_FFFF

  predicate InLong(n: int)
  {
    LongMin <= n <= LongMax
  }

  /** Both ends of every directed edge fit a `torch.LongTensor`; building
      the tensor from any other list raises. */
  predicate LongPairs(ps: seq<(int, int)>)
  {
    forall c :: 0 <= c < |ps| ==> InLong(ps[c].0) && InLong(ps[c].1)
  }

  /** Column `c` of a two-row edge index: the directed edge (source, target). */
  function Column(ei: seq<seq<int>>, c: nat): (int, int)
    requires |ei| == 2 && c < |ei[0]| && c < |ei[1]|
  {
    (ei[0][c], ei[1][c])
  }

  /** `ei` is the two-row form of the directed edges `ps`, column by column. */
  predicate IsEdgeIndexOf(ei: seq<seq<int>>, ps: seq<(int, int)>)
  {
    && |ei| == 2 && |ei[0]| == |ps| && |ei[1]| == |ps|
    && forall c :: 0 <= c < |ps| ==> Column(ei, c) == ps[c]
  }

  /** `list(zip(*pairs))`, and equally a transposed tensor of pairs: the list
      of directed edges as two rows, and the empty list when there are none. */
  function Unzip(ps: seq<(int, int)>): (rows: seq<seq<int>>)
    ensures |ps| == 0 ==> rows == []
    ensures |ps| > 0 ==> IsEdgeIndexOf(rows, ps)
  {
    if |ps| == 0 then []
    else [seq(|ps|, c requires 0 <= c < |ps| => ps[c].0), seq(|ps|, c requires 0 <= c < |ps| => ps[c].1)]
  }

  /** The directed edges of a two-row edge index, column by column. */
  function Zip(ei: seq<seq<int>>): (ps: seq<(int, int)>)
    requires |ei| == 2 && |ei[0]| == |ei[1]|
    ensures |ps| == |ei[0]|
  {
    seq(|ei[0]|, c requires 0 <= c < |ei[0]| => Column(ei, c))
  }

  /** The two-row layout loses nothing: pairs and rows convert back and forth. */
  lemma UnzipZip(ps: seq<(int, int)>, ei: seq<seq<int>>)
    requires |ps| > 0
    ensures Zip(Unzip(ps)) == ps
    ensures |ei| == 2 && |ei[0]| == |ei[1]| > 0 ==> Unzip(Zip(ei)) == ei
  {
    if |ei| == 2 && |ei[0]| == |ei[1]| > 0 {
      var back := Unzip(Zip(ei));
      assert back[0] == ei[0];
      assert back[1] == ei[1];
    }
  }

  function Flip(p: (int, int)): (int, int)
  {
    (p.1, p.0)
  }

  /** Directed edges come in reciprocal couples: every odd position holds the
      reverse of the edge before it. */
  predicate Reciprocal(ps: seq<(int, int)>)
  {
    |ps| % 2 == 0 && forall c :: 0 <= c < |ps| && c % 2 == 1 ==> ps[c] == Flip(ps[c - 1])
  }

  /** Feature rows come in identical couples, one per direction. */
  predicate PairedRows(rows: seq<seq<int>>)
  {
    |rows| % 2 == 0 && forall c :: 0 <= c < |rows| && c % 2 == 1 ==> rows[c] == rows[c - 1]
  }

  /** The placeholder edge index and edge features. */
  predicate HasPlaceholderEdges(d: PygData)
  {
    d.edgeIndex == PlaceholderEdgeIndex && d.edgeAttr == [PlaceholderEdgeAttr]
  }
}
