/** The structure-string path: the edge index of a parsed molecule
    (`get_edge_index`) and the direct conversion of a structure string to a
    tensor graph (`smiles_to_pyg`). Parsing belongs to the chemistry
    toolkit, so its outcome is an input: `parsed` is what the toolkit
    returns for `smiles`, `None` when it rejects the string. */
module SmilesGraph {
  import opened Wrappers
  import opened Molecule
  import opened Features
  import opened TensorGraph

  /** Bond `b` as a directed edge: (begin, end) forwards, (end, begin) backwards. */
  function DirectedPair(b: Bond, forward: bool): (int, int)
  {
    if forward then (b.begin, b.end) else (b.end, b.begin)
  }

  /** The directed atom pairs of a bond list: each bond (i, j) contributes
      (i, j) immediately followed by (j, i), so column c comes from bond c / 2,
      forwards when c is even and backwards when it is odd. */
  function DirectedPairs(bonds: seq<Bond>): (ps: seq<(int, int)>)
    ensures |ps| == 2 * |bonds|
    ensures forall c :: 0 <= c < |ps| ==> ps[c] == DirectedPair(bonds[c / 2], c % 2 == 0)
  {
    if |bonds| == 0 then []
    else
      var b := bonds[|bonds| - 1];
      DirectedPairs(bonds[..|bonds| - 1]) + [DirectedPair(b, true), DirectedPair(b, false)]
  }

  /** The directed pairs of any bond list come in reciprocal couples. */
  lemma DirectedPairsReciprocal(bonds: seq<Bond>)
    ensures Reciprocal(DirectedPairs(bonds))
  {
    var ps := DirectedPairs(bonds);
    forall c | 0 <= c < |ps| && c % 2 == 1
      ensures ps[c] == Flip(ps[c - 1])
    {
      assert (c - 1) / 2 == c / 2;
    }
  }

  /** `get_edge_index`: the empty list for a molecule without bonds, and
      otherwise two rows holding, for every bond (i, j), the column (i, j)
      followed by the column (j, i). */
  function GetEdgeIndex(m: Mol): (ei: seq<seq<int>>)
    ensures |m.bonds| == 0 <==> ei == []
    ensures |m.bonds| > 0 ==>
      && |ei| == 2 && |ei[0]| == 2 * |m.bonds| && |ei[1]| == 2 * |m.bonds|
      && (forall c :: 0 <= c < 2 * |m.bonds| ==> Column(ei, c) == DirectedPair(m.bonds[c / 2], c % 2 == 0))
      && Reciprocal(Zip(ei))
  {
    var ps := DirectedPairs(m.bonds);
    DirectedPairsReciprocal(m.bonds);
    if |ps| == 0 then []
    else
      UnzipZip(ps, []);
      Unzip(ps)
  }

  /** `GetBondBetweenAtoms`: the first bond joining atoms `i` and `j`, in
      either direction, or `None` when there is none. */
  function BondBetween(bonds: seq<Bond>, i: int, j: int): (r: Option<Bond>)
    ensures r.None? <==> forall k :: 0 <= k < |bonds| ==> !Connects(bonds[k], i, j)
    ensures r.Some? ==> r.value in bonds && Connects(r.value, i, j)
  {
    if |bonds| == 0 then None
    else if Connects(bonds[0], i, j) then Some(bonds[0])
    else BondBetween(bonds[1..], i, j)
  }

  /** Under the toolkit's guarantees, the bond found between the endpoints
      of bond k is bond k itself. */
  lemma BondBetweenFindsOwnBond(m: Mol, k: nat)
    requires ValidMol(m) && k < |m.bonds|
    ensures BondBetween(m.bonds, m.bonds[k].begin, m.bonds[k].end) == Some(m.bonds[k])
  {
    var b := m.bonds[k];
    var r := BondBetween(m.bonds, b.begin, b.end);
    assert Connects(m.bonds[k], b.begin, b.end);
  }

  /** The lookup does not depend on the direction of the pair. */
  lemma {:induction false} BondBetweenSymmetric(bonds: seq<Bond>, i: int, j: int)
    ensures BondBetween(bonds, i, j) == BondBetween(bonds, j, i)
  {
    if |bonds| > 0 && !Connects(bonds[0], i, j) {
      BondBetweenSymmetric(bonds[1..], i, j);
    }
  }

  /** The feature row of every directed pair, looked up through the bond
      between its atoms. The pairs come from bonds, so the lookup never fails. */
  function PairFeatures(bonds: seq<Bond>, pairs: seq<(int, int)>): (rows: seq<seq<int>>)
    requires forall c :: 0 <= c < |pairs| ==> BondBetween(bonds, pairs[c].0, pairs[c].1).Some?
    ensures |rows| == |pairs|
    ensures forall c :: 0 <= c < |pairs| ==> rows[c] == BondFeature(BondBetween(bonds, pairs[c].0, pairs[c].1).value)
  {
    seq(|pairs|, c requires 0 <= c < |pairs| => BondFeature(BondBetween(bonds, pairs[c].0, pairs[c].1).value))
  }

  /** Every directed pair of a bond list has a bond between its atoms. */
  lemma DirectedPairsHaveBonds(bonds: seq<Bond>)
    ensures forall c :: 0 <= c < |DirectedPairs(bonds)| ==>
      BondBetween(bonds, DirectedPairs(bonds)[c].0, DirectedPairs(bonds)[c].1).Some?
  {
    var ps := DirectedPairs(bonds);
    forall c | 0 <= c < |ps|
      ensures BondBetween(bonds, ps[c].0, ps[c].1).Some?
    {
      assert Connects(bonds[c / 2], ps[c].0, ps[c].1);
    }
  }

  /** `smiles_to_pyg`. The string "None" and an unparsable string give the
      sentinel exactly. A parsed molecule keeps one feature row per atom;
      without bonds its edges are the placeholder, otherwise every bond
      appears as two columns (i, j), (j, i) with one feature row each, the
      two rows of a bond identical. */
  function SmilesToPyg(smiles: string, parsed: Option<Mol>): (d: PygData)
    ensures smiles == "None" || parsed.None? ==> d == Sentinel
    ensures smiles != "None" && parsed.Some? ==>
      && d.x == AtomRows(parsed.value.atoms)
      && d.mol == parsed && d.smiles == smiles
    ensures smiles != "None" && parsed.Some? && |parsed.value.bonds| == 0 ==> HasPlaceholderEdges(d)
    ensures smiles != "None" && parsed.Some? && |parsed.value.bonds| > 0 ==>
      && IsEdgeIndexOf(d.edgeIndex, DirectedPairs(parsed.value.bonds))
      && Reciprocal(DirectedPairs(parsed.value.bonds))
      && |d.edgeAttr| == 2 * |parsed.value.bonds|
      && PairedRows(d.edgeAttr)
      && (forall c :: 0 <= c < |d.edgeAttr| ==> |d.edgeAttr[c]| == BondWidth)
  {
    if smiles == "None" then Sentinel
    else match parsed
      case None => Sentinel
      case Some(m) =>
        var pairs := DirectedPairs(m.bonds);
        DirectedPairsHaveBonds(m.bonds);
        DirectedPairsReciprocal(m.bonds);
        var attrs := PairFeatures(m.bonds, pairs);
        assert PairedRows(attrs) by {
          forall c | 0 <= c < |attrs| && c % 2 == 1
            ensures attrs[c] == attrs[c - 1]
          {
            assert pairs[c] == Flip(pairs[c - 1]);
            BondBetweenSymmetric(m.bonds, pairs[c].0, pairs[c].1);
          }
        }
        if |pairs| == 0 then PygData(PlaceholderEdgeIndex, AtomRows(m.atoms), [PlaceholderEdgeAttr], parsed, smiles)
        else PygData(Unzip(pairs), AtomRows(m.atoms), attrs, parsed, smiles)
  }

  /** For a molecule the toolkit returns, both rows of bond k are exactly
      that bond's features. */
  lemma SmilesToPygBondRows(smiles: string, m: Mol)
    requires smiles != "None" && ValidMol(m) && |m.bonds| > 0
    ensures forall c :: 0 <= c < 2 * |m.bonds| ==>
      SmilesToPyg(smiles, Some(m)).edgeAttr[c] == BondFeature(m.bonds[c / 2])
  {
    var d := SmilesToPyg(smiles, Some(m));
    var ps := DirectedPairs(m.bonds);
    forall c | 0 <= c < 2 * |m.bonds|
      ensures d.edgeAttr[c] == BondFeature(m.bonds[c / 2])
    {
      BondBetweenFindsOwnBond(m, c / 2);
      assert d.edgeAttr[c] == BondFeature(BondBetween(m.bonds, ps[c].0, ps[c].1).value);
    }
  }
}
