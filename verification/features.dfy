/** The feature extractors: one atom becomes a row of ten integers and one
    bond a row of five, in a fixed order that consumers index by position.
    Flags become 0 or 1. Each row comes with a decoder, and each extractor
    promises that decoding its row gives back what it read. */
module Features {
  import opened Wrappers
  import opened Molecule

  const AtomWidth: nat := 10
  const BondWidth: nat := 5

  function BoolToInt(b: bool): int
  {
    if b then 1 else 0
  }

  predicate IsFlag(v: int)
  {
    v == 0 || v == 1
  }

  /** Decodes a ten-wide atom row: field k of the row is the k-th property
      in the order atomic number, degree, implicit hydrogens, explicit
      valence, implicit valence, total valence, radical electrons,
      hybridization, aromatic, in ring. */
  function PropsFromRow(row: seq<int>): (p: Option<AtomProps>)
    ensures p.Some? <==> |row| == AtomWidth && IsFlag(row[8]) && IsFlag(row[9])
  {
    if |row| == AtomWidth && IsFlag(row[8]) && IsFlag(row[9]) then
      Some(AtomProps(row[0], row[1], row[2], row[3], row[4], row[5], row[6], row[7], row[8] == 1, row[9] == 1))
    else
      None
  }

  /** The ten atom features of one set of atom properties. */
  function AtomRow(p: AtomProps): (r: seq<int>)
    ensures |r| == AtomWidth
    ensures PropsFromRow(r) == Some(p)
  {
    [p.atomicNum, p.degree, p.numImplicitHs, p.explicitValence, p.implicitValence,
     p.totalValence, p.numRadicalElectrons, p.hybridization,
     BoolToInt(p.isAromatic), BoolToInt(p.isInRing)]
  }

  /** `atom_feature`: the row of one atom; its index is not a feature. */
  function AtomFeature(a: Atom): (r: seq<int>)
    ensures |r| == AtomWidth
    ensures PropsFromRow(r) == Some(a.props)
  {
    AtomRow(a.props)
  }

  /** A five-wide bond row from its fields: bond type value, stereo,
      conjugated, aromatic, in ring. */
  function BondRowOf(typeValue: int, stereo: int, isConjugated: bool, isAromatic: bool, isInRing: bool): seq<int>
  {
    [typeValue, stereo, BoolToInt(isConjugated), BoolToInt(isAromatic), BoolToInt(isInRing)]
  }

  /** Decodes a five-wide bond row back into a bond, given what the row does
      not hold: the endpoints and the printed name of the bond type. */
  function BondFromRow(begin: nat, end: nat, typeName: string, row: seq<int>): (b: Option<Bond>)
    ensures b.Some? <==> |row| == BondWidth && IsFlag(row[2]) && IsFlag(row[3]) && IsFlag(row[4])
    ensures b.Some? ==> b.value.begin == begin && b.value.end == end && b.value.bondType.name == typeName
  {
    if |row| == BondWidth && IsFlag(row[2]) && IsFlag(row[3]) && IsFlag(row[4]) then
      Some(Bond(begin, end, BondType(row[0], typeName), row[1], row[2] == 1, row[3] == 1, row[4] == 1))
    else
      None
  }

  /** `bond_feature`: the row of one bond, its type as the enumeration's
      integer value. */
  function BondFeature(b: Bond): (r: seq<int>)
    ensures |r| == BondWidth
    ensures BondFromRow(b.begin, b.end, b.bondType.name, r) == Some(b)
  {
    BondRowOf(b.bondType.code, b.stereo, b.isConjugated, b.isAromatic, b.isInRing)
  }

  /** A row the atom decoder accepts is the row of the properties it
      decodes to: rows and properties correspond one to one. */
  lemma AtomRowDecodeInverse(row: seq<int>)
    requires PropsFromRow(row).Some?
    ensures AtomRow(PropsFromRow(row).value) == row
  {
  }

  /** Likewise for bond rows. */
  lemma BondRowDecodeInverse(begin: nat, end: nat, typeName: string, row: seq<int>)
    requires BondFromRow(begin, end, typeName, row).Some?
    ensures BondFeature(BondFromRow(begin, end, typeName, row).value) == row
  {
  }

  /** The feature rows of a sequence of atoms, in order. */
  function AtomRows(atoms: seq<Atom>): (rows: seq<seq<int>>)
    ensures |rows| == |atoms|
    ensures forall k :: 0 <= k < |atoms| ==> rows[k] == AtomFeature(atoms[k])
  {
    seq(|atoms|, k requires 0 <= k < |atoms| => AtomFeature(atoms[k]))
  }
}
