/** The boundary with the chemistry toolkit: a parsed molecule as the
    toolkit exposes it, seen through the accessors the graph encoder calls.
    Atom indices are the atoms' positions; the toolkit promises this and
    `ValidMol` states it. */
module Molecule {

  /** The ten per-atom properties the encoder reads, by name. */
  datatype AtomProps = AtomProps(
    atomicNum: int,
    degree: int,
    numImplicitHs: int,
    explicitValence: int,
    implicitValence: int,
    totalValence: int,
    numRadicalElectrons: int,
    hybridization: int,
    isAromatic: bool,
    isInRing: bool)

  /** An atom: its toolkit index and its properties. */
  datatype Atom = Atom(idx: nat, props: AtomProps)

  /** The toolkit's bond-type enumeration member, seen through its integer
      value (what a numeric tensor receives) and its printed name (what
      `str` gives, such as "SINGLE"). */
  datatype BondType = BondType(code: int, name: string)

  /** A bond between the atoms with indices `begin` and `end`. */
  datatype Bond = Bond(
    begin: nat,
    end: nat,
    bondType: BondType,
    stereo: int,
    isConjugated: bool,
    isAromatic: bool,
    isInRing: bool)

  /** A parsed molecule: atoms in index order and bonds in toolkit order. */
  datatype Mol = Mol(atoms: seq<Atom>, bonds: seq<Bond>)

  /** The bond `b` joins atoms `i` and `j`, in either direction. */
  predicate Connects(b: Bond, i: int, j: int)
  {
    (b.begin == i && b.end == j) || (b.begin == j && b.end == i)
  }

  /** Atom indices are dense and zero-based. */
  predicate DenseAtoms(m: Mol)
  {
    forall k :: 0 <= k < |m.atoms| ==> m.atoms[k].idx == k
  }

  /** What the toolkit guarantees of every molecule it returns: dense atom
      indices, bonds between two distinct existing atoms, and at most one
      bond per pair of atoms. */
  predicate ValidMol(m: Mol)
  {
    && DenseAtoms(m)
    && (forall k :: 0 <= k < |m.bonds| ==>
          m.bonds[k].begin < |m.atoms| && m.bonds[k].end < |m.atoms| && m.bonds[k].begin != m.bonds[k].end)
    && (forall k, l :: 0 <= k < l < |m.bonds| ==>
          !Connects(m.bonds[l], m.bonds[k].begin, m.bonds[k].end))
  }
}
