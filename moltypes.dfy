/**
 * Value types of the molecule structure shared by the statistics engine and
 * the topology utilities.  Coordinates are single-precision floats in the
 * repository; they are modelled as reals.
 */
module MolTypes {
  datatype Vec3 = Vec3(x: real, y: real, z: real)

  /** An element is identified by its atomic number. */
  type Element = nat

  /** A residue covers the atoms `[begAtom, endAtom)`. */
  datatype Residue = Residue(name: string, begAtom: int, endAtom: int)

  datatype Bond = Bond(idxA: int, idxB: int)

  /** A chain covers the residues `[begRes, endRes)`. */
  datatype Chain = Chain(id: string, begRes: int, endRes: int)

  datatype MoleculeStructure = MoleculeStructure(
    atomPositions: seq<Vec3>,
    atomElements: seq<Element>,
    atomResidueIndices: seq<int>,
    covalentBonds: seq<Bond>,
    residues: seq<Residue>,
    chains: seq<Chain>)
}
