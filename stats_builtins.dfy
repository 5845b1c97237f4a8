/**
 * The built-in commands of the statistics engine: the property computations
 * `dist`/`bond`, `angle`, `dihedral` and the group matcher `resname`
 * (src/stats/stats.cpp).  The floating-point geometry (`math::distance`,
 * `math::angle`, `dihedral_angle`) is a parameter.
 */
module StatsBuiltins {
  import opened Wrappers
  import opened Text
  import opened MolTypes
  import opened StatsTypes

  datatype Geometry = Geometry(
    distance: (Vec3, Vec3) -> real,
    angle: (Vec3, Vec3) -> real,
    dihedral: (Vec3, Vec3, Vec3, Vec3) -> real)

  function Sub(a: Vec3, b: Vec3): Vec3 { Vec3(a.x - b.x, a.y - b.y, a.z - b.z) }

  /**
   * `frame_buffer[frame].atom_positions[atom]`.  Outside the buffer the source
   * reads arbitrary memory; the model reads the origin there.
   */
  function PositionAt(traj: Trajectory, frame: int, atom: int): Vec3
  {
    if 0 <= frame < |traj.frameBuffer| && 0 <= atom < |traj.frameBuffer[frame]|
    then traj.frameBuffer[frame][atom] else Vec3(0.0, 0.0, 0.0)
  }

  /** Every token of `ts` is an integer in the sense of `to_int32`. */
  predicate AllParse(ts: seq<string>)
  {
    forall k :: 0 <= k < |ts| ==> ParseInt32(ts[k]).Some?
  }

  /** Atom index `beg_atom_idx + to_int32(tok)`. */
  function AtomOf(s: Structure, tok: string): int
    requires ParseInt32(tok).Some?
  {
    s.begAtom + ParseInt32(tok).value
  }

  /**
   * `compute_atomic_distance`: with exactly two integer arguments and a
   * non-empty structure, one distance per frame between the two atoms given
   * as offsets from the start of the structure; otherwise false, nothing
   * written.
   */
  function ComputeAtomicDistance(geo: Geometry, args: seq<string>, traj: Trajectory, s: Structure): (r: ComputeResult)
    ensures r.success <==> |args| == 2 && s.begAtom != s.endAtom && AllParse(args)
    ensures !r.success ==> r.written == []
    ensures r.success ==> |r.written| == traj.numFrames
    ensures r.success ==> forall i :: 0 <= i < traj.numFrames ==>
      r.written[i] == geo.distance(PositionAt(traj, i, AtomOf(s, args[0])), PositionAt(traj, i, AtomOf(s, args[1])))
  {
    if |args| != 2 then ComputeResult(false, [])
    else if s.begAtom == s.endAtom then ComputeResult(false, [])
    else if ParseInt32(args[0]).None? || ParseInt32(args[1]).None? then ComputeResult(false, [])
    else
      var a, b := AtomOf(s, args[0]), AtomOf(s, args[1]);
      ComputeResult(true, seq(traj.numFrames, i => geo.distance(PositionAt(traj, i, a), PositionAt(traj, i, b))))
  }

  /**
   * `compute_atomic_angle`: with exactly three integer arguments and a
   * non-empty structure, the angle at the second atom per frame; otherwise
   * false, nothing written.
   */
  function ComputeAtomicAngle(geo: Geometry, args: seq<string>, traj: Trajectory, s: Structure): (r: ComputeResult)
    ensures r.success <==> |args| == 3 && s.begAtom != s.endAtom && AllParse(args)
    ensures !r.success ==> r.written == []
    ensures r.success ==> |r.written| == traj.numFrames
    ensures r.success ==> forall i :: 0 <= i < traj.numFrames ==>
      var pa, pb, pc := PositionAt(traj, i, AtomOf(s, args[0])), PositionAt(traj, i, AtomOf(s, args[1])), PositionAt(traj, i, AtomOf(s, args[2]));
      r.written[i] == geo.angle(Sub(pa, pb), Sub(pc, pb))
  {
    if |args| != 3 then ComputeResult(false, [])
    else if s.begAtom == s.endAtom then ComputeResult(false, [])
    else if ParseInt32(args[0]).None? || ParseInt32(args[1]).None? || ParseInt32(args[2]).None? then ComputeResult(false, [])
    else
      var a, b, c := AtomOf(s, args[0]), AtomOf(s, args[1]), AtomOf(s, args[2]);
      ComputeResult(true, seq(traj.numFrames, i =>
        geo.angle(Sub(PositionAt(traj, i, a), PositionAt(traj, i, b)), Sub(PositionAt(traj, i, c), PositionAt(traj, i, b)))))
  }

  /**
   * `compute_atomic_dihedral` as written: it demands exactly four arguments,
   * but reads the fourth atom from the third argument again, so the fourth
   * token is never parsed and never used.
   */
  function ComputeAtomicDihedral(geo: Geometry, args: seq<string>, traj: Trajectory, s: Structure): (r: ComputeResult)
    ensures r.success <==> |args| == 4 && s.begAtom != s.endAtom && AllParse(args[..3])
    ensures !r.success ==> r.written == []
    ensures r.success ==> |r.written| == traj.numFrames
    ensures r.success ==> forall i :: 0 <= i < traj.numFrames ==>
      var pc := PositionAt(traj, i, AtomOf(s, args[2]));
      r.written[i] == geo.dihedral(PositionAt(traj, i, AtomOf(s, args[0])), PositionAt(traj, i, AtomOf(s, args[1])), pc, pc)
  {
    if |args| != 4 then ComputeResult(false, [])
    else if s.begAtom == s.endAtom then ComputeResult(false, [])
    else if ParseInt32(args[0]).None? || ParseInt32(args[1]).None? || ParseInt32(args[2]).None? then ComputeResult(false, [])
    else
      var a, b, c, d := AtomOf(s, args[0]), AtomOf(s, args[1]), AtomOf(s, args[2]), AtomOf(s, args[2]);
      ComputeResult(true, seq(traj.numFrames, i =>
        geo.dihedral(PositionAt(traj, i, a), PositionAt(traj, i, b), PositionAt(traj, i, c), PositionAt(traj, i, d))))
  }

  function StructureOf(r: Residue): Structure { Structure(r.begAtom, r.endAtom) }

  /** The structures one residue contributes: one per argument equal to its name. */
  function ResidueMatches(args: seq<string>, r: Residue): seq<Structure>
  {
    if args == [] then []
    else ResidueMatches(args[..|args| - 1], r) + (if args[|args| - 1] == r.name then [StructureOf(r)] else [])
  }

  /** One structure per argument equal to the residue's name. */
  lemma {:induction false} ResidueMatchesCount(args: seq<string>, r: Residue)
    ensures |ResidueMatches(args, r)| == multiset(args)[r.name]
    decreases |args|
  {
    if args != [] {
      var init := args[..|args| - 1];
      assert args == init + [args[|args| - 1]];
      ResidueMatchesCount(init, r);
    }
  }

  /** Only the residue's own range is contributed, and only when some argument names it. */
  lemma {:induction false} ResidueMatchesOnly(args: seq<string>, r: Residue, s: Structure)
    requires s in ResidueMatches(args, r)
    ensures s == StructureOf(r) && r.name in args
    decreases |args|
  {
    var init := args[..|args| - 1];
    assert args == init + [args[|args| - 1]];
    if s in ResidueMatches(init, r) {
      ResidueMatchesOnly(init, r, s);
    }
  }

  /** A residue named by some argument contributes its range. */
  lemma {:induction false} ResidueMatched(args: seq<string>, r: Residue)
    requires r.name in args
    ensures StructureOf(r) in ResidueMatches(args, r)
    decreases |args|
  {
    var init := args[..|args| - 1];
    assert args == init + [args[|args| - 1]];
    if args[|args| - 1] != r.name {
      ResidueMatched(init, r);
    }
  }

  /** `match_by_resname`, residues in order, one structure per (residue, equal argument) pair. */
  function MatchByResname(args: seq<string>, mol: MoleculeStructure): seq<Structure>
  {
    MatchResidues(args, mol.residues)
  }

  function MatchResidues(args: seq<string>, residues: seq<Residue>): seq<Structure>
  {
    if residues == [] then []
    else MatchResidues(args, residues[..|residues| - 1]) + ResidueMatches(args, residues[|residues| - 1])
  }

  /** A structure is matched exactly when it is the range of a residue whose name is among the arguments. */
  lemma MatchResiduesMembers(args: seq<string>, residues: seq<Residue>, s: Structure)
    ensures s in MatchResidues(args, residues) <==>
      exists k :: 0 <= k < |residues| && residues[k].name in args && s == StructureOf(residues[k])
  {
    if s in MatchResidues(args, residues) {
      MatchResiduesSound(args, residues, s);
    }
    if exists k :: 0 <= k < |residues| && residues[k].name in args && s == StructureOf(residues[k]) {
      var k :| 0 <= k < |residues| && residues[k].name in args && s == StructureOf(residues[k]);
      MatchResiduesComplete(args, residues, k);
    }
  }

  lemma {:induction false} MatchResiduesSound(args: seq<string>, residues: seq<Residue>, s: Structure)
    requires s in MatchResidues(args, residues)
    ensures exists k :: 0 <= k < |residues| && residues[k].name in args && s == StructureOf(residues[k])
    decreases |residues|
  {
    var n := |residues| - 1;
    var init := residues[..n];
    if s in MatchResidues(args, init) {
      MatchResiduesSound(args, init, s);
      var k :| 0 <= k < |init| && init[k].name in args && s == StructureOf(init[k]);
      assert residues[k] == init[k];
    } else {
      ResidueMatchesOnly(args, residues[n], s);
    }
  }

  lemma {:induction false} MatchResiduesComplete(args: seq<string>, residues: seq<Residue>, k: nat)
    requires k < |residues| && residues[k].name in args
    ensures StructureOf(residues[k]) in MatchResidues(args, residues)
    decreases |residues|
  {
    var n := |residues| - 1;
    var init := residues[..n];
    var m := ResidueMatches(args, residues[n]);
    if k < n {
      assert init[k] == residues[k];
      MatchResiduesComplete(args, init, k);
      InAppend(MatchResidues(args, init), m, StructureOf(residues[k]));
    } else {
      assert k == n;
      ResidueMatched(args, residues[n]);
      InAppend(MatchResidues(args, init), m, StructureOf(residues[n]));
    }
  }

  lemma InAppend<T>(a: seq<T>, b: seq<T>, x: T)
    requires x in a || x in b
    ensures x in a + b
  {
  }

  /** The number of matches is the number of (residue, equal argument) pairs. */
  function PairCount(args: seq<string>, residues: seq<Residue>): nat
  {
    if residues == [] then 0
    else PairCount(args, residues[..|residues| - 1]) + multiset(args)[residues[|residues| - 1].name]
  }

  lemma {:induction false} MatchResiduesCount(args: seq<string>, residues: seq<Residue>)
    ensures |MatchResidues(args, residues)| == PairCount(args, residues)
    decreases |residues|
  {
    if residues != [] {
      MatchResiduesCount(args, residues[..|residues| - 1]);
      ResidueMatchesCount(args, residues[|residues| - 1]);
    }
  }
}
