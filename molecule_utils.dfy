/**
 * The topology utilities of `src/mol/molecule_utils.cpp`: covalent bonds
 * from a distance test, chains from the bonds between residues, per-atom
 * radii and CPK colours, and the bounding box of the atom positions.
 * Element tables (van der Waals radius, CPK colour) and the distance test of
 * a candidate bond are function-valued parameters.
 */
module MoleculeUtils {
  import opened MolTypes
  import Text

  // ---------------------------------------------------------------------
  // Bounding box
  // ---------------------------------------------------------------------

  function MinVec(a: Vec3, b: Vec3): Vec3
  {
    Vec3(if b.x < a.x then b.x else a.x, if b.y < a.y then b.y else a.y, if b.z < a.z then b.z else a.z)
  }

  function MaxVec(a: Vec3, b: Vec3): Vec3
  {
    Vec3(if a.x < b.x then b.x else a.x, if a.y < b.y then b.y else a.y, if a.z < b.z then b.z else a.z)
  }

  predicate LeqVec(a: Vec3, b: Vec3) { a.x <= b.x && a.y <= b.y && a.z <= b.z }

  /** Every coordinate of `lo` and of `hi` is the coordinate of some position. */
  predicate Attained(ps: seq<Vec3>, lo: Vec3, hi: Vec3)
  {
    && (exists i :: 0 <= i < |ps| && ps[i].x == lo.x)
    && (exists i :: 0 <= i < |ps| && ps[i].y == lo.y)
    && (exists i :: 0 <= i < |ps| && ps[i].z == lo.z)
    && (exists i :: 0 <= i < |ps| && ps[i].x == hi.x)
    && (exists i :: 0 <= i < |ps| && ps[i].y == hi.y)
    && (exists i :: 0 <= i < |ps| && ps[i].z == hi.z)
  }

  /**
   * `compute_bounding_box`, with the early return for no positions that the
   * zero box evidently calls for (see `BoxReadsAsWritten`).
   */
  method ComputeBoundingBox(positions: seq<Vec3>) returns (minBox: Vec3, maxBox: Vec3)
    ensures positions == [] ==> minBox == Vec3(0.0, 0.0, 0.0) && maxBox == Vec3(0.0, 0.0, 0.0)
    ensures forall i :: 0 <= i < |positions| ==> LeqVec(minBox, positions[i]) && LeqVec(positions[i], maxBox)
    ensures positions != [] ==> Attained(positions, minBox, maxBox)
  {
    if |positions| == 0 {
      return Vec3(0.0, 0.0, 0.0), Vec3(0.0, 0.0, 0.0);
    }
    minBox, maxBox := positions[0], positions[0];
    // indices of positions that attain each coordinate of the bounds so far
    ghost var lx, ly, lz, hx, hy, hz := 0, 0, 0, 0, 0, 0;
    for i := 0 to |positions|
      invariant forall k :: 0 <= k < i ==> LeqVec(minBox, positions[k]) && LeqVec(positions[k], maxBox)
      invariant 0 <= lx < |positions| && positions[lx].x == minBox.x
      invariant 0 <= ly < |positions| && positions[ly].y == minBox.y
      invariant 0 <= lz < |positions| && positions[lz].z == minBox.z
      invariant 0 <= hx < |positions| && positions[hx].x == maxBox.x
      invariant 0 <= hy < |positions| && positions[hy].y == maxBox.y
      invariant 0 <= hz < |positions| && positions[hz].z == maxBox.z
    {
      var p := positions[i];
      if p.x < minBox.x { lx := i; }
      if p.y < minBox.y { ly := i; }
      if p.z < minBox.z { lz := i; }
      if maxBox.x < p.x { hx := i; }
      if maxBox.y < p.y { hy := i; }
      if maxBox.z < p.z { hz := i; }
      minBox := MinVec(minBox, p);
      maxBox := MaxVec(maxBox, p);
    }
  }

  /**
   * The positions `compute_bounding_box` reads, as written: the empty case
   * stores the zero box but does not return, so `positions.data[0]` is read
   * next either way, followed by the loop over all positions.
   */
  function BoxReadsAsWritten(count: nat): (idxs: seq<int>)
    ensures |idxs| == count + 1 && idxs[0] == 0
  {
    [0] + seq(count, i => i)
  }

  /** With no positions the first read is past the end of the array. */
  lemma EmptyBoxReadsPastEnd()
    ensures exists k :: 0 <= k < |BoxReadsAsWritten(0)| && !(0 <= BoxReadsAsWritten(0)[k] < 0)
  {
    assert BoxReadsAsWritten(0)[0] == 0;
  }

  /** The positions `ComputeBoundingBox` reads: none when there are none. */
  function BoxReads(count: nat): (idxs: seq<int>)
    ensures count == 0 ==> idxs == []
    ensures forall k :: 0 <= k < |idxs| ==> 0 <= idxs[k] < count
  {
    if count == 0 then [] else BoxReadsAsWritten(count)
  }

  // ---------------------------------------------------------------------
  // Covalent bonds
  // ---------------------------------------------------------------------

  /** The pairs `(i, j)`, `from <= j < to`, in increasing `j`. */
  function Row(i: int, from: int, to: int): (r: seq<Bond>)
    decreases to - from
  {
    if to <= from then [] else Row(i, from, to - 1) + [Bond(i, to - 1)]
  }

  /** The rows `Row(i, jFrom, jTo)` for `iFrom <= i < iTo`, in increasing `i`. */
  function Grid(iFrom: int, iTo: int, jFrom: int, jTo: int): seq<Bond>
    decreases iTo - iFrom
  {
    if iTo <= iFrom then [] else Grid(iFrom, iTo - 1, jFrom, jTo) + Row(iTo - 1, jFrom, jTo)
  }

  /** The rows `Row(i, i + 1, jTo)` for `iFrom <= i < iTo`, in increasing `i`. */
  function Triangle(iFrom: int, iTo: int, jTo: int): seq<Bond>
    decreases iTo - iFrom
  {
    if iTo <= iFrom then [] else Triangle(iFrom, iTo - 1, jTo) + Row(iTo - 1, iTo, jTo)
  }

  /** The pairs tested inside one residue. */
  function Within(res: Residue): seq<Bond>
  {
    Triangle(res.begAtom, res.endAtom - 1, res.endAtom)
  }

  /** The pairs tested inside the first `m` residues. */
  function AllWithin(residues: seq<Residue>, m: nat): seq<Bond>
    requires m <= |residues|
  {
    if m == 0 then [] else AllWithin(residues, m - 1) + Within(residues[m - 1])
  }

  /** The pairs tested between residue `r` and residue `r + 1`. */
  function Across(a: Residue, b: Residue): seq<Bond>
  {
    Grid(a.begAtom, a.endAtom, b.begAtom, b.endAtom)
  }

  /** The pairs tested between consecutive residues among the first `m + 1`. */
  function AllAcross(residues: seq<Residue>, m: nat): seq<Bond>
    requires m < |residues| || m == 0
  {
    if m == 0 then [] else AllAcross(residues, m - 1) + Across(residues[m - 1], residues[m])
  }

  /** Every pair `compute_atomic_bonds` tests, in the order it tests them. */
  function CandidatePairs(atomCount: int, residues: seq<Residue>): seq<Bond>
  {
    if residues != [] then AllWithin(residues, |residues|) + AllAcross(residues, |residues| - 1)
    else Grid(0, atomCount - 1, 1, atomCount)
  }

  /** The pairs of `s` that pass `bonded`, in order. */
  function Filter(s: seq<Bond>, bonded: (int, int) -> bool): seq<Bond>
  {
    if s == [] then []
    else Filter(s[..|s| - 1], bonded) + (if bonded(s[|s| - 1].idxA, s[|s| - 1].idxB) then [s[|s| - 1]] else [])
  }

  lemma {:induction false} FilterAppend(a: seq<Bond>, b: seq<Bond>, bonded: (int, int) -> bool)
    ensures Filter(a + b, bonded) == Filter(a, bonded) + Filter(b, bonded)
    decreases |b|
  {
    if b == [] {
      assert a + b == a;
    } else {
      assert (a + b)[..|a + b| - 1] == a + b[..|b| - 1];
      FilterAppend(a, b[..|b| - 1], bonded);
    }
  }

  /** Appending the kept pairs of `t` to those of `s` gives the kept pairs of `s + t`. */
  lemma FilterExtend(bonds: seq<Bond>, s: seq<Bond>, t: seq<Bond>, before: seq<Bond>, after: seq<Bond>,
                     bonded: (int, int) -> bool)
    requires before == bonds + Filter(s, bonded)
    requires after == before + Filter(t, bonded)
    ensures after == bonds + Filter(s + t, bonded)
  {
    FilterAppend(s, t, bonded);
    assert bonds + Filter(s, bonded) + Filter(t, bonded) == bonds + (Filter(s, bonded) + Filter(t, bonded));
  }

  lemma RowStep(bonds: seq<Bond>, i: int, from: int, j: int, before: seq<Bond>, after: seq<Bond>,
                bonded: (int, int) -> bool)
    requires from <= j
    requires before == bonds + Filter(Row(i, from, j), bonded)
    requires after == if bonded(i, j) then before + [Bond(i, j)] else before
    ensures after == bonds + Filter(Row(i, from, j + 1), bonded)
  {
    assert Row(i, from, j + 1) == Row(i, from, j) + [Bond(i, j)];
    assert Filter([Bond(i, j)], bonded) == if bonded(i, j) then [Bond(i, j)] else [];
    FilterExtend(bonds, Row(i, from, j), [Bond(i, j)], before, after, bonded);
  }

  lemma GridStep(bonds: seq<Bond>, iFrom: int, i: int, jFrom: int, jTo: int, before: seq<Bond>, after: seq<Bond>,
                 bonded: (int, int) -> bool)
    requires iFrom <= i
    requires before == bonds + Filter(Grid(iFrom, i, jFrom, jTo), bonded)
    requires after == before + Filter(Row(i, jFrom, jTo), bonded)
    ensures after == bonds + Filter(Grid(iFrom, i + 1, jFrom, jTo), bonded)
  {
    assert Grid(iFrom, i + 1, jFrom, jTo) == Grid(iFrom, i, jFrom, jTo) + Row(i, jFrom, jTo);
    FilterExtend(bonds, Grid(iFrom, i, jFrom, jTo), Row(i, jFrom, jTo), before, after, bonded);
  }

  lemma TriangleStep(bonds: seq<Bond>, iFrom: int, i: int, jTo: int, before: seq<Bond>, after: seq<Bond>,
                     bonded: (int, int) -> bool)
    requires iFrom <= i
    requires before == bonds + Filter(Triangle(iFrom, i, jTo), bonded)
    requires after == before + Filter(Row(i, i + 1, jTo), bonded)
    ensures after == bonds + Filter(Triangle(iFrom, i + 1, jTo), bonded)
  {
    assert Triangle(iFrom, i + 1, jTo) == Triangle(iFrom, i, jTo) + Row(i, i + 1, jTo);
    FilterExtend(bonds, Triangle(iFrom, i, jTo), Row(i, i + 1, jTo), before, after, bonded);
  }

  lemma WithinStep(residues: seq<Residue>, r: nat, before: seq<Bond>, after: seq<Bond>, bonded: (int, int) -> bool)
    requires r < |residues|
    requires before == Filter(AllWithin(residues, r), bonded)
    requires after == before + Filter(Triangle(residues[r].begAtom, residues[r].endAtom - 1, residues[r].endAtom), bonded)
    ensures after == Filter(AllWithin(residues, r + 1), bonded)
  {
    assert Within(residues[r]) == Triangle(residues[r].begAtom, residues[r].endAtom - 1, residues[r].endAtom);
    assert AllWithin(residues, r + 1) == AllWithin(residues, r) + Within(residues[r]);
    FilterAppend(AllWithin(residues, r), Within(residues[r]), bonded);
  }

  lemma AcrossStep(residues: seq<Residue>, r: nat, bonds: seq<Bond>, before: seq<Bond>, after: seq<Bond>,
                   bonded: (int, int) -> bool)
    requires r + 1 < |residues|
    requires before == bonds + Filter(AllAcross(residues, r), bonded)
    requires after == before + Filter(Grid(residues[r].begAtom, residues[r].endAtom,
                                           residues[r + 1].begAtom, residues[r + 1].endAtom), bonded)
    ensures after == bonds + Filter(AllAcross(residues, r + 1), bonded)
  {
    assert AllAcross(residues, r + 1) == AllAcross(residues, r) + Across(residues[r], residues[r + 1]);
    FilterExtend(bonds, AllAcross(residues, r), Across(residues[r], residues[r + 1]), before, after, bonded);
  }

  /** The bonds kept are exactly the tested pairs that pass the test. */
  lemma {:induction false} FilterMembers(s: seq<Bond>, bonded: (int, int) -> bool, x: Bond)
    ensures x in Filter(s, bonded) <==> x in s && bonded(x.idxA, x.idxB)
    decreases |s|
  {
    if s != [] {
      FilterMembers(s[..|s| - 1], bonded, x);
      assert s == s[..|s| - 1] + [s[|s| - 1]];
    }
  }

  lemma {:induction false} RowMembers(i: int, from: int, to: int, x: Bond)
    ensures x in Row(i, from, to) <==> x.idxA == i && from <= x.idxB < to
    decreases if from < to then to - from else 0
  {
    if from < to {
      RowMembers(i, from, to - 1, x);
    }
  }

  lemma {:induction false} GridMembers(iFrom: int, iTo: int, jFrom: int, jTo: int, x: Bond)
    ensures x in Grid(iFrom, iTo, jFrom, jTo) <==> iFrom <= x.idxA < iTo && jFrom <= x.idxB < jTo
    decreases iTo - iFrom
  {
    if iFrom < iTo {
      GridMembers(iFrom, iTo - 1, jFrom, jTo, x);
      RowMembers(iTo - 1, jFrom, jTo, x);
    }
  }

  lemma {:induction false} TriangleMembers(iFrom: int, iTo: int, jTo: int, x: Bond)
    ensures x in Triangle(iFrom, iTo, jTo) <==> iFrom <= x.idxA < iTo && x.idxA < x.idxB < jTo
    decreases iTo - iFrom
  {
    if iFrom < iTo {
      TriangleMembers(iFrom, iTo - 1, jTo, x);
      RowMembers(iTo - 1, iTo, jTo, x);
    }
  }

  /** Inside a residue every pair `i < j` of its atoms is tested, and no other. */
  lemma WithinMembers(res: Residue, x: Bond)
    ensures x in Within(res) <==> res.begAtom <= x.idxA < x.idxB < res.endAtom
  {
    TriangleMembers(res.begAtom, res.endAtom - 1, res.endAtom, x);
  }

  /** Between two residues every pair of an atom of the first and an atom of the second is tested. */
  lemma AcrossMembers(a: Residue, b: Residue, x: Bond)
    ensures x in Across(a, b) <==> a.begAtom <= x.idxA < a.endAtom && b.begAtom <= x.idxB < b.endAtom
  {
    GridMembers(a.begAtom, a.endAtom, b.begAtom, b.endAtom, x);
  }

  /**
   * Without residues the pairs with `0 <= i < n - 1` and `1 <= j < n` are all
   * tested: `j` starts at 1, not `i + 1`, so an atom is tested against itself
   * and each pair in both orders.
   */
  lemma NoResiduePairs(atomCount: int, x: Bond)
    ensures x in CandidatePairs(atomCount, []) <==> 0 <= x.idxA < atomCount - 1 && 1 <= x.idxB < atomCount
    ensures atomCount >= 4 ==> Bond(1, 1) in CandidatePairs(atomCount, [])
                               && Bond(1, 2) in CandidatePairs(atomCount, [])
                               && Bond(2, 1) in CandidatePairs(atomCount, [])
  {
    GridMembers(0, atomCount - 1, 1, atomCount, x);
    GridMembers(0, atomCount - 1, 1, atomCount, Bond(1, 1));
    GridMembers(0, atomCount - 1, 1, atomCount, Bond(1, 2));
    GridMembers(0, atomCount - 1, 1, atomCount, Bond(2, 1));
  }

  /** Tests `(i, j)` for `from <= j < to`, appending each bonded pair to `bonds`. */
  method TestRow(bonds: seq<Bond>, i: int, from: int, to: int, bonded: (int, int) -> bool)
    returns (out: seq<Bond>)
    ensures out == bonds + Filter(Row(i, from, to), bonded)
  {
    out := bonds;
    if to <= from {
      return;
    }
    var j := from;
    while j < to
      invariant from <= j <= to
      invariant out == bonds + Filter(Row(i, from, j), bonded)
    {
      ghost var before := out;
      if bonded(i, j) {
        out := out + [Bond(i, j)];
      }
      RowStep(bonds, i, from, j, before, out, bonded);
      j := j + 1;
    }
  }

  /** Tests the rows of `Grid(iFrom, iTo, jFrom, jTo)`, appending each bonded pair. */
  method TestGrid(bonds: seq<Bond>, iFrom: int, iTo: int, jFrom: int, jTo: int, bonded: (int, int) -> bool)
    returns (out: seq<Bond>)
    ensures out == bonds + Filter(Grid(iFrom, iTo, jFrom, jTo), bonded)
  {
    out := bonds;
    if iTo <= iFrom {
      return;
    }
    var i := iFrom;
    while i < iTo
      invariant iFrom <= i <= iTo
      invariant out == bonds + Filter(Grid(iFrom, i, jFrom, jTo), bonded)
    {
      ghost var before := out;
      out := TestRow(out, i, jFrom, jTo, bonded);
      GridStep(bonds, iFrom, i, jFrom, jTo, before, out, bonded);
      i := i + 1;
    }
  }

  /** Tests the rows of `Triangle(iFrom, iTo, jTo)`, appending each bonded pair. */
  method TestTriangle(bonds: seq<Bond>, iFrom: int, iTo: int, jTo: int, bonded: (int, int) -> bool)
    returns (out: seq<Bond>)
    ensures out == bonds + Filter(Triangle(iFrom, iTo, jTo), bonded)
  {
    out := bonds;
    if iTo <= iFrom {
      return;
    }
    var i := iFrom;
    while i < iTo
      invariant iFrom <= i <= iTo
      invariant out == bonds + Filter(Triangle(iFrom, i, jTo), bonded)
    {
      ghost var before := out;
      out := TestRow(out, i, i + 1, jTo, bonded);
      TriangleStep(bonds, iFrom, i, jTo, before, out, bonded);
      i := i + 1;
    }
  }

  /**
   * `compute_atomic_bonds`: the bonded pairs among the candidates, in test
   * order.  `bonded(i, j)` is the covalent-radius distance test of atoms `i`
   * and `j`.
   */
  method ComputeAtomicBonds(atomCount: int, residues: seq<Residue>, bonded: (int, int) -> bool)
    returns (bonds: seq<Bond>)
    ensures bonds == Filter(CandidatePairs(atomCount, residues), bonded)
  {
    if residues != [] {
      bonds := TestWithinResidues(residues, bonded);
      bonds := TestAcrossResidues(bonds, residues, bonded);
      FilterAppend(AllWithin(residues, |residues|), AllAcross(residues, |residues| - 1), bonded);
    } else {
      bonds := TestGrid([], 0, atomCount - 1, 1, atomCount, bonded);
    }
  }

  /** The first residue loop of `compute_atomic_bonds`: pairs inside each residue. */
  method TestWithinResidues(residues: seq<Residue>, bonded: (int, int) -> bool) returns (bonds: seq<Bond>)
    ensures bonds == Filter(AllWithin(residues, |residues|), bonded)
  {
    bonds := [];
    for r := 0 to |residues|
      invariant bonds == Filter(AllWithin(residues, r), bonded)
    {
      var res := residues[r];
      ghost var before := bonds;
      bonds := TestTriangle(bonds, res.begAtom, res.endAtom - 1, res.endAtom, bonded);
      WithinStep(residues, r, before, bonds, bonded);
    }
  }

  /** The second residue loop of `compute_atomic_bonds`: pairs across consecutive residues. */
  method TestAcrossResidues(bonds: seq<Bond>, residues: seq<Residue>, bonded: (int, int) -> bool)
    returns (out: seq<Bond>)
    requires residues != []
    ensures out == bonds + Filter(AllAcross(residues, |residues| - 1), bonded)
  {
    out := bonds;
    for r := 0 to |residues| - 1
      invariant out == bonds + Filter(AllAcross(residues, r), bonded)
    {
      var a, b := residues[r], residues[r + 1];
      ghost var before := out;
      out := TestGrid(out, a.begAtom, a.endAtom, b.begAtom, b.endAtom, bonded);
      AcrossStep(residues, r, bonds, before, out, bonded);
    }
  }

  /** Every bond found passes the test and is one of the candidate pairs; every passing candidate is found. */
  lemma BondsAreTestedPairs(atomCount: int, residues: seq<Residue>, bonded: (int, int) -> bool, x: Bond)
    ensures x in Filter(CandidatePairs(atomCount, residues), bonded)
            <==> x in CandidatePairs(atomCount, residues) && bonded(x.idxA, x.idxB)
  {
    FilterMembers(CandidatePairs(atomCount, residues), bonded, x);
  }

  // ---------------------------------------------------------------------
  // Chains
  // ---------------------------------------------------------------------

  /** Bonds whose endpoints lie in different residues, as pairs of residue indices, in order. */
  function ResidueBonds(bonds: seq<Bond>, atomResidue: seq<int>): seq<Bond>
    requires forall b :: b in bonds ==> 0 <= b.idxA < |atomResidue| && 0 <= b.idxB < |atomResidue|
  {
    if bonds == [] then []
    else
      var b := bonds[|bonds| - 1];
      ResidueBonds(bonds[..|bonds| - 1], atomResidue)
      + (if atomResidue[b.idxA] != atomResidue[b.idxB] then [Bond(atomResidue[b.idxA], atomResidue[b.idxB])]
         else [])
  }

  /** A residue bond comes from an atom bond across two different residues, and every such bond gives one. */
  lemma {:induction false} ResidueBondsMembers(bonds: seq<Bond>, atomResidue: seq<int>, x: Bond)
    requires forall b :: b in bonds ==> 0 <= b.idxA < |atomResidue| && 0 <= b.idxB < |atomResidue|
    ensures x in ResidueBonds(bonds, atomResidue) <==>
              exists b :: b in bonds && atomResidue[b.idxA] != atomResidue[b.idxB]
                          && x == Bond(atomResidue[b.idxA], atomResidue[b.idxB])
    decreases |bonds|
  {
    if bonds != [] {
      var init := bonds[..|bonds| - 1];
      assert forall b :: b in init ==> b in bonds;
      ResidueBondsMembers(init, atomResidue, x);
      assert bonds == init + [bonds[|bonds| - 1]];
    }
  }

  /** The first loop of `compute_chains`; with no atom-to-residue map no residue bond is collected. */
  method CollectResidueBonds(bonds: seq<Bond>, atomResidue: seq<int>) returns (rbs: seq<Bond>)
    requires atomResidue != [] ==>
               forall b :: b in bonds ==> 0 <= b.idxA < |atomResidue| && 0 <= b.idxB < |atomResidue|
    ensures atomResidue == [] ==> rbs == []
    ensures atomResidue != [] ==> rbs == ResidueBonds(bonds, atomResidue)
    ensures forall b :: b in rbs ==> b.idxA != b.idxB
  {
    rbs := [];
    if atomResidue == [] {
      return;
    }
    for k := 0 to |bonds|
      invariant rbs == ResidueBonds(bonds[..k], atomResidue)
      invariant forall b :: b in rbs ==> b.idxA != b.idxB
    {
      var b := bonds[k];
      assert bonds[..k + 1][..k] == bonds[..k];
      var ra, rb := atomResidue[b.idxA], atomResidue[b.idxB];
      if ra != rb {
        rbs := rbs + [Bond(ra, rb)];
      }
    }
    assert bonds[..|bonds|] == bonds;
  }

  /** The state of the labelling loop: the labels so far (-1 for none), the next chain index and the bond cursor. */
  datatype LabelState = LabelState(labels: seq<int>, next: int, cursor: nat)

  /**
   * The bond loop for residue `i`, from the state's cursor: a bond leaving `i`
   * gives its other end `i`'s label, a bond leaving an earlier residue is
   * passed over, and the first bond leaving a later residue stops the loop
   * with the cursor on it.
   */
  function BondRun(st: LabelState, i: nat, rbs: seq<Bond>): (r: LabelState)
    requires i < |st.labels| && st.cursor <= |rbs|
    requires forall b :: b in rbs ==> 0 <= b.idxB < |st.labels|
    ensures |r.labels| == |st.labels| && r.next == st.next && st.cursor <= r.cursor <= |rbs|
    decreases |rbs| - st.cursor
  {
    if st.cursor == |rbs| then st
    else
      var rb := rbs[st.cursor];
      assert rb in rbs;
      if i == rb.idxA then BondRun(LabelState(st.labels[rb.idxB := st.labels[i]], st.next, st.cursor + 1), i, rbs)
      else if rb.idxA > i then st
      else BondRun(st.(cursor := st.cursor + 1), i, rbs)
  }

  /**
   * The labelling loop of `compute_chains` after its first `i` residues: each
   * residue still without a label opens the next chain index, then the bond
   * loop runs for it from the shared cursor.
   */
  function LabelPass(n: nat, rbs: seq<Bond>, i: nat): (st: LabelState)
    requires i <= n
    requires forall b :: b in rbs ==> 0 <= b.idxB < n
    ensures |st.labels| == n && st.cursor <= |rbs|
  {
    if i == 0 then LabelState(seq(n, _ => -1), 0, 0)
    else
      var st := LabelPass(n, rbs, i - 1);
      var r := i - 1;
      var started := if st.labels[r] == -1 then LabelState(st.labels[r := st.next], st.next + 1, st.cursor) else st;
      BondRun(started, r, rbs)
  }

  /**
   * Within one bond loop residue `i` keeps its label, every bond the loop
   * applies gives its other end that label, and no other label changes.
   */
  lemma {:induction false} BondRunLinks(st: LabelState, i: nat, rbs: seq<Bond>)
    requires i < |st.labels| && st.cursor <= |rbs|
    requires forall b :: b in rbs ==> 0 <= b.idxB < |st.labels|
    ensures var r := BondRun(st, i, rbs);
            && r.labels[i] == st.labels[i]
            && (forall k :: st.cursor <= k < r.cursor && rbs[k].idxA == i ==> r.labels[rbs[k].idxB] == st.labels[i])
            && (forall j :: 0 <= j < |st.labels| && r.labels[j] != st.labels[j] ==> r.labels[j] == st.labels[i])
    decreases |rbs| - st.cursor
  {
    if st.cursor < |rbs| {
      var rb := rbs[st.cursor];
      assert rb in rbs;
      if i == rb.idxA {
        var next := LabelState(st.labels[rb.idxB := st.labels[i]], st.next, st.cursor + 1);
        BondRunLinks(next, i, rbs);
      } else if rb.idxA <= i {
        BondRunLinks(st.(cursor := st.cursor + 1), i, rbs);
      }
    }
  }

  /** With no residue bond every residue opens its own chain index, in order. */
  lemma {:induction false} UnbondedPass(n: nat, i: nat)
    requires i <= n
    ensures LabelPass(n, [], i) == LabelState(seq(n, j => if j < i then j else -1), i, 0)
  {
    if i > 0 {
      UnbondedPass(n, i - 1);
      var before := seq(n, j => if j < i - 1 then j else -1);
      assert before[i - 1 := i - 1] == seq(n, j => if j < i then j else -1);
    }
  }

  /** The chains of labels that all differ: one chain per residue. */
  lemma {:induction false} RunsOfDistinct(n: nat, m: nat)
    requires m <= n
    ensures Runs(seq(n, j => j), m) == seq(m, j requires 0 <= j < m => Chain(ChainLabel(j), j, j + 1))
  {
    if m > 0 {
      RunsOfDistinct(n, m - 1);
    }
  }

  /** Without residue bonds residue `j` gets label `j`, so every residue is a chain of its own. */
  lemma UnbondedResidues(n: nat)
    ensures LabelPass(n, [], n).labels == seq(n, j => j)
    ensures Runs(LabelPass(n, [], n).labels, n) == seq(n, j requires 0 <= j < n => Chain(ChainLabel(j), j, j + 1))
  {
    UnbondedPass(n, n);
    assert seq(n, j => if j < n then j else -1) == seq(n, j => j);
    RunsOfDistinct(n, n);
  }

  /** The residue bonds of a single strand: residue `k` to `k + 1`, in order. */
  function StrandBonds(n: nat): (rbs: seq<Bond>)
    requires n > 0
    ensures |rbs| == n - 1
    ensures forall b :: b in rbs ==> 0 <= b.idxA && b.idxB == b.idxA + 1 < n
  {
    seq(n - 1, k => Bond(k, k + 1))
  }

  /** Along a strand the first residue's label 0 reaches every residue the pass has passed. */
  lemma {:induction false} StrandPass(n: nat, i: nat)
    requires 0 < i <= n
    ensures var st := LabelPass(n, StrandBonds(n), i);
            && (forall j :: 0 <= j < n ==> st.labels[j] == if j <= i then 0 else -1)
            && st.next == 1 && st.cursor == (if i < n then i else n - 1)
  {
    var rbs := StrandBonds(n);
    var r := i - 1;
    var st := LabelPass(n, rbs, r);
    var started := if st.labels[r] == -1 then LabelState(st.labels[r := st.next], st.next + 1, st.cursor) else st;
    if i > 1 {
      StrandPass(n, r);
    }
    assert forall j :: 0 <= j < n ==> started.labels[j] == if j <= r then 0 else -1;
    assert started.next == 1 && started.cursor == r;
    if r < n - 1 {
      StrandStep(n, r, started);
    }
  }

  /** The bond loop of residue `r` on a strand applies the bond to `r + 1` and stops at the next one. */
  lemma StrandStep(n: nat, r: nat, st: LabelState)
    requires r < n - 1 && |st.labels| == n && st.cursor == r
    ensures BondRun(st, r, StrandBonds(n)) == LabelState(st.labels[r + 1 := st.labels[r]], st.next, r + 1)
  {
    var rbs := StrandBonds(n);
    assert rbs[r] == Bond(r, r + 1);
    var linked := LabelState(st.labels[r + 1 := st.labels[r]], st.next, r + 1);
    if r + 1 < n - 1 {
      assert rbs[r + 1] == Bond(r + 1, r + 2);
    }
    assert BondRun(linked, r, rbs) == linked;
  }

  /** The chains of labels that are all equal: one chain over every residue. */
  lemma {:induction false} RunsOfEqual(n: nat, m: nat)
    requires 0 < m <= n
    ensures Runs(seq(n, _ => 0), m) == [Chain(ChainLabel(0), 0, m)]
  {
    if m > 1 {
      RunsOfEqual(n, m - 1);
    }
  }

  /** A single strand of residue bonds labels every residue 0, so the residues form one chain. */
  lemma StrandResidues(n: nat)
    requires n > 0
    ensures LabelPass(n, StrandBonds(n), n).labels == seq(n, _ => 0)
    ensures Runs(LabelPass(n, StrandBonds(n), n).labels, n) == [Chain(ChainLabel(0), 0, n)]
  {
    StrandPass(n, n);
    assert LabelPass(n, StrandBonds(n), n).labels == seq(n, _ => 0);
    RunsOfEqual(n, n);
  }

  /**
   * The labelling loop of `compute_chains`: a residue not yet labelled starts
   * a new chain index, and each residue bond leaving the current residue
   * gives its other end the current residue's index.  The bond cursor is
   * shared across residues and stops at the first bond starting past the
   * current residue.
   */
  method LabelResidues(n: nat, rbs: seq<Bond>) returns (labels: seq<int>, numChains: int)
    requires forall b :: b in rbs ==> 0 <= b.idxB < n
    ensures labels == LabelPass(n, rbs, n).labels && numChains == LabelPass(n, rbs, n).next
    ensures |labels| == n
    ensures 0 <= numChains <= n
    ensures forall j :: 0 <= j < n ==> 0 <= labels[j] < numChains
  {
    var chainOf := new int[n](_ => -1);
    var curr := 0;
    var cursor := 0;
    assert chainOf[..] == seq(n, _ => -1);
    for i := 0 to n
      invariant LabelState(chainOf[..], curr, cursor) == LabelPass(n, rbs, i)
    {
      if chainOf[i] == -1 {
        chainOf[i] := curr;
        curr := curr + 1;
      }
      cursor := BondLoop(chainOf, i, rbs, curr, cursor);
    }
    LabelPassBounds(n, rbs, n);
    labels := chainOf[..];
    numChains := curr;
  }

  /** The inner loop of the labelling pass for residue `i`, on the label array in place. */
  method BondLoop(chainOf: array<int>, i: nat, rbs: seq<Bond>, next: int, from: nat) returns (cursor: nat)
    requires i < chainOf.Length && from <= |rbs|
    requires forall b :: b in rbs ==> 0 <= b.idxB < chainOf.Length
    modifies chainOf
    ensures LabelState(chainOf[..], next, cursor) == BondRun(LabelState(old(chainOf[..]), next, from), i, rbs)
  {
    ghost var goal := BondRun(LabelState(chainOf[..], next, from), i, rbs);
    cursor := from;
    while cursor < |rbs|
      invariant cursor <= |rbs|
      invariant BondRun(LabelState(chainOf[..], next, cursor), i, rbs) == goal
      decreases |rbs| - cursor
    {
      var rb := rbs[cursor];
      assert rb in rbs;
      if i == rb.idxA {
        chainOf[rb.idxB] := chainOf[rb.idxA];
      } else if rb.idxA > i {
        break;
      }
      cursor := cursor + 1;
    }
  }

  /** After `i` residues the next index is at most `i`, every label is below it, and the first `i` are set. */
  lemma {:induction false} LabelPassBounds(n: nat, rbs: seq<Bond>, i: nat)
    requires i <= n
    requires forall b :: b in rbs ==> 0 <= b.idxB < n
    ensures var st := LabelPass(n, rbs, i);
            && 0 <= st.next <= i
            && (forall j :: 0 <= j < n ==> -1 <= st.labels[j] < st.next)
            && (forall j :: 0 <= j < i ==> st.labels[j] >= 0)
  {
    if i > 0 {
      LabelPassBounds(n, rbs, i - 1);
      var st := LabelPass(n, rbs, i - 1);
      var r := i - 1;
      var started := if st.labels[r] == -1 then LabelState(st.labels[r := st.next], st.next + 1, st.cursor) else st;
      BondRunLinks(started, r, rbs);
    }
  }

  /** Consecutive, non-empty chains that start at residue 0 and end at residue `n`. */
  predicate Partition(chains: seq<Chain>, n: int)
  {
    && (chains == [] <==> n == 0)
    && (chains != [] ==> chains[0].begRes == 0 && chains[|chains| - 1].endRes == n)
    && (forall k :: 0 <= k < |chains| ==> 0 <= chains[k].begRes < chains[k].endRes <= n)
    && (forall k :: 0 <= k < |chains| - 1 ==> chains[k].endRes == chains[k + 1].begRes)
  }

  function TotalLength(chains: seq<Chain>): int
  {
    if chains == [] then 0 else TotalLength(chains[..|chains| - 1]) + (chains[|chains| - 1].endRes - chains[|chains| - 1].begRes)
  }

  /** The lengths of consecutive chains add up to the distance from the first start to the last end. */
  lemma {:induction false} ContiguousLength(chains: seq<Chain>)
    requires chains != []
    requires forall k :: 0 <= k < |chains| - 1 ==> chains[k].endRes == chains[k + 1].begRes
    ensures TotalLength(chains) == chains[|chains| - 1].endRes - chains[0].begRes
    decreases |chains|
  {
    var init := chains[..|chains| - 1];
    if init == [] {
      assert TotalLength(init) == 0;
    } else {
      ContiguousLength(init);
    }
  }

  /** The chains of a partition of `n` residues hold `n` residues between them. */
  lemma PartitionLength(chains: seq<Chain>, n: int)
    requires Partition(chains, n)
    ensures TotalLength(chains) == n
  {
    if chains != [] {
      ContiguousLength(chains);
    }
  }

  /** The label of a chain: `C` followed by its index, as `"C%i"` prints it. */
  function ChainLabel(idx: nat): string
  {
    "C" + Text.NatToString(idx)
  }

  /** Every residue of a chain carries the label of the chain's first residue. */
  predicate ConstantRuns(labels: seq<int>, chains: seq<Chain>)
  {
    forall k, r :: 0 <= k < |chains| && 0 <= chains[k].begRes <= r < chains[k].endRes && r < |labels| ==>
      labels[r] == labels[chains[k].begRes]
  }

  /** Adjacent chains start with different labels. */
  predicate DistinctStarts(labels: seq<int>, chains: seq<Chain>)
  {
    forall j, k :: 0 <= j < |chains| && 0 <= k < |chains| && k == j + 1 &&
                   0 <= chains[j].begRes < |labels| && 0 <= chains[k].begRes < |labels| ==>
      labels[chains[k].begRes] != labels[chains[j].begRes]
  }

  /** Each chain is named after the label of its first residue. */
  predicate Labelled(labels: seq<int>, chains: seq<Chain>)
  {
    forall k :: 0 <= k < |chains| && 0 <= chains[k].begRes < |labels| ==>
      labels[chains[k].begRes] >= 0 && chains[k].id == ChainLabel(labels[chains[k].begRes])
  }

  /** The last chain grown by one residue. */
  function GrowLast(chains: seq<Chain>): seq<Chain>
    requires chains != []
  {
    chains[|chains| - 1 := chains[|chains| - 1].(endRes := chains[|chains| - 1].endRes + 1)]
  }

  /**
   * The chains of the first `n` labels: a label different from the one before
   * it opens a chain named after it, any label extends the last chain.
   */
  function Runs(labels: seq<int>, n: nat): (chains: seq<Chain>)
    requires n <= |labels|
    requires forall j :: 0 <= j < |labels| ==> labels[j] >= 0
    ensures n > 0 ==> chains != []
  {
    if n == 0 then []
    else
      var prev := Runs(labels, n - 1);
      if n == 1 || labels[n - 1] != labels[n - 2] then prev + [Chain(ChainLabel(labels[n - 1]), n - 1, n)]
      else GrowLast(prev)
  }

  /** The last chain of the first `n` labels ends at `n` and carries label `labels[n - 1]`. */
  lemma {:induction false} LastRun(labels: seq<int>, n: nat)
    requires 0 < n <= |labels|
    requires forall j :: 0 <= j < |labels| ==> labels[j] >= 0
    ensures var c := Runs(labels, n);
            c[|c| - 1].endRes == n && 0 <= c[|c| - 1].begRes < n && labels[c[|c| - 1].begRes] == labels[n - 1]
  {
    if n > 1 && labels[n - 1] == labels[n - 2] {
      LastRun(labels, n - 1);
    }
  }

  /** The chains of the first `n` labels partition them. */
  lemma {:induction false} RunsPartition(labels: seq<int>, n: nat)
    requires n <= |labels|
    requires forall j :: 0 <= j < |labels| ==> labels[j] >= 0
    ensures Partition(Runs(labels, n), n)
  {
    if n > 0 {
      RunsPartition(labels, n - 1);
      var prev := Runs(labels, n - 1);
      var c := Runs(labels, n);
      var m := |prev|;
      if n == 1 || labels[n - 1] != labels[n - 2] {
        assert |c| == m + 1 && c[m] == Chain(ChainLabel(labels[n - 1]), n - 1, n);
        forall k | 0 <= k < |c|
          ensures 0 <= c[k].begRes < c[k].endRes <= n
        {
          if k < m {
            assert c[k] == prev[k];
          }
        }
        forall k | 0 <= k < |c| - 1
          ensures c[k].endRes == c[k + 1].begRes
        {
          assert c[k] == prev[k];
          if k + 1 < m {
            assert c[k + 1] == prev[k + 1];
          }
        }
      } else {
        assert |c| == m && c[m - 1] == prev[m - 1].(endRes := n);
        forall k | 0 <= k < |c|
          ensures 0 <= c[k].begRes < c[k].endRes <= n
        {
          if k < m - 1 {
            assert c[k] == prev[k];
          }
        }
        forall k | 0 <= k < |c| - 1
          ensures c[k].endRes == c[k + 1].begRes
        {
          assert c[k] == prev[k];
          assert c[k + 1].begRes == prev[k + 1].begRes;
        }
      }
    }
  }

  /** Every residue of a chain of the first `n` labels carries the chain's label. */
  lemma {:induction false} RunsConstant(labels: seq<int>, n: nat)
    requires n <= |labels|
    requires forall j :: 0 <= j < |labels| ==> labels[j] >= 0
    ensures ConstantRuns(labels, Runs(labels, n))
  {
    if n > 0 {
      RunsConstant(labels, n - 1);
      var prev := Runs(labels, n - 1);
      var c := Runs(labels, n);
      var m := |prev|;
      if n == 1 || labels[n - 1] != labels[n - 2] {
        assert |c| == m + 1 && c[m] == Chain(ChainLabel(labels[n - 1]), n - 1, n);
        forall k, r | 0 <= k < |c| && 0 <= c[k].begRes <= r < c[k].endRes && r < |labels|
          ensures labels[r] == labels[c[k].begRes]
        {
          if k < m {
            assert c[k] == prev[k];
          }
        }
      } else {
        LastRun(labels, n - 1);
        var last := prev[m - 1];
        assert |c| == m && c[m - 1] == last.(endRes := n);
        forall k, r | 0 <= k < |c| && 0 <= c[k].begRes <= r < c[k].endRes && r < |labels|
          ensures labels[r] == labels[c[k].begRes]
        {
          if k < m - 1 {
            assert c[k] == prev[k];
          } else if r < n - 1 {
            assert prev[k].begRes <= r < prev[k].endRes;
          } else {
            assert labels[n - 2] == labels[last.begRes];
          }
        }
      }
    }
  }

  /** Adjacent chains of the first `n` labels start with different labels. */
  lemma {:induction false} RunsDistinct(labels: seq<int>, n: nat)
    requires n <= |labels|
    requires forall j :: 0 <= j < |labels| ==> labels[j] >= 0
    ensures DistinctStarts(labels, Runs(labels, n))
  {
    if n > 0 {
      RunsDistinct(labels, n - 1);
      var prev := Runs(labels, n - 1);
      var c := Runs(labels, n);
      var m := |prev|;
      if n == 1 || labels[n - 1] != labels[n - 2] {
        assert |c| == m + 1 && c[m] == Chain(ChainLabel(labels[n - 1]), n - 1, n);
        if n > 1 {
          LastRun(labels, n - 1);
        }
        forall j, k | 0 <= j < |c| && 0 <= k < |c| && k == j + 1 &&
                      0 <= c[j].begRes < |labels| && 0 <= c[k].begRes < |labels|
          ensures labels[c[k].begRes] != labels[c[j].begRes]
        {
          assert c[j] == prev[j];
          if k < m {
            assert c[k] == prev[k];
          }
        }
      } else {
        assert |c| == m;
        forall j, k | 0 <= j < |c| && 0 <= k < |c| && k == j + 1 &&
                      0 <= c[j].begRes < |labels| && 0 <= c[k].begRes < |labels|
          ensures labels[c[k].begRes] != labels[c[j].begRes]
        {
          assert c[j].begRes == prev[j].begRes;
          assert c[k].begRes == prev[k].begRes;
        }
      }
    }
  }

  /** Each chain of the first `n` labels is named after its label. */
  lemma {:induction false} RunsLabelled(labels: seq<int>, n: nat)
    requires n <= |labels|
    requires forall j :: 0 <= j < |labels| ==> labels[j] >= 0
    ensures Labelled(labels, Runs(labels, n))
  {
    if n > 0 {
      RunsLabelled(labels, n - 1);
      var prev := Runs(labels, n - 1);
      var c := Runs(labels, n);
      var m := |prev|;
      if n == 1 || labels[n - 1] != labels[n - 2] {
        assert |c| == m + 1 && c[m] == Chain(ChainLabel(labels[n - 1]), n - 1, n);
        forall k | 0 <= k < |c| && 0 <= c[k].begRes < |labels|
          ensures labels[c[k].begRes] >= 0 && c[k].id == ChainLabel(labels[c[k].begRes])
        {
          if k < m {
            assert c[k] == prev[k];
          }
        }
      } else {
        assert |c| == m;
        forall k | 0 <= k < |c| && 0 <= c[k].begRes < |labels|
          ensures labels[c[k].begRes] >= 0 && c[k].id == ChainLabel(labels[c[k].begRes])
        {
          assert c[k].begRes == prev[k].begRes && c[k].id == prev[k].id;
        }
      }
    }
  }

  /** Each chain of all the labels is a run of one label. */
  lemma RunsAreConstant(labels: seq<int>)
    requires forall j :: 0 <= j < |labels| ==> labels[j] >= 0
    ensures Partition(Runs(labels, |labels|), |labels|)
    ensures var chains := Runs(labels, |labels|);
            forall k, r :: 0 <= k < |chains| && chains[k].begRes <= r < chains[k].endRes ==>
              labels[r] == labels[chains[k].begRes]
  {
    var chains := Runs(labels, |labels|);
    RunsPartition(labels, |labels|);
    RunsConstant(labels, |labels|);
    forall k, r | 0 <= k < |chains| && chains[k].begRes <= r < chains[k].endRes
      ensures labels[r] == labels[chains[k].begRes]
    {
      assert 0 <= chains[k].begRes && chains[k].endRes <= |labels|;
    }
  }

  /** Adjacent chains of all the labels carry different labels, so no run is split. */
  lemma RunsAreMaximal(labels: seq<int>)
    requires forall j :: 0 <= j < |labels| ==> labels[j] >= 0
    ensures Partition(Runs(labels, |labels|), |labels|)
    ensures var chains := Runs(labels, |labels|);
            forall k :: 0 < k < |chains| ==> labels[chains[k].begRes] != labels[chains[k - 1].begRes]
  {
    var chains := Runs(labels, |labels|);
    RunsPartition(labels, |labels|);
    RunsDistinct(labels, |labels|);
    forall k | 0 < k < |chains|
      ensures labels[chains[k].begRes] != labels[chains[k - 1].begRes]
    {
      assert 0 <= chains[k].begRes < |labels| && 0 <= chains[k - 1].begRes < |labels|;
    }
  }

  /** Each chain of all the labels is named after its label. */
  lemma RunsAreNamed(labels: seq<int>)
    requires forall j :: 0 <= j < |labels| ==> labels[j] >= 0
    ensures Partition(Runs(labels, |labels|), |labels|)
    ensures var chains := Runs(labels, |labels|);
            forall k :: 0 <= k < |chains| ==> chains[k].id == ChainLabel(labels[chains[k].begRes])
  {
    var chains := Runs(labels, |labels|);
    RunsPartition(labels, |labels|);
    RunsLabelled(labels, |labels|);
    forall k | 0 <= k < |chains|
      ensures chains[k].id == ChainLabel(labels[chains[k].begRes])
    {
      assert 0 <= chains[k].begRes < |labels|;
    }
  }

  /**
   * The second loop of `compute_chains`: one chain per maximal run of equal
   * labels, named `C<label>` after the label the run carries.
   */
  method SplitChains(labels: seq<int>) returns (chains: seq<Chain>)
    requires forall j :: 0 <= j < |labels| ==> labels[j] >= 0
    ensures chains == Runs(labels, |labels|)
    ensures Partition(chains, |labels|)
    ensures forall k, r :: 0 <= k < |chains| && chains[k].begRes <= r < chains[k].endRes ==>
              labels[r] == labels[chains[k].begRes]
    ensures forall k :: 0 < k < |chains| ==> labels[chains[k].begRes] != labels[chains[k - 1].begRes]
    ensures forall k :: 0 <= k < |chains| ==> chains[k].id == ChainLabel(labels[chains[k].begRes])
  {
    chains := [];
    var curr := -1;
    for i := 0 to |labels|
      invariant chains == Runs(labels, i)
      invariant curr == if i > 0 then labels[i - 1] else -1
    {
      if labels[i] != curr {
        curr := labels[i];
        chains := chains + [Chain(ChainLabel(curr), i, i)];
      }
      var last := chains[|chains| - 1];
      chains := chains[|chains| - 1 := last.(endRes := last.endRes + 1)];
    }
    RunsPartition(labels, |labels|);
    RunsAreConstant(labels);
    RunsAreMaximal(labels);
    RunsAreNamed(labels);
  }

  /**
   * `compute_chains`: residues are labelled through the bonds between them and
   * then split into chains, one per maximal run of equal labels.
   */
  method ComputeChains(residues: seq<Residue>, bonds: seq<Bond>, atomResidue: seq<int>)
    returns (chains: seq<Chain>, labels: seq<int>)
    requires atomResidue != [] ==>
               forall b :: b in bonds ==> 0 <= b.idxA < |atomResidue| && 0 <= b.idxB < |atomResidue|
    requires forall k :: 0 <= k < |atomResidue| ==> 0 <= atomResidue[k] < |residues|
    ensures var rbs := if atomResidue == [] then [] else ResidueBonds(bonds, atomResidue);
            && (forall b :: b in rbs ==> 0 <= b.idxB < |residues|)
            && labels == LabelPass(|residues|, rbs, |residues|).labels
    ensures |labels| == |residues|
    ensures forall j :: 0 <= j < |labels| ==> 0 <= labels[j] < |residues|
    ensures chains == Runs(labels, |residues|)
    ensures Partition(chains, |residues|)
    ensures TotalLength(chains) == |residues|
    ensures forall k, r :: 0 <= k < |chains| && chains[k].begRes <= r < chains[k].endRes ==>
              labels[r] == labels[chains[k].begRes]
    ensures forall k :: 0 < k < |chains| ==> labels[chains[k].begRes] != labels[chains[k - 1].begRes]
    ensures forall k :: 0 <= k < |chains| ==> chains[k].id == ChainLabel(labels[chains[k].begRes])
  {
    var rbs := CollectResidueBonds(bonds, atomResidue);
    forall b | b in rbs
      ensures 0 <= b.idxB < |residues|
    {
      ResidueBondsMembers(bonds, atomResidue, b);
    }
    var numChains;
    labels, numChains := LabelResidues(|residues|, rbs);
    chains := SplitChains(labels);
    PartitionLength(chains, |residues|);
  }

  // ---------------------------------------------------------------------
  // Radii and colours
  // ---------------------------------------------------------------------

  /** 32-bit RGBA colour. */
  type Color = c: int | 0 <= c < 0x1_0000_0000

  /** `compute_atom_radii` into a destination no longer than the element list. */
  method ComputeAtomRadiiInto(radii: array<real>, elements: seq<Element>, vdwRadius: Element -> real)
    requires radii.Length <= |elements|
    modifies radii
    ensures forall i :: 0 <= i < radii.Length ==> radii[i] == vdwRadius(elements[i])
  {
    for i := 0 to radii.Length
      invariant forall k :: 0 <= k < i ==> radii[k] == vdwRadius(elements[k])
    {
      radii[i] := vdwRadius(elements[i]);
    }
  }

  /** The allocating `compute_atom_radii`: one radius per element. */
  method ComputeAtomRadii(elements: seq<Element>, vdwRadius: Element -> real) returns (radii: array<real>)
    ensures fresh(radii)
    ensures radii.Length == |elements|
    ensures forall i :: 0 <= i < |elements| ==> radii[i] == vdwRadius(elements[i])
  {
    radii := new real[|elements|](_ => 0.0);
    ComputeAtomRadiiInto(radii, elements, vdwRadius);
  }

  /** The CPK case of `compute_atom_colors` into a destination no longer than the element list. */
  method ComputeAtomColorsCpkInto(colors: array<Color>, mol: MoleculeStructure, cpk: Element -> Color)
    requires colors.Length <= |mol.atomElements|
    modifies colors
    ensures forall i :: 0 <= i < colors.Length ==> colors[i] == cpk(mol.atomElements[i])
  {
    for i := 0 to colors.Length
      invariant forall k :: 0 <= k < i ==> colors[k] == cpk(mol.atomElements[k])
    {
      colors[i] := cpk(mol.atomElements[i]);
    }
  }

  /** The allocating `compute_atom_colors` with the CPK mapping: one colour per atom. */
  method ComputeAtomColorsCpk(mol: MoleculeStructure, cpk: Element -> Color) returns (colors: array<Color>)
    ensures fresh(colors)
    ensures colors.Length == |mol.atomElements|
    ensures forall i :: 0 <= i < colors.Length ==> colors[i] == cpk(mol.atomElements[i])
  {
    colors := new Color[|mol.atomElements|](_ => 0xFFFF_FFFF);
    ComputeAtomColorsCpkInto(colors, mol, cpk);
  }
}
