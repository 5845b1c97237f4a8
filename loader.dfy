/**
 * The loader registry and decode pipeline of `src/loader.cpp`.
 *
 * Two fixed tables of eight slots record the molecules and trajectories that
 * were opened through the loader; a trajectory is wrapped so that every frame
 * it decodes goes through a frame cache and the recenter/deperiodize
 * post-processing.  The frame cache, the per-format decoders and the
 * floating-point transforms are collaborators whose internals are not part of
 * this model: the collaborators' answers are parameters, the transforms are
 * function-valued constants of the registry, and every call made into a
 * collaborator is appended to the registry's `calls` log.
 */
module Loader {
  import opened Wrappers

  /** `uint64_t`: a handle is the address of the exported trajectory interface. */
  const U64: int := 0x1_0000_0000_0000_0000
  type Key = k: int | 0 <= k < U64

  const Int64Min: int := -0x8000_0000_0000_0000
  const Int64Max: int := 0x7fff_ffff_ffff_ffff

  /** Number of slots of each registry table (`ARRAY_SIZE(loaded_*)`). */
  const Capacity: int := 8

  type Byte = b: int | 0 <= b < 256

  // ---------------------------------------------------------------------
  // Loaders and the extension table
  // ---------------------------------------------------------------------

  datatype MoleculeLoader = PdbMolecule | GroMolecule | XyzMolecule | MmcifMolecule

  /** The built-in trajectory loaders, or one supplied by the caller of `OpenFile`. */
  datatype TrajectoryLoader = PdbTrajectory | XtcTrajectory | TrrTrajectory | XyzTrajectory
                            | UserTrajectory(id: nat)

  datatype TableEntry = TableEntry(ext: string, molecule: Option<MoleculeLoader>,
                                   trajectory: Option<TrajectoryLoader>)

  /** The static extension table, in its declared order. */
  const Table: seq<TableEntry> := [
    TableEntry("pdb",  Some(PdbMolecule),   Some(PdbTrajectory)),
    TableEntry("gro",  Some(GroMolecule),   None),
    TableEntry("xtc",  None,                Some(XtcTrajectory)),
    TableEntry("trr",  None,                Some(TrrTrajectory)),
    TableEntry("xyz",  Some(XyzMolecule),   Some(XyzTrajectory)),
    TableEntry("xmol", Some(XyzMolecule),   Some(XyzTrajectory)),
    TableEntry("arc",  Some(XyzMolecule),   Some(XyzTrajectory)),
    TableEntry("cif",  Some(MmcifMolecule), None)
  ]

  /** The extensions of a list of table rows. */
  function Extensions(rows: seq<TableEntry>): (exts: seq<string>)
    ensures |exts| == |rows|
    ensures forall i :: 0 <= i < |rows| ==> exts[i] == rows[i].ext
  {
    seq(|rows|, i requires 0 <= i < |rows| => rows[i].ext)
  }

  /** The first of `rows` whose extension equals `ext`, scanning from the front. */
  function LookupRow(ext: string, rows: seq<TableEntry>): (r: Option<nat>)
    ensures r.Some? ==> r.value < |rows| && rows[r.value].ext == ext
                        && forall i :: 0 <= i < r.value ==> rows[i].ext != ext
    ensures r.None? <==> ext !in Extensions(rows)
  {
    if rows == [] then None
    else if rows[0].ext == ext then Some(0)
    else match LookupRow(ext, rows[1..]) {
      case None => None
      case Some(i) => Some(i + 1)
    }
  }

  function SupportedExtensionCount(): (n: int)
    ensures n == |Table|
    ensures forall i :: 0 <= i < n ==> SupportedExtensionStr(i) != ""
  {
    |Table|
  }

  /** The extension of row `idx`, or the empty string outside the table. */
  function SupportedExtensionStr(idx: int): (s: string)
    ensures s != "" <==> 0 <= idx < |Table|
    ensures 0 <= idx < |Table| ==> s == Table[idx].ext
  {
    if 0 <= idx < |Table| then Table[idx].ext else ""
  }

  /** `load::mol::get_loader_from_ext`. */
  function MoleculeLoaderFromExt(ext: string): (r: Option<MoleculeLoader>)
    ensures ext !in Extensions(Table) ==> r.None?
    ensures forall i :: 0 <= i < |Table| && Table[i].ext == ext ==> r == Table[i].molecule
  {
    TableDistinct();
    match LookupRow(ext, Table) {
      case None => None
      case Some(i) => Table[i].molecule
    }
  }

  /** `load::traj::get_loader_from_ext`. */
  function TrajectoryLoaderFromExt(ext: string): (r: Option<TrajectoryLoader>)
    ensures ext !in Extensions(Table) ==> r.None?
    ensures forall i :: 0 <= i < |Table| && Table[i].ext == ext ==> r == Table[i].trajectory
  {
    TableDistinct();
    match LookupRow(ext, Table) {
      case None => None
      case Some(i) => Table[i].trajectory
    }
  }

  /** No two rows of the table share an extension, so the first match is the only one. */
  lemma TableDistinct()
    ensures forall i, j :: 0 <= i < j < |Table| ==> Table[i].ext != Table[j].ext
  {
  }

  /** Each listed extension resolves to its own row in both roles. */
  lemma ListedExtensionsResolve(i: int)
    requires 0 <= i < SupportedExtensionCount()
    ensures MoleculeLoaderFromExt(SupportedExtensionStr(i)) == Table[i].molecule
    ensures TrajectoryLoaderFromExt(SupportedExtensionStr(i)) == Table[i].trajectory
  {
  }

  /** Structure-only formats have no trajectory loader; trajectory-only formats have no molecule loader. */
  lemma SingleRoleExtensions()
    ensures TrajectoryLoaderFromExt("gro").None? && TrajectoryLoaderFromExt("cif").None?
    ensures MoleculeLoaderFromExt("xtc").None? && MoleculeLoaderFromExt("trr").None?
    ensures MoleculeLoaderFromExt("gro") == Some(GroMolecule)
    ensures TrajectoryLoaderFromExt("xtc") == Some(XtcTrajectory)
  {
    assert Table[1].ext == "gro" && Table[7].ext == "cif";
    assert Table[2].ext == "xtc" && Table[3].ext == "trr";
  }

  /** The trajectory loader `open_file` uses: the supplied one, else the one for the extension. */
  function ResolveLoader(supplied: Option<TrajectoryLoader>, ext: string): (r: Option<TrajectoryLoader>)
    ensures supplied.Some? ==> r == supplied
    ensures supplied.None? ==> r == TrajectoryLoaderFromExt(ext)
  {
    if supplied.Some? then supplied else TrajectoryLoaderFromExt(ext)
  }

  // ---------------------------------------------------------------------
  // The frame index passed through `fetch_frame_data`
  // ---------------------------------------------------------------------

  function Pow256(n: nat): (p: nat)
    ensures p > 0
  {
    if n == 0 then 1 else 256 * Pow256(n - 1)
  }

  /** The `n` least significant bytes of `u`, least significant first. */
  function EncodeLE(u: nat, n: nat): (bytes: seq<Byte>)
    ensures |bytes| == n
  {
    if n == 0 then [] else [u % 256] + EncodeLE(u / 256, n - 1)
  }

  /** The number whose little-endian bytes are `bytes`. */
  function DecodeLE(bytes: seq<Byte>): (u: nat)
    ensures u < Pow256(|bytes|)
  {
    if bytes == [] then 0 else bytes[0] + 256 * DecodeLE(bytes[1..])
  }

  lemma {:induction false} DecodeEncode(u: nat, n: nat)
    requires u < Pow256(n)
    ensures DecodeLE(EncodeLE(u, n)) == u
    decreases n
  {
    if n > 0 {
      var rest := EncodeLE(u / 256, n - 1);
      assert EncodeLE(u, n)[1..] == rest;
      DecodeEncode(u / 256, n - 1);
    }
  }

  lemma {:induction false} EncodeDecode(bytes: seq<Byte>)
    ensures EncodeLE(DecodeLE(bytes), |bytes|) == bytes
    decreases |bytes|
  {
    if bytes != [] {
      var u := DecodeLE(bytes);
      assert u % 256 == bytes[0] && u / 256 == DecodeLE(bytes[1..]);
      EncodeDecode(bytes[1..]);
    }
  }

  /** The eight bytes an `int64_t` store writes on a little-endian target. */
  function Int64Bytes(v: int): (bytes: seq<Byte>)
    requires Int64Min <= v <= Int64Max
    ensures |bytes| == 8
  {
    EncodeLE(if v < 0 then v + U64 else v, 8)
  }

  /** The `int64_t` that eight bytes hold, as two's complement. */
  function ReadInt64(bytes: seq<Byte>): (v: int)
    requires |bytes| == 8
    ensures Int64Min <= v <= Int64Max
  {
    var u := DecodeLE(bytes);
    if u <= Int64Max then u else u - U64
  }

  /** Reading back what was stored gives the same index, and conversely. */
  lemma Int64RoundTrip(v: int, bytes: seq<Byte>)
    requires Int64Min <= v <= Int64Max
    requires |bytes| == 8
    ensures ReadInt64(Int64Bytes(v)) == v
    ensures Int64Bytes(ReadInt64(bytes)) == bytes
  {
    assert Pow256(8) == U64;
    DecodeEncode(if v < 0 then v + U64 else v, 8);
    EncodeDecode(bytes);
  }

  datatype Fetched = Fetched(size: int, written: Option<seq<Byte>>)

  /** `fetch_frame_data` of the wrapper: the "raw data" of a frame is its index. */
  function FetchFrameData(idx: int, hasBuffer: bool): (r: Fetched)
    requires Int64Min <= idx <= Int64Max
    ensures r.size == 8
    ensures r.written.Some? <==> hasBuffer
    ensures r.written.Some? ==> |r.written.value| == r.size && ReadInt64(r.written.value) == idx
  {
    Int64RoundTrip(idx, Int64Bytes(idx));
    Fetched(8, if hasBuffer then Some(Int64Bytes(idx)) else None)
  }

  // ---------------------------------------------------------------------
  // Cache sizing
  // ---------------------------------------------------------------------

  function MiB(x: nat): nat { x * 1024 * 1024 }

  function Min(a: int, b: int): int { if a < b then a else b }
  function Max(a: int, b: int): int { if a < b then b else a }

  /** `CLAMP(x, lo, hi)`, the lower bound applied first. */
  function Clamp(x: int, lo: int, hi: int): int { Min(Max(x, lo), hi) }

  /** The byte budget of a frame cache: the configured size, at least 4 MiB, at most a quarter of RAM. */
  function CacheBytes(budgetMiB: nat, physicalRam: nat): (b: int)
    ensures b <= physicalRam / 4
    ensures physicalRam / 4 >= MiB(4) ==> MiB(4) <= b
    ensures MiB(4) <= MiB(budgetMiB) <= physicalRam / 4 ==> b == MiB(budgetMiB)
    ensures MiB(budgetMiB) < MiB(4) <= physicalRam / 4 ==> b == MiB(4)
    ensures MiB(4) <= physicalRam / 4 < MiB(budgetMiB) ==> b == physicalRam / 4
    ensures physicalRam / 4 < MiB(4) ==> b == physicalRam / 4
  {
    Clamp(MiB(budgetMiB), MiB(4), physicalRam / 4)
  }

  /** `(uint64_t)atom_count * 3 * sizeof(float)`, wrapping modulo 2^64. */
  function FrameBytes(atomCount: int): nat
  {
    (atomCount % U64) * 12 % U64
  }

  /**
   * The number of frames the cache is created with: as many approximate frames
   * as fit the budget, but no more than the trajectory has.
   */
  function CacheFramesFor(numTrajFrames: nat, budgetMiB: nat, physicalRam: nat, atomCount: int): (n: nat)
    requires FrameBytes(atomCount) > 0
    ensures n <= numTrajFrames
    ensures n * FrameBytes(atomCount) <= Max(CacheBytes(budgetMiB, physicalRam), 0)
    ensures n == numTrajFrames || Max(CacheBytes(budgetMiB, physicalRam), 0) < (n + 1) * FrameBytes(atomCount)
  {
    var size: nat := Max(CacheBytes(budgetMiB, physicalRam), 0);
    var frameBytes := FrameBytes(atomCount);
    FramesThatFit(size, frameBytes, numTrajFrames)
  }

  /** The quotient `total / unit` capped at `cap`: the most units, up to `cap`, that fit `total`. */
  function FramesThatFit(total: nat, unit: nat, cap: nat): (n: nat)
    requires unit > 0
    ensures n <= cap
    ensures n * unit <= total
    ensures n == cap || total < (n + 1) * unit
  {
    var fit := total / unit;
    assert total == fit * unit + total % unit;
    assert cap < fit ==> cap * unit <= fit * unit;
    Min(cap, fit)
  }

  // ---------------------------------------------------------------------
  // Frames, decoders and the registry entries
  // ---------------------------------------------------------------------

  /** A frame header; `cellFlags != 0` says the frame has a unit cell. */
  datatype FrameHeader = FrameHeader(numAtoms: int, timestamp: real, cellFlags: int)

  /** The coordinates of a frame, `numAtoms` of each. */
  datatype Coords = Coords(x: seq<real>, y: seq<real>, z: seq<real>)

  datatype FrameData = FrameData(header: FrameHeader, coords: Coords)

  /** What an underlying decoder's `decode_frame_data` reports and writes into the cache slot. */
  datatype DecodeReply = DecodeReply(ok: bool, frame: FrameData)

  /** An underlying per-format trajectory as `create` returned it. */
  datatype Decoder = Decoder(id: nat, numAtoms: int, numFrames: nat)

  /** The molecule a trajectory belongs to; `atomCount` is `mol->atom.count`. */
  datatype MoleculeRef = MoleculeRef(id: nat, atomCount: int)

  /** The resident frames of a frame cache and the number of frames it was created with. */
  datatype FrameCache = FrameCache(capacity: int, frames: map<int, FrameData>)

  datatype LoadedMolecule = LoadedMolecule(key: Key, alloc: nat)

  datatype LoadedTrajectory = LoadedTrajectory(
    key: Key,
    mol: Option<MoleculeRef>,
    loader: Option<TrajectoryLoader>,
    decoder: Option<Decoder>,
    cache: FrameCache,
    alloc: nat,
    recenterTarget: set<nat>,
    deperiodize: bool)

  /** A trajectory slot cleared to zero apart from its key. */
  function ClearedTrajectory(key: Key): (t: LoadedTrajectory)
    ensures t.key == key && t.mol.None? && t.loader.None? && t.decoder.None?
    ensures t.cache.frames == map[] && t.recenterTarget == {} && !t.deperiodize
  {
    LoadedTrajectory(key, None, None, None, FrameCache(0, map[]), 0, {}, false)
  }

  /** The slot `open_file` fills in for a newly opened trajectory. */
  function OpenedTrajectory(handle: Key, mol: MoleculeRef, loader: TrajectoryLoader, decoder: Decoder,
                            alloc: nat, deperiodize: bool, cacheFrames: int): LoadedTrajectory
  {
    LoadedTrajectory(handle, Some(mol), Some(loader), Some(decoder), FrameCache(cacheFrames, map[]),
                     alloc, {}, deperiodize)
  }

  /** A call into a collaborator. */
  datatype Call =
    | LoaderCreate(loader: TrajectoryLoader, filename: string)
    | DecoderDestroy(destroyLoader: Option<TrajectoryLoader>, destroyed: Option<Decoder>)
    | DecoderFetch(fetchFrom: Decoder, fetchIdx: int, toBuffer: bool)
    | DecoderDecode(decodeWith: Decoder, raw: seq<Byte>)
    | CacheFindOrReserve(findHandle: Key, findIdx: int)
    | CacheLockRelease(releaseHandle: Key)
    | CacheFree(freeHandle: Key)
    | Recenter(recenterHandle: Key, mask: set<nat>)
    | Deperiodize(deperiodizeHandle: Key)

  /** What one `decode_frame_data` call produces: its result, the frame it reads from, the new slot and its calls. */
  datatype DecodeOutcome = DecodeOutcome(result: bool, frame: FrameData, slot: LoadedTrajectory, calls: seq<Call>)

  // ---------------------------------------------------------------------
  // Keys of a table prefix
  // ---------------------------------------------------------------------

  function MoleculeKey(m: LoadedMolecule): Key { m.key }
  function TrajectoryKey(t: LoadedTrajectory): Key { t.key }

  function KeysOf<T>(s: seq<T>, keyOf: T -> Key): (keys: seq<Key>)
    ensures |keys| == |s|
    ensures forall i :: 0 <= i < |s| ==> keys[i] == keyOf(s[i])
  {
    seq(|s|, i requires 0 <= i < |s| => keyOf(s[i]))
  }

  predicate Distinct(keys: seq<Key>)
  {
    forall i, j :: 0 <= i < j < |keys| ==> keys[i] != keys[j]
  }

  /** The position of the first occurrence of `key`, scanning from the front. */
  function IndexOf(keys: seq<Key>, key: Key): (r: Option<nat>)
    ensures r.Some? ==> r.value < |keys| && keys[r.value] == key && key !in keys[..r.value]
    ensures r.None? <==> key !in keys
  {
    if keys == [] then None
    else if keys[0] == key then Some(0)
    else match IndexOf(keys[1..], key) {
      case None => None
      case Some(i) =>
        assert keys[1..][..i] == keys[1..i + 1];
        Some(i + 1)
    }
  }

  lemma FirstOccurrence(keys: seq<Key>, key: Key, i: nat)
    requires i < |keys| && keys[i] == key && key !in keys[..i]
    ensures IndexOf(keys, key) == Some(i)
  {
  }

  /** The linear scan of `find_loaded_*` over the first `n` slots. */
  method Find<T>(a: array<T>, n: int, keyOf: T -> Key, key: Key) returns (r: Option<nat>)
    requires 0 <= n <= a.Length
    ensures r == IndexOf(KeysOf(a[..n], keyOf), key)
  {
    ghost var keys := KeysOf(a[..n], keyOf);
    var i := 0;
    while i < n
      invariant 0 <= i <= n
      invariant key !in keys[..i]
    {
      if keyOf(a[i]) == key {
        FirstOccurrence(keys, key, i);
        return Some(i);
      }
      assert keys[..i + 1] == keys[..i] + [keys[i]];
      i := i + 1;
    }
    assert keys[..n] == keys;
    return None;
  }

  /** Writing `x` just past a prefix extends the prefix's keys by `x`'s key. */
  lemma AppendKeys<T>(s: seq<T>, n: nat, x: T, keyOf: T -> Key)
    requires n < |s|
    requires Distinct(KeysOf(s[..n], keyOf))
    requires keyOf(x) !in KeysOf(s[..n], keyOf)
    ensures KeysOf(s[n := x][..n + 1], keyOf) == KeysOf(s[..n], keyOf) + [keyOf(x)]
    ensures Distinct(KeysOf(s[n := x][..n + 1], keyOf))
  {
    var before := KeysOf(s[..n], keyOf);
    var after := KeysOf(s[n := x][..n + 1], keyOf);
    assert after == before + [keyOf(x)];
  }

  /**
   * Overwriting a slot past the prefix, or a slot of the prefix with an entry
   * of the same key, keeps the prefix's keys.
   */
  lemma ReplaceKeys<T>(s: seq<T>, n: nat, i: nat, x: T, keyOf: T -> Key)
    requires i < |s| && n <= |s|
    requires i < n ==> keyOf(x) == keyOf(s[i])
    ensures KeysOf(s[i := x][..n], keyOf) == KeysOf(s[..n], keyOf)
  {
    assert forall j :: 0 <= j < n ==> KeysOf(s[i := x][..n], keyOf)[j] == KeysOf(s[..n], keyOf)[j];
  }

  /**
   * Moving the last entry of a prefix of distinct keys into slot `i` and
   * shortening the prefix by one drops exactly the key of slot `i`.
   */
  lemma SwapRemoveKeys<T>(s: seq<T>, n: nat, i: nat, keyOf: T -> Key)
    requires i < n <= |s|
    requires Distinct(KeysOf(s[..n], keyOf))
    ensures var after := KeysOf(s[i := s[n - 1]][..n - 1], keyOf);
            var before := KeysOf(s[..n], keyOf);
            && Distinct(after)
            && before[i] !in after
            && (forall k :: k in before && k != before[i] ==> k in after)
            && (forall k :: k in after ==> k in before)
  {
    var after := KeysOf(s[i := s[n - 1]][..n - 1], keyOf);
    var before := KeysOf(s[..n], keyOf);
    // slot i of the shortened prefix holds the old last key; every other slot keeps its own
    assert forall j :: 0 <= j < n - 1 ==> after[j] == before[if j == i then n - 1 else j];
    forall k | k in before && k != before[i]
      ensures k in after
    {
      var j :| 0 <= j < n && before[j] == k;
      if j == n - 1 {
        assert after[i] == k;
      } else {
        assert after[j] == k;
      }
    }
  }

  /**
   * `remove_loaded_trajectory` of a slot `i` other than the last, as written:
   * the last entry (key `moved`) is now found by key in slot `i`, but the
   * interface of `moved` still holds `traj->inst` = slot `n - 1`.  That slot
   * keeps a stale copy past the registered count, and the next
   * `alloc_loaded_trajectory`, for any other key `c`, clears it and gives it
   * to `c`, so decodes through the old pointer then read `c`'s entry.
   */
  lemma StaleInstAfterRemoval(s: seq<LoadedTrajectory>, n: nat, i: nat, c: Key)
    requires i + 1 < n <= |s|
    requires Distinct(KeysOf(s[..n], TrajectoryKey))
    requires c != s[n - 1].key
    ensures var moved := s[n - 1].key;
            var removed := s[i := s[n - 1]];
            var reopened := removed[n - 1 := ClearedTrajectory(c)];
            && IndexOf(KeysOf(removed[..n - 1], TrajectoryKey), moved) == Some(i)
            && removed[n - 1] == s[n - 1]
            && reopened[i] == s[n - 1]
            && reopened[n - 1].key == c && reopened[n - 1].key != moved
  {
    var moved := s[n - 1].key;
    var removed := s[i := s[n - 1]];
    var keys := KeysOf(removed[..n - 1], TrajectoryKey);
    var before := KeysOf(s[..n], TrajectoryKey);
    forall j | 0 <= j < i ensures keys[j] != moved {
      assert keys[j] == before[j] && moved == before[n - 1];
    }
    FirstOccurrence(keys, moved, i);
  }

  // ---------------------------------------------------------------------
  // The registry
  // ---------------------------------------------------------------------

  class LoaderRegistry {
    var molecules: array<LoadedMolecule>
    var numMolecules: int
    var trajectories: array<LoadedTrajectory>
    var numTrajectories: int
    /** The calls made into frame caches, decoders and the transforms, oldest first. */
    var calls: seq<Call>
    /**
     * `traj->inst` of every open interface: the slot `open_file` captured for
     * it.  The pointer lives in the caller's `md_trajectory_i`, so removing
     * another trajectory never updates it.
     */
    var inst: map<Key, nat>

    /** `extract_ext` of a file name. */
    const extractExt: string -> string
    /** Translation of all atoms so that the centre of mass of `mask` sits at the box centre (or the origin). */
    const recenter: (Coords, FrameHeader, set<nat>, MoleculeRef) -> Coords
    /** `md_util_deperiodize_system`. */
    const deperiodizeSystem: (Coords, FrameHeader, MoleculeRef) -> Coords

    ghost predicate Valid()
      reads this, molecules, trajectories
    {
      && molecules.Length == Capacity
      && trajectories.Length == Capacity
      && 0 <= numMolecules <= Capacity
      && 0 <= numTrajectories <= Capacity
      && Distinct(KeysOf(molecules[..numMolecules], MoleculeKey))
      && Distinct(KeysOf(trajectories[..numTrajectories], TrajectoryKey))
      && (forall k :: k in inst ==> inst[k] < Capacity)
    }

    function MoleculeKeys(): seq<Key>
      reads this, molecules
      requires 0 <= numMolecules <= molecules.Length
    {
      KeysOf(molecules[..numMolecules], MoleculeKey)
    }

    function TrajectoryKeys(): seq<Key>
      reads this, trajectories
      requires 0 <= numTrajectories <= trajectories.Length
    {
      KeysOf(trajectories[..numTrajectories], TrajectoryKey)
    }

    /** Both tables start zeroed and empty. */
    constructor(extractExt: string -> string,
                recenter: (Coords, FrameHeader, set<nat>, MoleculeRef) -> Coords,
                deperiodizeSystem: (Coords, FrameHeader, MoleculeRef) -> Coords)
      ensures Valid()
      ensures fresh(molecules) && fresh(trajectories)
      ensures numMolecules == 0 && numTrajectories == 0 && calls == [] && inst == map[]
      ensures this.extractExt == extractExt && this.recenter == recenter
      ensures this.deperiodizeSystem == deperiodizeSystem
    {
      this.extractExt := extractExt;
      this.recenter := recenter;
      this.deperiodizeSystem := deperiodizeSystem;
      molecules := new LoadedMolecule[Capacity](_ => LoadedMolecule(0, 0));
      trajectories := new LoadedTrajectory[Capacity](_ => ClearedTrajectory(0));
      numMolecules := 0;
      numTrajectories := 0;
      calls := [];
      inst := map[];
    }

    // --- molecules ---------------------------------------------------

    /** `find_loaded_molecule`: the slot of the first registered molecule with `key`. */
    method FindMolecule(key: Key) returns (slot: Option<nat>)
      requires Valid()
      ensures slot == IndexOf(MoleculeKeys(), key)
      ensures slot.Some? ==> slot.value < numMolecules && molecules[slot.value].key == key
      ensures slot.None? <==> key !in MoleculeKeys()
    {
      slot := Find(molecules, numMolecules, MoleculeKey, key);
    }

    /** `add_loaded_molecule`: appends an entry whose key is not yet registered. */
    method AddMolecule(obj: LoadedMolecule)
      requires Valid()
      requires obj.key !in MoleculeKeys()
      requires numMolecules < Capacity
      modifies this, molecules
      ensures Valid()
      ensures molecules == old(molecules) && trajectories == old(trajectories)
      ensures molecules[..] == old(molecules[..])[old(numMolecules) := obj]
      ensures numMolecules == old(numMolecules) + 1
      ensures MoleculeKeys() == old(MoleculeKeys()) + [obj.key]
      ensures numTrajectories == old(numTrajectories) && calls == old(calls) && inst == old(inst)
    {
      AppendKeys(molecules[..], numMolecules, obj, MoleculeKey);
      molecules[numMolecules] := obj;
      numMolecules := numMolecules + 1;
    }

    /**
     * `remove_loaded_molecule`: the last entry moves into the removed slot.
     * An unregistered key changes nothing (the source asserts in debug builds).
     */
    method RemoveMolecule(key: Key)
      requires Valid()
      modifies this, molecules
      ensures Valid()
      ensures molecules == old(molecules) && trajectories == old(trajectories)
      ensures numTrajectories == old(numTrajectories) && calls == old(calls) && inst == old(inst)
      ensures match IndexOf(old(MoleculeKeys()), key)
        case None => molecules[..] == old(molecules[..]) && numMolecules == old(numMolecules)
        case Some(i) =>
          && numMolecules == old(numMolecules) - 1
          && molecules[..] == old(molecules[..])[i := old(molecules[numMolecules - 1])]
      ensures key !in MoleculeKeys()
      ensures forall k :: k in old(MoleculeKeys()) && k != key ==> k in MoleculeKeys()
      ensures forall k :: k in MoleculeKeys() ==> k in old(MoleculeKeys())
    {
      var slot := Find(molecules, numMolecules, MoleculeKey, key);
      if slot.Some? {
        var i := slot.value;
        SwapRemoveKeys(molecules[..], numMolecules, i, MoleculeKey);
        molecules[i] := molecules[numMolecules - 1];
        numMolecules := numMolecules - 1;
      }
    }

    // --- trajectories ------------------------------------------------

    /** `find_loaded_trajectory`: the slot of the first registered trajectory with `key`. */
    method FindTrajectory(key: Key) returns (slot: Option<nat>)
      requires Valid()
      ensures slot == IndexOf(TrajectoryKeys(), key)
      ensures slot.Some? ==> slot.value < numTrajectories && trajectories[slot.value].key == key
      ensures slot.None? <==> key !in TrajectoryKeys()
    {
      slot := Find(trajectories, numTrajectories, TrajectoryKey, key);
    }

    /** `alloc_loaded_trajectory`: claims the next slot, cleared apart from its key. */
    method AllocTrajectory(key: Key) returns (slot: nat)
      requires Valid()
      requires key !in TrajectoryKeys()
      requires numTrajectories < Capacity
      modifies this, trajectories
      ensures Valid()
      ensures molecules == old(molecules) && trajectories == old(trajectories)
      ensures slot == old(numTrajectories)
      ensures trajectories[..] == old(trajectories[..])[slot := ClearedTrajectory(key)]
      ensures numTrajectories == old(numTrajectories) + 1
      ensures TrajectoryKeys() == old(TrajectoryKeys()) + [key]
      ensures numMolecules == old(numMolecules) && calls == old(calls) && inst == old(inst)
    {
      slot := numTrajectories;
      AppendKeys(trajectories[..], numTrajectories, ClearedTrajectory(key), TrajectoryKey);
      trajectories[slot] := ClearedTrajectory(key);
      numTrajectories := numTrajectories + 1;
    }

    /**
     * `remove_loaded_trajectory`: frees the slot's cache, destroys its decoder
     * and moves the last entry into the slot.  An unregistered key changes
     * nothing (the source asserts in debug builds).
     */
    method RemoveTrajectory(key: Key)
      requires Valid()
      modifies this, trajectories
      ensures Valid()
      ensures molecules == old(molecules) && trajectories == old(trajectories)
      ensures numMolecules == old(numMolecules) && inst == old(inst)
      ensures match IndexOf(old(TrajectoryKeys()), key)
        case None =>
          && trajectories[..] == old(trajectories[..])
          && numTrajectories == old(numTrajectories)
          && calls == old(calls)
        case Some(i) =>
          && numTrajectories == old(numTrajectories) - 1
          && trajectories[..] == old(trajectories[..])[i := old(trajectories[numTrajectories - 1])]
          && calls == old(calls) + [CacheFree(key),
                                    DecoderDestroy(old(trajectories[i].loader), old(trajectories[i].decoder))]
      ensures key !in TrajectoryKeys()
      ensures forall k :: k in old(TrajectoryKeys()) && k != key ==> k in TrajectoryKeys()
      ensures forall k :: k in TrajectoryKeys() ==> k in old(TrajectoryKeys())
    {
      var slot := Find(trajectories, numTrajectories, TrajectoryKey, key);
      if slot.Some? {
        var i := slot.value;
        var t := trajectories[i];
        calls := calls + [CacheFree(key), DecoderDestroy(t.loader, t.decoder)];
        SwapRemoveKeys(trajectories[..], numTrajectories, i, TrajectoryKey);
        trajectories[i] := trajectories[numTrajectories - 1];
        numTrajectories := numTrajectories - 1;
      }
    }

    // --- the decode pipeline -----------------------------------------

    /** A freshly decoded frame after recentering on the target and deperiodizing. */
    function Processed(t: LoadedTrajectory, f: FrameData): (g: FrameData)
      requires t.mol.Some?
      ensures g.header == f.header
      ensures t.recenterTarget == {} && !(t.deperiodize && f.header.cellFlags != 0) ==> g == f
    {
      var mol := t.mol.value;
      var centred := if t.recenterTarget != {} then recenter(f.coords, f.header, t.recenterTarget, mol)
                     else f.coords;
      var wrapped := if t.deperiodize && f.header.cellFlags != 0 then deperiodizeSystem(centred, f.header, mol)
                     else centred;
      FrameData(f.header, wrapped)
    }

    /** The transforms applied to a freshly decoded frame with header `h`, in order. */
    function PostProcessCalls(t: LoadedTrajectory, h: FrameHeader): seq<Call>
    {
      (if t.recenterTarget != {} then [Recenter(t.key, t.recenterTarget)] else [])
      + (if t.deperiodize && h.cellFlags != 0 then [Deperiodize(t.key)] else [])
    }

    function ReleaseCalls(t: LoadedTrajectory, lock: bool): seq<Call>
    {
      if lock then [CacheLockRelease(t.key)] else []
    }

    /**
     * One `decode_frame_data` on slot `t` for frame `idx`: a resident frame is
     * read as it is; otherwise the decoder's raw bytes `fetched` are decoded
     * into a reserved slot (after the cache dropped `evicted`) and, when the
     * decode succeeded, post-processed in place.  `lock` says whether the
     * cache handed out a lock.
     */
    function DecodeEffect(t: LoadedTrajectory, idx: int, lock: bool, evicted: set<int>,
                          fetched: seq<Byte>, reply: DecodeReply): (o: DecodeOutcome)
      requires t.decoder.Some? && t.mol.Some?
      ensures o.slot == t.(cache := o.slot.cache)
    {
      var find := [CacheFindOrReserve(t.key, idx)];
      var release := ReleaseCalls(t, lock);
      if idx in t.cache.frames then
        DecodeOutcome(true, t.cache.frames[idx], t, find + release)
      else
        var d := t.decoder.value;
        var frame := if reply.ok then Processed(t, reply.frame) else reply.frame;
        var post := if reply.ok then PostProcessCalls(t, reply.frame.header) else [];
        var cache := FrameCache(t.cache.capacity, (t.cache.frames - evicted)[idx := frame]);
        DecodeOutcome(reply.ok, frame, t.(cache := cache),
                      find + [DecoderFetch(d, idx, false), DecoderFetch(d, idx, true), DecoderDecode(d, fetched)]
                      + post + release)
    }

    /**
     * `decode_frame_data` on the trajectory in `slot`, the `inst` pointer the
     * interface passes: any slot of the table, registered or not.  The remaining
     * parameters are the answers of the collaborators: whether the cache hands
     * out a lock and which frames it evicts to reserve a slot, the raw bytes the
     * underlying decoder fetches, and what its decode reports.  A requested
     * output comes back as `Some` exactly when it is written.
     */
    method DecodeFrameData(slot: nat, data: seq<Byte>, wantHeader: bool, wantX: bool, wantY: bool, wantZ: bool,
                           lock: bool, evicted: set<int>, fetched: seq<Byte>, reply: DecodeReply)
      returns (result: bool, header: Option<FrameHeader>, x: Option<seq<real>>, y: Option<seq<real>>,
               z: Option<seq<real>>)
      requires Valid()
      requires slot < Capacity
      requires trajectories[slot].decoder.Some? && trajectories[slot].mol.Some?
      requires |data| == 8
      requires 0 <= ReadInt64(data) < trajectories[slot].decoder.value.numFrames
      requires ReadInt64(data) !in evicted
      modifies this, trajectories
      ensures Valid()
      ensures molecules == old(molecules) && trajectories == old(trajectories)
      ensures numMolecules == old(numMolecules) && numTrajectories == old(numTrajectories)
      ensures inst == old(inst)
      ensures var o := DecodeEffect(old(trajectories[slot]), ReadInt64(data), lock, evicted, fetched, reply);
              && result == o.result
              && header == (if result && wantHeader then Some(o.frame.header) else None)
              && x == (if result && wantX then Some(o.frame.coords.x) else None)
              && y == (if result && wantY then Some(o.frame.coords.y) else None)
              && z == (if result && wantZ then Some(o.frame.coords.z) else None)
              && trajectories[..] == old(trajectories[..])[slot := o.slot]
              && calls == old(calls) + o.calls
    {
      var t := trajectories[slot];
      var frame, t', made;
      result, frame, t', made := DecodeSteps(t, ReadInt64(data), lock, evicted, fetched, reply);
      ReplaceKeys(trajectories[..], numTrajectories, slot, t', TrajectoryKey);
      trajectories[slot] := t';
      calls := calls + made;
      header, x, y, z := None, None, None, None;
      if result {
        if wantHeader { header := Some(frame.header); }
        if wantX { x := Some(frame.coords.x); }
        if wantY { y := Some(frame.coords.y); }
        if wantZ { z := Some(frame.coords.z); }
      }
    }

    /**
     * The steps of `decode_frame_data` on the slot value `t`: the result, the
     * frame the outputs are copied from, the slot afterwards and the calls made.
     */
    method DecodeSteps(t: LoadedTrajectory, idx: int, lock: bool, evicted: set<int>,
                       fetched: seq<Byte>, reply: DecodeReply)
      returns (result: bool, frame: FrameData, after: LoadedTrajectory, made: seq<Call>)
      requires t.decoder.Some? && t.mol.Some?
      ensures DecodeOutcome(result, frame, after, made) == DecodeEffect(t, idx, lock, evicted, fetched, reply)
    {
      made := [CacheFindOrReserve(t.key, idx)];
      result := true;
      after := t;
      if idx in t.cache.frames {
        frame := t.cache.frames[idx];
      } else {
        var d := t.decoder.value;
        made := made + [DecoderFetch(d, idx, false), DecoderFetch(d, idx, true), DecoderDecode(d, fetched)];
        result := reply.ok;
        frame := reply.frame;
        if result {
          var mol := t.mol.value;
          var haveCell := frame.header.cellFlags != 0;
          if t.recenterTarget != {} {
            made := made + [Recenter(t.key, t.recenterTarget)];
            frame := frame.(coords := recenter(frame.coords, frame.header, t.recenterTarget, mol));
          }
          if t.deperiodize && haveCell {
            made := made + [Deperiodize(t.key)];
            frame := frame.(coords := deperiodizeSystem(frame.coords, frame.header, mol));
          }
        }
        after := t.(cache := FrameCache(t.cache.capacity, (t.cache.frames - evicted)[idx := frame]));
      }
      if lock {
        made := made + [CacheLockRelease(t.key)];
      }
    }

    /**
     * `load_frame` on the `inst` pointer `slot`: decodes frame `idx` by passing
     * its index as the raw frame data.
     */
    method LoadFrame(slot: nat, idx: int, wantHeader: bool, wantX: bool, wantY: bool, wantZ: bool,
                     lock: bool, evicted: set<int>, fetched: seq<Byte>, reply: DecodeReply)
      returns (result: bool, header: Option<FrameHeader>, x: Option<seq<real>>, y: Option<seq<real>>,
               z: Option<seq<real>>)
      requires Valid()
      requires slot < Capacity
      requires trajectories[slot].decoder.Some? && trajectories[slot].mol.Some?
      requires Int64Min <= idx <= Int64Max
      requires 0 <= idx < trajectories[slot].decoder.value.numFrames
      requires idx !in evicted
      modifies this, trajectories
      ensures Valid()
      ensures molecules == old(molecules) && trajectories == old(trajectories)
      ensures numMolecules == old(numMolecules) && numTrajectories == old(numTrajectories)
      ensures inst == old(inst)
      ensures var o := DecodeEffect(old(trajectories[slot]), idx, lock, evicted, fetched, reply);
              && result == o.result
              && header == (if result && wantHeader then Some(o.frame.header) else None)
              && x == (if result && wantX then Some(o.frame.coords.x) else None)
              && y == (if result && wantY then Some(o.frame.coords.y) else None)
              && z == (if result && wantZ then Some(o.frame.coords.z) else None)
              && trajectories[..] == old(trajectories[..])[slot := o.slot]
              && calls == old(calls) + o.calls
    {
      Int64RoundTrip(idx, Int64Bytes(idx));
      result, header, x, y, z :=
        DecodeFrameData(slot, Int64Bytes(idx), wantHeader, wantX, wantY, wantZ, lock, evicted, fetched, reply);
    }

    /**
     * `load_frame` on the entry registered under `handle`, found by key as
     * `set_recenter_target` and `clear_cache` find it: a trajectory's frames
     * then always come from its own entry, whatever was removed before.  An
     * unregistered handle is reported with `false` and changes nothing.
     */
    method LoadFrameByKey(handle: Key, idx: int, wantHeader: bool, wantX: bool, wantY: bool, wantZ: bool,
                          lock: bool, evicted: set<int>, fetched: seq<Byte>, reply: DecodeReply)
      returns (result: bool, header: Option<FrameHeader>, x: Option<seq<real>>, y: Option<seq<real>>,
               z: Option<seq<real>>)
      requires Valid()
      requires handle in TrajectoryKeys() ==>
                 var t := trajectories[IndexOf(TrajectoryKeys(), handle).value];
                 t.decoder.Some? && t.mol.Some? && 0 <= idx < t.decoder.value.numFrames
      requires Int64Min <= idx <= Int64Max
      requires idx !in evicted
      modifies this, trajectories
      ensures Valid()
      ensures molecules == old(molecules) && trajectories == old(trajectories)
      ensures numMolecules == old(numMolecules) && numTrajectories == old(numTrajectories)
      ensures inst == old(inst)
      ensures handle !in old(TrajectoryKeys()) ==>
                && !result && header.None? && x.None? && y.None? && z.None?
                && trajectories[..] == old(trajectories[..]) && calls == old(calls)
      ensures handle in old(TrajectoryKeys()) ==>
                var i := IndexOf(old(TrajectoryKeys()), handle).value;
                var o := DecodeEffect(old(trajectories[i]), idx, lock, evicted, fetched, reply);
                && old(trajectories[i]).key == handle
                && result == o.result
                && header == (if result && wantHeader then Some(o.frame.header) else None)
                && x == (if result && wantX then Some(o.frame.coords.x) else None)
                && y == (if result && wantY then Some(o.frame.coords.y) else None)
                && z == (if result && wantZ then Some(o.frame.coords.z) else None)
                && trajectories[..] == old(trajectories[..])[i := o.slot]
                && calls == old(calls) + o.calls
    {
      var slot := FindTrajectory(handle);
      if slot.None? {
        return false, None, None, None, None;
      }
      result, header, x, y, z :=
        LoadFrame(slot.value, idx, wantHeader, wantX, wantY, wantZ, lock, evicted, fetched, reply);
    }

    /** On a hit the frame is read from the cache: nothing is fetched or decoded and the slot is unchanged. */
    lemma DecodeHit(t: LoadedTrajectory, idx: int, lock: bool, evicted: set<int>,
                    fetched: seq<Byte>, reply: DecodeReply)
      requires t.decoder.Some? && t.mol.Some?
      requires idx in t.cache.frames
      ensures var o := DecodeEffect(t, idx, lock, evicted, fetched, reply);
              && o.result && o.frame == t.cache.frames[idx] && o.slot == t
              && forall c :: c in o.calls ==> !c.DecoderFetch? && !c.DecoderDecode?
    {
    }

    /**
     * On a miss the decoder is asked once for the size, once for the bytes and
     * decodes once; the reserved slot then holds the frame that is read, and
     * every other resident frame that was not evicted stays.
     */
    lemma DecodeMiss(t: LoadedTrajectory, idx: int, lock: bool, evicted: set<int>,
                     fetched: seq<Byte>, reply: DecodeReply)
      requires t.decoder.Some? && t.mol.Some?
      requires idx !in t.cache.frames
      ensures var o := DecodeEffect(t, idx, lock, evicted, fetched, reply);
              && o.result == reply.ok
              && Decodes(o.calls) == 1
              && DecoderDecode(t.decoder.value, fetched) in o.calls
              && idx in o.slot.cache.frames && o.slot.cache.frames[idx] == o.frame
              && (forall k :: k in t.cache.frames && k !in evicted ==>
                    k in o.slot.cache.frames && o.slot.cache.frames[k] == t.cache.frames[k])
              && o.slot.cache.capacity == t.cache.capacity
    {
      var o := DecodeEffect(t, idx, lock, evicted, fetched, reply);
      var d := t.decoder.value;
      var pre := [CacheFindOrReserve(t.key, idx), DecoderFetch(d, idx, false), DecoderFetch(d, idx, true)];
      var decode := [DecoderDecode(d, fetched)];
      var rest := (if reply.ok then PostProcessCalls(t, reply.frame.header) else []) + ReleaseCalls(t, lock);
      assert o.calls == pre + decode + rest;
      NoDecodesCount(pre);
      NoDecodesCount(rest);
      DecodesAppend(pre, decode);
      DecodesAppend(pre + decode, rest);
    }

    /**
     * Recentering happens exactly when a missed frame decoded and the target
     * is non-empty; deperiodizing exactly when a missed frame decoded, the
     * trajectory deperiodizes and the frame has a unit cell.
     */
    lemma DecodePostProcessing(t: LoadedTrajectory, idx: int, lock: bool, evicted: set<int>,
                               fetched: seq<Byte>, reply: DecodeReply)
      requires t.decoder.Some? && t.mol.Some?
      ensures var o := DecodeEffect(t, idx, lock, evicted, fetched, reply);
              var miss := idx !in t.cache.frames && reply.ok;
              && (Recenter(t.key, t.recenterTarget) in o.calls <==> miss && t.recenterTarget != {})
              && (Deperiodize(t.key) in o.calls <==> miss && t.deperiodize && reply.frame.header.cellFlags != 0)
              && (forall c :: c in o.calls && c.Recenter? ==> c.mask == t.recenterTarget && c.mask != {})
    {
      var o := DecodeEffect(t, idx, lock, evicted, fetched, reply);
      var find := [CacheFindOrReserve(t.key, idx)];
      var release := ReleaseCalls(t, lock);
      assert forall c: Call :: c in find + release ==> !c.Recenter? && !c.Deperiodize?;
      if idx in t.cache.frames {
        assert o.calls == find + release;
      } else {
        var d := t.decoder.value;
        var pre := find + [DecoderFetch(d, idx, false), DecoderFetch(d, idx, true), DecoderDecode(d, fetched)];
        var post := if reply.ok then PostProcessCalls(t, reply.frame.header) else [];
        assert o.calls == pre + post + release;
        assert forall c: Call :: c in pre ==> !c.Recenter? && !c.Deperiodize?;
      }
    }

    /** The lock is released exactly when one was handed out, as the last call. */
    lemma DecodeReleasesLock(t: LoadedTrajectory, idx: int, lock: bool, evicted: set<int>,
                             fetched: seq<Byte>, reply: DecodeReply)
      requires t.decoder.Some? && t.mol.Some?
      ensures var o := DecodeEffect(t, idx, lock, evicted, fetched, reply);
              && (CacheLockRelease(t.key) in o.calls <==> lock)
              && (lock ==> o.calls[|o.calls| - 1] == CacheLockRelease(t.key))
              && o.calls[0] == CacheFindOrReserve(t.key, idx)
    {
    }

    // --- open, close and the mutators --------------------------------

    /**
     * `open_file`.  `created` is what the resolved loader's `create` returns
     * and `handle` the freshly allocated interface; `budgetMiB` is the
     * configured cache size and `physicalRam` what the OS reports.
     */
    method OpenFile(filename: string, loader: Option<TrajectoryLoader>, mol: MoleculeRef, alloc: nat,
                    deperiodizeOnLoad: bool, created: Option<Decoder>, handle: Key,
                    budgetMiB: nat, physicalRam: nat) returns (traj: Option<Key>)
      requires Valid()
      requires alloc != 0
      requires ResolveLoader(loader, extractExt(filename)).Some? && created.Some?
               && created.value.numAtoms == mol.atomCount
               ==> handle !in TrajectoryKeys() && numTrajectories < Capacity && FrameBytes(mol.atomCount) > 0
      modifies this, trajectories
      ensures Valid()
      ensures molecules == old(molecules) && trajectories == old(trajectories)
      ensures numMolecules == old(numMolecules)
      ensures var resolved := ResolveLoader(loader, extractExt(filename));
        if resolved.None? then
          && traj.None? && calls == old(calls)
          && trajectories[..] == old(trajectories[..]) && numTrajectories == old(numTrajectories)
        else if created.None? then
          && traj.None? && calls == old(calls) + [LoaderCreate(resolved.value, filename)]
          && trajectories[..] == old(trajectories[..]) && numTrajectories == old(numTrajectories)
        else if created.value.numAtoms != mol.atomCount then
          && traj.None?
          && calls == old(calls) + [LoaderCreate(resolved.value, filename), DecoderDestroy(resolved, created)]
          && trajectories[..] == old(trajectories[..]) && numTrajectories == old(numTrajectories)
        else
          && traj == Some(handle)
          && calls == old(calls) + [LoaderCreate(resolved.value, filename)]
          && numTrajectories == old(numTrajectories) + 1
          && TrajectoryKeys() == old(TrajectoryKeys()) + [handle]
          && trajectories[..] == old(trajectories[..])[old(numTrajectories) :=
               OpenedTrajectory(handle, mol, resolved.value, created.value, alloc, deperiodizeOnLoad,
                                CacheFramesFor(created.value.numFrames, budgetMiB, physicalRam, mol.atomCount))]
      ensures inst == if traj.Some? then old(inst)[handle := old(numTrajectories)] else old(inst)
    {
      var resolved := if loader.Some? then loader else TrajectoryLoaderFromExt(extractExt(filename));
      if resolved.None? {
        return None;
      }
      calls := calls + [LoaderCreate(resolved.value, filename)];
      if created.None? {
        return None;
      }
      var internal := created.value;
      if internal.numAtoms != mol.atomCount {
        calls := calls + [DecoderDestroy(resolved, created)];
        return None;
      }
      var slot := AllocTrajectory(handle);
      var cacheFrames := CacheFramesFor(internal.numFrames, budgetMiB, physicalRam, mol.atomCount);
      var entry := OpenedTrajectory(handle, mol, resolved.value, internal, alloc, deperiodizeOnLoad, cacheFrames);
      ReplaceKeys(trajectories[..], numTrajectories, slot, entry, TrajectoryKey);
      trajectories[slot] := entry;
      inst := inst[handle := slot];
      traj := Some(handle);
    }

    /**
     * `close`: unregisters an open trajectory and zeroes its interface, which
     * drops its `inst`; an unregistered handle is reported with `false`.
     */
    method Close(handle: Key) returns (ok: bool)
      requires Valid()
      modifies this, trajectories
      ensures Valid()
      ensures molecules == old(molecules) && trajectories == old(trajectories)
      ensures numMolecules == old(numMolecules)
      ensures ok <==> handle in old(TrajectoryKeys())
      ensures !ok ==> trajectories[..] == old(trajectories[..]) && numTrajectories == old(numTrajectories)
                      && calls == old(calls)
      ensures ok ==> var i := IndexOf(old(TrajectoryKeys()), handle).value;
                     && numTrajectories == old(numTrajectories) - 1
                     && trajectories[..] == old(trajectories[..])[i := old(trajectories[numTrajectories - 1])]
                     && calls == old(calls) + [CacheFree(handle),
                                               DecoderDestroy(old(trajectories[i].loader), old(trajectories[i].decoder))]
      ensures handle !in TrajectoryKeys()
      ensures forall k :: k in old(TrajectoryKeys()) && k != handle ==> k in TrajectoryKeys()
      ensures forall k :: k in TrajectoryKeys() ==> k in old(TrajectoryKeys())
      ensures inst == if ok then old(inst) - {handle} else old(inst)
    {
      var slot := FindTrajectory(handle);
      if slot.Some? {
        RemoveTrajectory(handle);
        inst := inst - {handle};
        return true;
      }
      return false;
    }

    /** `set_recenter_target`: replaces the target by a copy of `mask`, or clears it; cached frames stay. */
    method SetRecenterTarget(handle: Key, mask: Option<set<nat>>) returns (ok: bool)
      requires Valid()
      modifies this, trajectories
      ensures Valid()
      ensures molecules == old(molecules) && trajectories == old(trajectories)
      ensures numMolecules == old(numMolecules) && numTrajectories == old(numTrajectories)
      ensures calls == old(calls) && inst == old(inst)
      ensures ok <==> handle in old(TrajectoryKeys())
      ensures !ok ==> trajectories[..] == old(trajectories[..])
      ensures ok ==> var i := IndexOf(old(TrajectoryKeys()), handle).value;
                     trajectories[..] == old(trajectories[..])[i :=
                       old(trajectories[i]).(recenterTarget := if mask.Some? then mask.value else {})]
    {
      var slot := FindTrajectory(handle);
      if slot.None? {
        return false;
      }
      var i := slot.value;
      var t := trajectories[i].(recenterTarget := if mask.Some? then mask.value else {});
      ReplaceKeys(trajectories[..], numTrajectories, i, t, TrajectoryKey);
      trajectories[i] := t;
      return true;
    }

    /** `clear_cache`: drops every resident frame of the trajectory's cache. */
    method ClearCache(handle: Key) returns (ok: bool)
      requires Valid()
      modifies this, trajectories
      ensures Valid()
      ensures molecules == old(molecules) && trajectories == old(trajectories)
      ensures numMolecules == old(numMolecules) && numTrajectories == old(numTrajectories)
      ensures calls == old(calls) && inst == old(inst)
      ensures ok <==> handle in old(TrajectoryKeys())
      ensures !ok ==> trajectories[..] == old(trajectories[..])
      ensures ok ==> var i := IndexOf(old(TrajectoryKeys()), handle).value;
                     trajectories[..] == old(trajectories[..])[i :=
                       old(trajectories[i]).(cache := old(trajectories[i]).cache.(frames := map[]))]
    {
      var slot := FindTrajectory(handle);
      if slot.None? {
        return false;
      }
      var i := slot.value;
      var t := trajectories[i].(cache := trajectories[i].cache.(frames := map[]));
      ReplaceKeys(trajectories[..], numTrajectories, i, t, TrajectoryKey);
      trajectories[i] := t;
      return true;
    }

    /** `num_cache_frames`: the frame count the trajectory's cache was created with, 0 when unregistered. */
    method NumCacheFrames(handle: Key) returns (n: int)
      requires Valid()
      ensures handle !in TrajectoryKeys() ==> n == 0
      ensures handle in TrajectoryKeys() ==>
                n == trajectories[IndexOf(TrajectoryKeys(), handle).value].cache.capacity
    {
      var slot := FindTrajectory(handle);
      if slot.None? {
        return 0;
      }
      return trajectories[slot.value].cache.capacity;
    }
  }

  /** The number of decode calls in a call log. */
  function Decodes(cs: seq<Call>): nat
  {
    if cs == [] then 0
    else Decodes(cs[..|cs| - 1]) + (if cs[|cs| - 1].DecoderDecode? then 1 else 0)
  }

  predicate NoDecodes(cs: seq<Call>)
  {
    forall c :: c in cs ==> !c.DecoderDecode?
  }

  lemma {:induction false} DecodesAppend(a: seq<Call>, b: seq<Call>)
    ensures Decodes(a + b) == Decodes(a) + Decodes(b)
    decreases |b|
  {
    if b == [] {
      assert a + b == a;
    } else {
      assert (a + b)[..|a + b| - 1] == a + b[..|b| - 1];
      DecodesAppend(a, b[..|b| - 1]);
    }
  }

  lemma {:induction false} NoDecodesCount(cs: seq<Call>)
    requires NoDecodes(cs)
    ensures Decodes(cs) == 0
    decreases |cs|
  {
    if cs != [] {
      assert forall c :: c in cs[..|cs| - 1] ==> c in cs;
      NoDecodesCount(cs[..|cs| - 1]);
    }
  }

  /**
   * Two trajectories opened one after the other and the first one closed: the
   * second is now registered in slot 0, while its interface still points at
   * slot 1, the slot `open_file` captured for it.
   */
  method StaleInstScenario(extractExt: string -> string,
                           recenter: (Coords, FrameHeader, set<nat>, MoleculeRef) -> Coords,
                           deperiodizeSystem: (Coords, FrameHeader, MoleculeRef) -> Coords)
    returns (r: LoaderRegistry)
    ensures fresh(r) && r.Valid()
    ensures r.inst == map[2 := 1]
    ensures r.TrajectoryKeys() == [2]
    ensures IndexOf(r.TrajectoryKeys(), 2) == Some(0)
  {
    r := new LoaderRegistry(extractExt, recenter, deperiodizeSystem);
    OpenXtc(r, 1);
    assert r.TrajectoryKeys() == [1];
    OpenXtc(r, 2);
    CloseFirstOfTwo(r);
    assert IndexOf([2], 2) == Some(0);
  }

  /** Closes the first of two registered trajectories: the last one moves into its slot. */
  method CloseFirstOfTwo(r: LoaderRegistry)
    requires r.Valid() && r.TrajectoryKeys() == [1, 2]
    modifies r, r.trajectories
    ensures r.Valid()
    ensures r.TrajectoryKeys() == [2]
    ensures r.inst == old(r.inst) - {1}
  {
    assert IndexOf([1, 2], 1) == Some(0);
    var ok := r.Close(1);
    assert r.TrajectoryKeys()[0] == 2;
  }

  /** Opens an xtc trajectory of one atom under the fresh handle `handle`. */
  method OpenXtc(r: LoaderRegistry, handle: Key)
    requires r.Valid() && handle !in r.TrajectoryKeys() && r.numTrajectories < Capacity
    modifies r, r.trajectories
    ensures r.Valid() && r.trajectories == old(r.trajectories)
    ensures r.TrajectoryKeys() == old(r.TrajectoryKeys()) + [handle]
    ensures r.inst == old(r.inst)[handle := old(r.numTrajectories)]
  {
    var mol := MoleculeRef(0, 1);
    var traj := r.OpenFile("t.xtc", Some(XtcTrajectory), mol, 1, false, Some(Decoder(0, 1, 10)), handle, 0, 0);
  }
}
