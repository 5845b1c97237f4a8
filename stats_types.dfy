/**
 * Entities of the statistics engine (src/stats/stats.cpp, src/stats/stats.h)
 * and the pure lookups over its tables.
 */
module StatsTypes {
  import opened Wrappers
  import opened Text
  import opened MolTypes

  /** `stats::ID`, an unsigned 64-bit hash. */
  type ID = x: int | 0 <= x < 0x1_0000_0000_0000_0000
  const InvalidId: ID := 0

  /** `math::PI`. */
  const Pi: real := 3.14159265358979323846

  /** `FLT_MAX`, the largest finite single-precision value. */
  const FltMax: real := 340282346638528859811704183484516925440.0

  /** Name and argument buffers are written with `snprintf` into 64 bytes. */
  const NameBufferSize: nat := 64

  /** A contiguous atom range `[begAtom, endAtom)`. */
  datatype Structure = Structure(begAtom: int, endAtom: int)

  datatype PropertyType = Inter | Intra

  /** The frames of a trajectory: `numFrames` and the atom positions per frame. */
  datatype Trajectory = Trajectory(numFrames: nat, frameBuffer: seq<seq<Vec3>>)

  /** `MoleculeDynamic`: the molecule and trajectory pointers, either possibly null. */
  datatype MoleculeDynamic = MoleculeDynamic(molecule: Option<MoleculeStructure>, trajectory: Option<Trajectory>)

  /**
   * What a property compute callback leaves behind: its boolean return value
   * and the values it wrote at the start of the zero-initialised buffer.
   */
  datatype ComputeResult = ComputeResult(success: bool, written: seq<real>)

  type ComputeFunc = (seq<string>, MoleculeStructure, Trajectory, Structure) -> ComputeResult
  type ExtractFunc = (seq<string>, MoleculeStructure) -> seq<Structure>

  /** The value range of a property command, `{min, max}`. */
  datatype Range = Range(lo: real, hi: real)

  datatype PropertyCommandDescriptor = PropertyCommandDescriptor(
    computeFunction: ComputeFunc, valRange: Range, kind: PropertyType, periodic: bool, unit: string)

  datatype PropertyCommand = PropertyCommand(
    id: ID, func: ComputeFunc, valRange: Range, kind: PropertyType, periodic: bool, unit: string)

  datatype GroupCommand = GroupCommand(id: ID, func: ExtractFunc)

  datatype Property = Property(
    id: ID, dataAvgId: ID, dataBegId: ID, dataCount: int,
    filterMin: real, filterMax: real,
    cmdId: ID, name: string, args: string)

  datatype GroupInstance = GroupInstance(id: ID, groupId: ID, structure: Structure)

  datatype PropertyData = PropertyData(id: ID, propertyId: ID, instanceId: ID, data: seq<real>)

  datatype Group = Group(id: ID, instanceBegId: ID, instanceCount: int, cmdId: ID, name: string, args: string)

  function GroupIdOf(g: Group): ID { g.id }
  function PropertyIdOf(p: Property): ID { p.id }
  function InstanceIdOf(i: GroupInstance): ID { i.id }
  function GroupCommandIdOf(c: GroupCommand): ID { c.id }
  function PropertyCommandIdOf(c: PropertyCommand): ID { c.id }

  /** `find_id`: the position of the first item whose id is `id`, if any. */
  function FindId<T>(items: seq<T>, idOf: T -> ID, id: ID): (r: Option<nat>)
    ensures r.Some? ==> r.value < |items| && idOf(items[r.value]) == id
    ensures r.Some? ==> forall k :: 0 <= k < r.value ==> idOf(items[k]) != id
    ensures r.None? <==> forall k :: 0 <= k < |items| ==> idOf(items[k]) != id
  {
    if items == [] then None
    else if idOf(items[0]) == id then Some(0)
    else match FindId(items[1..], idOf, id)
      case None => None
      case Some(k) => Some(k + 1)
  }

  /** Appending never changes which item `find_id` finds first, once one is found. */
  lemma FindIdAppend<T>(items: seq<T>, more: seq<T>, idOf: T -> ID, id: ID)
    requires FindId(items, idOf, id).Some?
    ensures FindId(items + more, idOf, id) == FindId(items, idOf, id)
  {
    var k := FindId(items, idOf, id).value;
    var r := FindId(items + more, idOf, id);
    assert (items + more)[k] == items[k];
    assert forall j :: 0 <= j < k ==> (items + more)[j] == items[j];
  }

  /** `get_group(name)`: the position of the first group with that name. */
  function GroupIndexByName(groups: seq<Group>, name: string): (r: Option<nat>)
    ensures r.Some? ==> r.value < |groups| && groups[r.value].name == name
    ensures r.Some? ==> forall k :: 0 <= k < r.value ==> groups[k].name != name
    ensures r.None? <==> forall k :: 0 <= k < |groups| ==> groups[k].name != name
  {
    if groups == [] then None
    else if groups[0].name == name then Some(0)
    else match GroupIndexByName(groups[1..], name)
      case None => None
      case Some(k) => Some(k + 1)
  }

  /** `get_group(name)`: the id of the first group with that name, or `INVALID_ID`. */
  function GetGroupByName(groups: seq<Group>, name: string): (r: ID)
    ensures (forall k :: 0 <= k < |groups| ==> groups[k].name != name) ==> r == InvalidId
    ensures forall k ::
              (0 <= k < |groups| && groups[k].name == name && forall j :: 0 <= j < k ==> groups[j].name != name)
              ==> r == groups[k].id
  {
    match GroupIndexByName(groups, name)
    case None => InvalidId
    case Some(k) => groups[k].id
  }

  /** The instances belonging to group `gid`, in insertion order. */
  function MembersOf(instances: seq<GroupInstance>, gid: ID): (r: seq<GroupInstance>)
    ensures |r| <= |instances|
  {
    if instances == [] then []
    else
      var rest := MembersOf(instances[..|instances| - 1], gid);
      var last := instances[|instances| - 1];
      if last.groupId == gid then rest + [last] else rest
  }

  /** Every member belongs to the group and is one of the instances. */
  lemma {:induction false} MembersOfBelong(instances: seq<GroupInstance>, gid: ID, i: nat)
    requires i < |MembersOf(instances, gid)|
    ensures MembersOf(instances, gid)[i] in instances && MembersOf(instances, gid)[i].groupId == gid
    decreases |instances|
  {
    var n := |instances| - 1;
    var rest := MembersOf(instances[..n], gid);
    if i < |rest| {
      MembersOfBelong(instances[..n], gid, i);
      assert rest[i] in instances[..n];
    }
  }

  lemma {:induction false} MembersOfAppend(a: seq<GroupInstance>, b: seq<GroupInstance>, gid: ID)
    ensures MembersOf(a + b, gid) == MembersOf(a, gid) + MembersOf(b, gid)
    decreases |b|
  {
    if b == [] {
      assert a + b == a;
    } else {
      var b' := b[..|b| - 1];
      assert (a + b)[..|a + b| - 1] == a + b';
      assert b[..|b| - 1] == b';
      MembersOfAppend(a, b', gid);
    }
  }

  /**
   * `get_group_instance(gid, idx)`: the id of the `idx`-th instance (0-based,
   * insertion order) of group `gid`, or `INVALID_ID` when it has fewer.
   */
  function GroupInstanceAt(instances: seq<GroupInstance>, gid: ID, idx: int): ID
  {
    var ms := MembersOf(instances, gid);
    if 0 <= idx < |ms| then ms[idx].id else InvalidId
  }

  /** A lookup by ordinal within range names an instance that `find_id` then finds. */
  lemma InstanceLookupSucceeds(instances: seq<GroupInstance>, gid: ID, idx: int)
    requires 0 <= idx < |MembersOf(instances, gid)|
    ensures FindId(instances, InstanceIdOf, GroupInstanceAt(instances, gid, idx)).Some?
  {
    var m := MembersOf(instances, gid)[idx];
    MembersOfBelong(instances, gid, idx);
    var k :| 0 <= k < |instances| && instances[k] == m;
    assert InstanceIdOf(instances[k]) == GroupInstanceAt(instances, gid, idx);
  }

  /** The name `"<group>.<i>"` from which an instance's id is hashed. */
  function InstanceName(groupName: string, i: nat): string
  {
    Bounded(groupName + "." + NatToString(i), NameBufferSize)
  }
}
