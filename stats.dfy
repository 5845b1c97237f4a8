/**
 * The statistics context of src/stats/stats.cpp: the global `ctx` with its
 * growable tables, and the operations that append to, scan and update them.
 * `COMPUTE_ID` (crc64 of a string) and the geometry behind the built-in
 * property commands are fixed when the context is constructed.
 */
module Stats {
  import opened Wrappers
  import opened Text
  import opened MolTypes
  import opened StatsTypes
  import opened StatsBuiltins
  import opened StatsSpec

  /** The `dist`/`bond` command: distances in ångström, `{0, FLT_MAX}`, not periodic. */
  function DistanceCommand(computeId: string -> ID, geo: Geometry, keyword: string): PropertyCommand
  {
    PropertyCommand(computeId(keyword), (args, mol, traj, s) => ComputeAtomicDistance(geo, args, traj, s),
                    Range(0.0, FltMax), Intra, false, "å")
  }

  /** The `angle` command: `{0, PI}`, periodic, in degrees. */
  function AngleCommand(computeId: string -> ID, geo: Geometry): PropertyCommand
  {
    PropertyCommand(computeId("angle"), (args, mol, traj, s) => ComputeAtomicAngle(geo, args, traj, s),
                    Range(0.0, Pi), Intra, true, "°")
  }

  /** The `dihedral` command: `{-PI, PI}`, periodic, in degrees. */
  function DihedralCommand(computeId: string -> ID, geo: Geometry): PropertyCommand
  {
    PropertyCommand(computeId("dihedral"), (args, mol, traj, s) => ComputeAtomicDihedral(geo, args, traj, s),
                    Range(-Pi, Pi), Intra, true, "°")
  }

  /** The `resname` group command. */
  function ResnameCommand(computeId: string -> ID): GroupCommand
  {
    GroupCommand(computeId("resname"), (args, mol) => MatchByResname(args, mol))
  }

  /** The command registered under `keyword` by `register_property_command`. */
  function RegisteredProperty(computeId: string -> ID, keyword: string, desc: PropertyCommandDescriptor): PropertyCommand
  {
    PropertyCommand(computeId(keyword), desc.computeFunction, desc.valRange, desc.kind, desc.periodic, desc.unit)
  }

  /** Every group's id is the hash of its name, as `create_group` assigns it. */
  predicate GroupsHashed(computeId: string -> ID, gs: seq<Group>)
  {
    forall k :: 0 <= k < |gs| ==> gs[k].id == computeId(gs[k].name)
  }

  /** No two groups share an id. */
  predicate GroupIdsDistinct(gs: seq<Group>)
  {
    forall k, l :: 0 <= k < l < |gs| ==> gs[k].id != gs[l].id
  }

  /** `create_group` refuses a taken name, an empty command line and an unknown command. */
  predicate GroupRejected(computeId: string -> ID, gs: seq<Group>, cmds: seq<GroupCommand>, name: string, cmdAndArgs: string)
  {
    || FindId(gs, GroupIdOf, computeId(name)).Some?
    || |cmdAndArgs| == 0
    || FindId(cmds, GroupCommandIdOf, computeId(CommandToken(cmdAndArgs))).None?
  }

  /** `create_property` refuses a taken name, an empty command line and an unknown command. */
  predicate PropertyRejected(computeId: string -> ID, ps: seq<Property>, cmds: seq<PropertyCommand>, name: string, cmdAndArgs: string)
  {
    || FindId(ps, PropertyIdOf, computeId(name)).Some?
    || |cmdAndArgs| == 0
    || FindId(cmds, PropertyCommandIdOf, computeId(CommandToken(cmdAndArgs))).None?
  }

  /**
   * `get_group(name)` and `get_group(idx)` agree: in a table whose ids are
   * the distinct hashes of the names, looking a group up by its name yields
   * its own id.
   */
  lemma NameLookupFindsGroup(computeId: string -> ID, gs: seq<Group>, i: nat)
    requires GroupsHashed(computeId, gs) && GroupIdsDistinct(gs)
    requires i < |gs|
    ensures GetGroupByName(gs, gs[i].name) == gs[i].id
  {
    var r := GroupIndexByName(gs, gs[i].name);
    assert r.Some?;
    var k := r.value;
    assert k <= i;
    assert gs[k].id == gs[i].id;
  }

  /**
   * Removing the group at `k` keeps the table invariants, forgets the
   * removed id and keeps every other group.
   */
  lemma RemovalKeepsTables(computeId: string -> ID, cmds: seq<GroupCommand>, ins: seq<GroupInstance>, gs: seq<Group>, k: nat)
    requires k < |gs|
    requires CommandsKnown(cmds, gs) && Covered(ins, gs) && GroupsHashed(computeId, gs) && GroupIdsDistinct(gs)
    ensures var rest := gs[..k] + gs[k + 1..];
      && CommandsKnown(cmds, rest) && Covered(ins, rest) && GroupsHashed(computeId, rest) && GroupIdsDistinct(rest)
      && FindId(rest, GroupIdOf, gs[k].id).None?
      && forall m :: 0 <= m < |gs| && gs[m].id != gs[k].id ==> gs[m] in rest
  {
    var rest := gs[..k] + gs[k + 1..];
    forall m | 0 <= m < |rest|
      ensures FindId(cmds, GroupCommandIdOf, rest[m].cmdId).Some?
      ensures |MembersOf(ins, rest[m].id)| >= rest[m].instanceCount
      ensures rest[m].id == computeId(rest[m].name)
      ensures GroupIdOf(rest[m]) != gs[k].id
    {
      RemoveAtIndex(gs, k, m);
    }
    forall m, l | 0 <= m < l < |rest|
      ensures rest[m].id != rest[l].id
    {
      RemoveAtIndex(gs, k, m);
      RemoveAtIndex(gs, k, l);
    }
    forall m | 0 <= m < |gs| && gs[m].id != gs[k].id
      ensures gs[m] in rest
    {
      RemoveAtIndex(gs, k, if m < k then m else m - 1);
    }
  }

  /** The elements after the removed one move down by one place. */
  lemma RemoveAtIndex<T>(s: seq<T>, k: nat, m: nat)
    requires k < |s| && m < |s| - 1
    ensures (s[..k] + s[k + 1..])[m] == s[if m < k then m else m + 1]
  {
  }

  /**
   * Appending a fresh unresolved group whose id is the hash of its name and
   * whose command is registered keeps the table invariants, and the lookup
   * by name then finds it.
   */
  lemma CreationKeepsTables(computeId: string -> ID, cmds: seq<GroupCommand>, ins: seq<GroupInstance>, gs: seq<Group>, g: Group)
    requires CommandsKnown(cmds, gs) && Covered(ins, gs) && GroupsHashed(computeId, gs) && GroupIdsDistinct(gs)
    requires g.id == computeId(g.name) && g.instanceCount == 0
    requires FindId(gs, GroupIdOf, g.id).None? && FindId(cmds, GroupCommandIdOf, g.cmdId).Some?
    ensures var more := gs + [g];
      && CommandsKnown(cmds, more) && Covered(ins, more) && GroupsHashed(computeId, more) && GroupIdsDistinct(more)
      && GetGroupByName(more, g.name) == g.id
  {
    var more := gs + [g];
    assert more[|gs|] == g;
    forall k | 0 <= k < |more|
      ensures FindId(cmds, GroupCommandIdOf, more[k].cmdId).Some?
      ensures |MembersOf(ins, more[k].id)| >= more[k].instanceCount
      ensures more[k].id == computeId(more[k].name)
    {
      if k < |gs| {
        assert more[k] == gs[k];
      }
    }
    forall k, l | 0 <= k < l < |more|
      ensures more[k].id != more[l].id
    {
      assert more[k] == gs[k];
      if l < |gs| {
        assert more[l] == gs[l];
      } else {
        assert GroupIdOf(gs[k]) != g.id;
      }
    }
    CreatedGroupFound(computeId, gs, g);
  }

  /** A group whose name hash is not yet an id is found by its name once appended. */
  lemma CreatedGroupFound(computeId: string -> ID, gs: seq<Group>, g: Group)
    requires GroupsHashed(computeId, gs) && g.id == computeId(g.name)
    requires FindId(gs, GroupIdOf, g.id).None?
    ensures GetGroupByName(gs + [g], g.name) == g.id
  {
    var more := gs + [g];
    assert forall k :: 0 <= k < |gs| ==> more[k].name != g.name by {
      forall k | 0 <= k < |gs| ensures more[k].name != g.name {
        assert more[k] == gs[k];
        assert GroupIdOf(gs[k]) != g.id;
      }
    }
    assert more[|gs|] == g;
    var r := GroupIndexByName(more, g.name);
    assert r.Some?;
  }

  lemma GroupCommandsAppend(cmds: seq<GroupCommand>, more: seq<GroupCommand>, gs: seq<Group>)
    requires CommandsKnown(cmds, gs)
    ensures CommandsKnown(cmds + more, gs)
  {
    forall k | 0 <= k < |gs| ensures FindId(cmds + more, GroupCommandIdOf, gs[k].cmdId).Some? {
      FindIdAppend(cmds, more, GroupCommandIdOf, gs[k].cmdId);
    }
  }

  lemma PropertyCommandsAppend(cmds: seq<PropertyCommand>, more: seq<PropertyCommand>, ps: seq<Property>)
    requires PropertyCommandsKnown(cmds, ps)
    ensures PropertyCommandsKnown(cmds + more, ps)
  {
    forall k | 0 <= k < |ps| ensures FindId(cmds + more, PropertyCommandIdOf, ps[k].cmdId).Some? {
      FindIdAppend(cmds, more, PropertyCommandIdOf, ps[k].cmdId);
    }
  }

  /** Replacing element `i` keeps what lies before and after it. */
  lemma UpdateSplit<T>(s: seq<T>, i: nat, x: T)
    requires i < |s|
    ensures s[i := x][..i + 1] == s[..i] + [x]
    ensures s[i := x][i + 1..] == s[i + 1..]
  {
  }

  lemma PrefixStep<T>(s: seq<T>, i: nat)
    requires i < |s|
    ensures s[..i + 1] == s[..i] + [s[i]]
  {
  }

  lemma ReplaceBetween<T>(a: seq<T>, x: T, y: T, b: seq<T>)
    ensures (a + [x] + b)[|a| := y] == a + [y] + b
  {
  }

  /** One more group of the pass resolved in place extends the resolved prefix. */
  lemma ResolutionStep(computeId: string -> ID, cmds: seq<GroupCommand>, mol: MoleculeStructure,
                       gs0: seq<Group>, ins0: seq<GroupInstance>, i: nat,
                       before: seq<Group>, beforeIns: seq<GroupInstance>,
                       after: seq<Group>, afterIns: seq<GroupInstance>)
    requires CommandsKnown(cmds, gs0) && i < |gs0| == |before|
    requires before[..i] == ResolveGroups(computeId, cmds, mol, gs0[..i]).groups
    requires before[i..] == gs0[i..]
    requires beforeIns == ins0 + ResolveGroups(computeId, cmds, mol, gs0[..i]).instances
    requires FindId(cmds, GroupCommandIdOf, before[i].cmdId).Some?
    requires var r := ResolveGroup(computeId, cmds, mol, before[i]);
      after == before[i := r.groups[0]] && afterIns == beforeIns + r.instances
    ensures CommandsKnown(cmds, gs0[..i + 1])
    ensures after[..i + 1] == ResolveGroups(computeId, cmds, mol, gs0[..i + 1]).groups
    ensures after[i + 1..] == gs0[i + 1..]
    ensures afterIns == ins0 + ResolveGroups(computeId, cmds, mol, gs0[..i + 1]).instances
  {
    assert before[i] == gs0[i] by {
      assert before[i] == before[i..][0];
      assert gs0[i] == gs0[i..][0];
    }
    var init := ResolveGroups(computeId, cmds, mol, gs0[..i]);
    var last := ResolveGroup(computeId, cmds, mol, gs0[i]);
    ResolveGroupsStep(computeId, cmds, mol, gs0, i);
    UpdateSplit(before, i, last.groups[0]);
    assert after[i + 1..] == gs0[i + 1..] by {
      assert before[i + 1..] == before[i..][1..];
      assert gs0[i + 1..] == gs0[i..][1..];
    }
    AppendAssoc(ins0, init.instances, last.instances);
  }

  /** One more property of the pass evaluated in place extends the evaluated prefix. */
  lemma EvaluationStep(env: EvalEnv, ps0: seq<Property>, pd0: seq<PropertyData>, k: nat,
                       before: seq<Property>, beforeData: seq<PropertyData>,
                       after: seq<Property>, afterData: seq<PropertyData>)
    requires k < |ps0| == |before|
    requires PropertyCommandsKnown(env.cmds, ps0) && PropertyCommandsKnown(env.cmds, ps0[..k])
    requires before[..k] == EvaluateProperties(env, ps0[..k]).properties
    requires before[k..] == ps0[k..]
    requires forall m :: 0 <= m < |before| ==> before[m].cmdId == ps0[m].cmdId
    requires beforeData == pd0 + EvaluateProperties(env, ps0[..k]).data
    requires FindId(env.cmds, PropertyCommandIdOf, before[k].cmdId).Some?
    requires var e := EvaluateProperty(env, before[k]);
      after == before[k := e.properties[0]] && afterData == beforeData + e.data
    ensures PropertyCommandsKnown(env.cmds, ps0[..k + 1])
    ensures after[..k + 1] == EvaluateProperties(env, ps0[..k + 1]).properties
    ensures after[k + 1..] == ps0[k + 1..]
    ensures forall m :: 0 <= m < |after| ==> after[m].cmdId == ps0[m].cmdId
    ensures afterData == pd0 + EvaluateProperties(env, ps0[..k + 1]).data
  {
    assert before[k] == ps0[k] by {
      assert before[k] == before[k..][0];
      assert ps0[k] == ps0[k..][0];
    }
    var init := EvaluateProperties(env, ps0[..k]);
    var last := EvaluateProperty(env, ps0[k]);
    EvaluatePropertiesStep(env, ps0, k);
    UpdateSplit(before, k, last.properties[0]);
    assert last.properties == [last.properties[0]];
    assert after[k + 1..] == ps0[k + 1..] by {
      assert before[k + 1..] == before[k..][1..];
      assert ps0[k + 1..] == ps0[k..][1..];
    }
    AppendAssoc(pd0, init.data, last.data);
  }

  /** A pass of group resolution keeps the table invariants. */
  lemma ResolutionKeepsTables(computeId: string -> ID, cmds: seq<GroupCommand>, mol: MoleculeStructure,
                              gs: seq<Group>, ins: seq<GroupInstance>)
    requires CommandsKnown(cmds, gs) && Covered(ins, gs) && GroupsHashed(computeId, gs) && GroupIdsDistinct(gs)
    ensures var res := ResolveGroups(computeId, cmds, mol, gs);
      && CommandsKnown(cmds, res.groups) && Covered(ins + res.instances, res.groups)
      && GroupsHashed(computeId, res.groups) && GroupIdsDistinct(res.groups)
  {
    ResolveGroupsKeepCommands(computeId, cmds, mol, gs);
    ResolveGroupsCovers(computeId, cmds, mol, gs, ins);
  }

  /**
   * `data[j] / (float)instance_count` added into every slot of the average
   * buffer, which then holds the shares of one more series.
   */
  method AccumulateShares(avg: array<real>, data: seq<real>, n: nat, ghost done: seq<seq<real>>)
    requires avg.Length == |data|
    requires forall j :: 0 <= j < avg.Length ==> avg[j] == ColumnShare(done, n, j)
    modifies avg
    ensures forall j :: 0 <= j < avg.Length ==> avg[j] == ColumnShare(done + [data], n, j)
  {
    assert (done + [data])[..|done|] == done;
    var j := 0;
    while j < avg.Length
      invariant 0 <= j <= avg.Length
      invariant forall l :: 0 <= l < j ==> avg[l] == ColumnShare(done + [data], n, l)
      invariant forall l :: j <= l < avg.Length ==> avg[l] == ColumnShare(done, n, l)
    {
      avg[j] := avg[j] + Share(data[j], n);
      j := j + 1;
    }
  }

  class StatisticsContext {
    /** `COMPUTE_ID`. */
    const computeId: string -> ID
    /** `math::distance`, `math::angle` and `dihedral_angle`. */
    const geometry: Geometry

    var properties: seq<Property>
    var propertyData: seq<PropertyData>
    var groups: seq<Group>
    var groupInstances: seq<GroupInstance>
    var propertyCommands: seq<PropertyCommand>
    var groupCommands: seq<GroupCommand>

    /**
     * What the operations keep: every group and property names a registered
     * command, every group's instance count is backed by recorded instances,
     * and group ids are the distinct hashes of the group names.
     */
    ghost predicate Valid()
      reads this
    {
      && CommandsKnown(groupCommands, groups)
      && PropertyCommandsKnown(propertyCommands, properties)
      && Covered(groupInstances, groups)
      && GroupsHashed(computeId, groups)
      && GroupIdsDistinct(groups)
    }

    /** The zero-initialised static context. */
    constructor(computeId: string -> ID, geometry: Geometry)
      ensures Valid()
      ensures this.computeId == computeId && this.geometry == geometry
      ensures properties == [] && propertyData == [] && groups == [] && groupInstances == []
      ensures propertyCommands == [] && groupCommands == []
    {
      this.computeId := computeId;
      this.geometry := geometry;
      properties := [];
      propertyData := [];
      groups := [];
      groupInstances := [];
      propertyCommands := [];
      groupCommands := [];
    }

    /** `initialize`: appends the built-in commands, without checking for duplicates. */
    method Initialize()
      requires Valid()
      modifies this
      ensures Valid()
      ensures propertyCommands == old(propertyCommands) +
        [DistanceCommand(computeId, geometry, "dist"), DistanceCommand(computeId, geometry, "bond"),
         AngleCommand(computeId, geometry), DihedralCommand(computeId, geometry)]
      ensures groupCommands == old(groupCommands) + [ResnameCommand(computeId)]
      ensures properties == old(properties) && propertyData == old(propertyData)
      ensures groups == old(groups) && groupInstances == old(groupInstances)
    {
      var more := [DistanceCommand(computeId, geometry, "dist"), DistanceCommand(computeId, geometry, "bond"),
                   AngleCommand(computeId, geometry), DihedralCommand(computeId, geometry)];
      PropertyCommandsAppend(propertyCommands, more, properties);
      GroupCommandsAppend(groupCommands, [ResnameCommand(computeId)], groups);
      propertyCommands := propertyCommands + more;
      groupCommands := groupCommands + [ResnameCommand(computeId)];
    }

    /**
     * `register_property_command`: a keyword whose id is already registered
     * leaves the list unchanged; otherwise one command is appended with that
     * id. Either way the keyword's id is registered afterwards, and every id
     * registered before still finds the same command.
     */
    method RegisterPropertyCommand(command: string, desc: PropertyCommandDescriptor)
      requires Valid()
      modifies this
      ensures Valid()
      ensures FindId(old(propertyCommands), PropertyCommandIdOf, computeId(command)).Some? ==>
        propertyCommands == old(propertyCommands)
      ensures FindId(old(propertyCommands), PropertyCommandIdOf, computeId(command)).None? ==>
        propertyCommands == old(propertyCommands) + [RegisteredProperty(computeId, command, desc)]
      ensures FindId(propertyCommands, PropertyCommandIdOf, computeId(command)).Some?
      ensures groupCommands == old(groupCommands)
      ensures properties == old(properties) && propertyData == old(propertyData)
      ensures groups == old(groups) && groupInstances == old(groupInstances)
    {
      var id := computeId(command);
      if FindId(propertyCommands, PropertyCommandIdOf, id).Some? {
        return;
      }
      var cmd := RegisteredProperty(computeId, command, desc);
      PropertyCommandsAppend(propertyCommands, [cmd], properties);
      propertyCommands := propertyCommands + [cmd];
      assert PropertyCommandIdOf(propertyCommands[|propertyCommands| - 1]) == id;
    }

    /** `register_group_command`, with the same duplicate rule. */
    method RegisterGroupCommand(command: string, func: ExtractFunc)
      requires Valid()
      modifies this
      ensures Valid()
      ensures FindId(old(groupCommands), GroupCommandIdOf, computeId(command)).Some? ==>
        groupCommands == old(groupCommands)
      ensures FindId(old(groupCommands), GroupCommandIdOf, computeId(command)).None? ==>
        groupCommands == old(groupCommands) + [GroupCommand(computeId(command), func)]
      ensures FindId(groupCommands, GroupCommandIdOf, computeId(command)).Some?
      ensures propertyCommands == old(propertyCommands)
      ensures properties == old(properties) && propertyData == old(propertyData)
      ensures groups == old(groups) && groupInstances == old(groupInstances)
    {
      var id := computeId(command);
      if FindId(groupCommands, GroupCommandIdOf, id).Some? {
        return;
      }
      var cmd := GroupCommand(id, func);
      GroupCommandsAppend(groupCommands, [cmd], groups);
      groupCommands := groupCommands + [cmd];
      assert GroupCommandIdOf(groupCommands[|groupCommands| - 1]) == id;
    }

    /**
     * `create_group`: refused (INVALID_ID, no change) for a taken name, an
     * empty command line or an unknown command; otherwise appends an
     * unresolved group (no instances, `instance_beg_id` invalid) with the
     * arguments after the command, returns `COMPUTE_ID(name)`, and
     * `get_group(name)` then finds it.
     */
    method CreateGroup(name: string, cmdAndArgs: string) returns (id: ID)
      requires Valid()
      modifies this
      ensures Valid()
      ensures GroupRejected(computeId, old(groups), groupCommands, name, cmdAndArgs) ==>
        id == InvalidId && groups == old(groups)
      ensures !GroupRejected(computeId, old(groups), groupCommands, name, cmdAndArgs) ==>
        id == computeId(name) &&
        groups == old(groups) + [Group(id, InvalidId, 0, computeId(CommandToken(cmdAndArgs)), name, ArgsAfterCommand(cmdAndArgs))] &&
        GetGroupByName(groups, name) == id
      ensures propertyCommands == old(propertyCommands) && groupCommands == old(groupCommands)
      ensures properties == old(properties) && propertyData == old(propertyData)
      ensures groupInstances == old(groupInstances)
    {
      var gid := computeId(name);
      if FindId(groups, GroupIdOf, gid).Some? {
        return InvalidId;
      }
      if |cmdAndArgs| == 0 {
        return InvalidId;
      }
      var cmd := CommandToken(cmdAndArgs);
      var args := ArgsAfterCommand(cmdAndArgs);
      var cmdId := computeId(cmd);
      if FindId(groupCommands, GroupCommandIdOf, cmdId).None? {
        return InvalidId;
      }
      var g := Group(gid, InvalidId, 0, cmdId, name, args);
      CreationKeepsTables(computeId, groupCommands, groupInstances, groups, g);
      groups := groups + [g];
      id := gid;
    }

    /**
     * `create_property`: the same three refusals, and otherwise the id
     * `COMPUTE_ID(name)`; the property is never stored, so the context does
     * not change and the returned id names no property.
     */
    method CreateProperty(name: string, cmdAndArgs: string) returns (id: ID)
      requires Valid()
      ensures PropertyRejected(computeId, properties, propertyCommands, name, cmdAndArgs) ==> id == InvalidId
      ensures !PropertyRejected(computeId, properties, propertyCommands, name, cmdAndArgs) ==>
        id == computeId(name) && FindId(properties, PropertyIdOf, id).None?
    {
      var pid := computeId(name);
      if FindId(properties, PropertyIdOf, pid).Some? {
        return InvalidId;
      }
      if |cmdAndArgs| == 0 {
        return InvalidId;
      }
      var cmd := CommandToken(cmdAndArgs);
      var cmdId := computeId(cmd);
      if FindId(propertyCommands, PropertyCommandIdOf, cmdId).None? {
        return InvalidId;
      }
      // The property value `{pid, cmdId, name, args}` is built here and dropped.
      id := pid;
    }

    /**
     * `remove_group`: an unknown id is a no-op; otherwise the group is removed
     * (the rest keep their order) and its id no longer names a group. Its
     * instances stay in the instance table.
     */
    method RemoveGroup(gid: ID)
      requires Valid()
      modifies this
      ensures Valid()
      ensures FindId(old(groups), GroupIdOf, gid).None? ==> groups == old(groups)
      ensures FindId(old(groups), GroupIdOf, gid).Some? ==>
        var k := FindId(old(groups), GroupIdOf, gid).value;
        groups == old(groups)[..k] + old(groups)[k + 1..]
      ensures FindId(groups, GroupIdOf, gid).None?
      ensures forall k :: 0 <= k < |old(groups)| && old(groups)[k].id != gid ==> old(groups)[k] in groups
      ensures propertyCommands == old(propertyCommands) && groupCommands == old(groupCommands)
      ensures properties == old(properties) && propertyData == old(propertyData)
      ensures groupInstances == old(groupInstances)
    {
      var found := FindId(groups, GroupIdOf, gid);
      if found.None? {
        return;
      }
      var k := found.value;
      RemovalKeepsTables(computeId, groupCommands, groupInstances, groups, k);
      groups := groups[..k] + groups[k + 1..];
    }

    /** `get_group(idx)`: the id of the group at `idx`, or INVALID_ID past the end. */
    function GroupAt(idx: int): (r: ID)
      reads this
      requires 0 <= idx
      ensures idx >= |groups| ==> r == InvalidId
    {
      if idx < |groups| then groups[idx].id else InvalidId
    }

    /**
     * The two forms of `get_group` agree: the id at position `idx` is what
     * the lookup by that group's name returns, and `find_id` locates it at
     * `idx` again.
     */
    lemma GroupLookupsAgree(idx: nat)
      requires Valid() && idx < |groups|
      ensures GetGroupByName(groups, groups[idx].name) == GroupAt(idx)
      ensures FindId(groups, GroupIdOf, GroupAt(idx)) == Some(idx)
    {
      NameLookupFindsGroup(computeId, groups, idx);
      var f := FindId(groups, GroupIdOf, groups[idx].id);
      assert f.Some?;
      assert groups[f.value].id == groups[idx].id;
    }

    /**
     * `get_group_instance`: the id of the `idx`-th instance, in insertion
     * order, that belongs to group `gid`; INVALID_ID when there are fewer.
     */
    method GetGroupInstance(gid: ID, idx: int) returns (r: ID)
      ensures r == GroupInstanceAt(groupInstances, gid, idx)
    {
      var count := 0;
      var i := 0;
      while i < |groupInstances|
        invariant 0 <= i <= |groupInstances|
        invariant count == |MembersOf(groupInstances[..i], gid)|
        invariant !(0 <= idx < count)
      {
        ghost var next := groupInstances[..i + 1];
        assert next == groupInstances[..i] + [groupInstances[i]];
        MembersOfAppend(groupInstances[..i], [groupInstances[i]], gid);
        if groupInstances[i].groupId == gid {
          if count == idx {
            assert groupInstances == next + groupInstances[i + 1..];
            MembersOfAppend(next, groupInstances[i + 1..], gid);
            return groupInstances[i].id;
          }
          count := count + 1;
        }
        i := i + 1;
      }
      assert groupInstances[..i] == groupInstances;
      return InvalidId;
    }

    /**
     * `compute_stats`: without a molecule or a trajectory, false and nothing
     * changes. Otherwise the groups are resolved as `ResolveGroups` says and
     * then the properties are evaluated, against the resolved tables, as
     * `EvaluateProperties` says.
     */
    method ComputeStats(dynamic: MoleculeDynamic) returns (ok: bool)
      requires Valid()
      modifies this
      ensures Valid()
      ensures propertyCommands == old(propertyCommands) && groupCommands == old(groupCommands)
      ensures dynamic.molecule.None? || dynamic.trajectory.None? ==>
        !ok && groups == old(groups) && groupInstances == old(groupInstances) &&
        properties == old(properties) && propertyData == old(propertyData)
      ensures dynamic.molecule.Some? && dynamic.trajectory.Some? ==>
        var res := ResolveGroups(computeId, groupCommands, dynamic.molecule.value, old(groups));
        var env := EvalEnv(computeId, propertyCommands, groups, groupInstances,
                           dynamic.molecule.value, dynamic.trajectory.value);
        var ev := EvaluateProperties(env, old(properties));
        && ok
        && groups == res.groups && groupInstances == old(groupInstances) + res.instances
        && properties == ev.properties && propertyData == old(propertyData) + ev.data
    {
      if dynamic.molecule.None? {
        return false;
      }
      if dynamic.trajectory.None? {
        return false;
      }
      var mol := dynamic.molecule.value;
      ResolveAllGroups(mol);
      EvaluateAllProperties(mol, dynamic.trajectory.value);
      ok := true;
    }

    /** The group loop of `compute_stats`. */
    method ResolveAllGroups(mol: MoleculeStructure)
      requires Valid()
      modifies this
      ensures propertyCommands == old(propertyCommands) && groupCommands == old(groupCommands)
      ensures properties == old(properties) && propertyData == old(propertyData)
      ensures var res := ResolveGroups(computeId, groupCommands, mol, old(groups));
        groups == res.groups && groupInstances == old(groupInstances) + res.instances
      ensures Valid()
    {
      ResolutionKeepsTables(computeId, groupCommands, mol, groups, groupInstances);
      ResolveGroupsInPlace(mol);
    }

    /** The loop of the resolution pass, group by group in table order. */
    method ResolveGroupsInPlace(mol: MoleculeStructure)
      requires CommandsKnown(groupCommands, groups)
      modifies this
      ensures propertyCommands == old(propertyCommands) && groupCommands == old(groupCommands)
      ensures properties == old(properties) && propertyData == old(propertyData)
      ensures var res := ResolveGroups(computeId, groupCommands, mol, old(groups));
        groups == res.groups && groupInstances == old(groupInstances) + res.instances
    {
      ghost var gs0 := groups;
      ghost var ins0 := groupInstances;
      var i := 0;
      while i < |groups|
        invariant 0 <= i <= |gs0| == |groups|
        invariant CommandsKnown(groupCommands, gs0[..i])
        invariant groups[..i] == ResolveGroups(computeId, groupCommands, mol, gs0[..i]).groups
        invariant groups[i..] == gs0[i..]
        invariant groupInstances == ins0 + ResolveGroups(computeId, groupCommands, mol, gs0[..i]).instances
        invariant propertyCommands == old(propertyCommands) && groupCommands == old(groupCommands)
        invariant properties == old(properties) && propertyData == old(propertyData)
      {
        ghost var before := groups;
        ghost var beforeIns := groupInstances;
        assert groups[i] == gs0[i] by {
          assert groups[i] == groups[i..][0];
          assert gs0[i] == gs0[i..][0];
        }
        ResolveGroupAt(i, mol);
        ResolutionStep(computeId, groupCommands, mol, gs0, ins0, i, before, beforeIns, groups, groupInstances);
        i := i + 1;
      }
      assert gs0[..i] == gs0;
      assert groups == groups[..i];
    }

    /** One iteration of the group loop: resolve the group at `k` if it is unresolved. */
    method ResolveGroupAt(k: nat, mol: MoleculeStructure)
      requires k < |groups| && FindId(groupCommands, GroupCommandIdOf, groups[k].cmdId).Some?
      modifies this
      ensures propertyCommands == old(propertyCommands) && groupCommands == old(groupCommands)
      ensures properties == old(properties) && propertyData == old(propertyData)
      ensures var r := ResolveGroup(computeId, groupCommands, mol, old(groups)[k]);
        groups == old(groups)[k := r.groups[0]] && groupInstances == old(groupInstances) + r.instances
    {
      var g := groups[k];
      if g.instanceCount != 0 {
        assert groups == groups[k := g];
        return;
      }
      var cmd := groupCommands[FindId(groupCommands, GroupCommandIdOf, g.cmdId).value];
      var matches := cmd.func(Tokenize(g.args), mol);
      if |matches| == 0 {
        assert groups == groups[k := g];
        return;
      }
      ghost var ins := InstancesFor(computeId, g, matches);
      var i := 0;
      while i < |matches|
        invariant 0 <= i <= |matches|
        invariant groups == old(groups)[k := if i == 0 then g else g.(instanceBegId := ins[0].id, instanceCount := i)]
        invariant groupInstances == old(groupInstances) + ins[..i]
        invariant propertyCommands == old(propertyCommands) && groupCommands == old(groupCommands)
        invariant properties == old(properties) && propertyData == old(propertyData)
      {
        var instance := GroupInstance(computeId(InstanceName(g.name, i)), g.id, matches[i]);
        assert instance == ins[i];
        groupInstances := groupInstances + [instance];
        var group := groups[k];
        if i == 0 {
          group := group.(instanceBegId := instance.id, instanceCount := 0);
        }
        group := group.(instanceCount := group.instanceCount + 1);
        groups := groups[k := group];
        PrefixStep(ins, i);
        i := i + 1;
      }
      assert ins[..i] == ins;
    }

    /** The property loop of `compute_stats`. */
    method EvaluateAllProperties(mol: MoleculeStructure, traj: Trajectory)
      requires PropertyCommandsKnown(propertyCommands, properties) && Covered(groupInstances, groups)
      modifies this
      ensures propertyCommands == old(propertyCommands) && groupCommands == old(groupCommands)
      ensures groups == old(groups) && groupInstances == old(groupInstances)
      ensures var env := EvalEnv(computeId, propertyCommands, groups, groupInstances, mol, traj);
        var ev := EvaluateProperties(env, old(properties));
        properties == ev.properties && propertyData == old(propertyData) + ev.data
      ensures PropertyCommandsKnown(propertyCommands, properties)
    {
      ghost var env := EvalEnv(computeId, propertyCommands, groups, groupInstances, mol, traj);
      ghost var ps0 := properties;
      ghost var pd0 := propertyData;
      var k := 0;
      while k < |properties|
        invariant 0 <= k <= |ps0| == |properties|
        invariant env == EvalEnv(computeId, propertyCommands, groups, groupInstances, mol, traj)
        invariant PropertyCommandsKnown(env.cmds, ps0[..k])
        invariant properties[..k] == EvaluateProperties(env, ps0[..k]).properties
        invariant properties[k..] == ps0[k..]
        invariant forall m :: 0 <= m < |properties| ==> properties[m].cmdId == ps0[m].cmdId
        invariant propertyData == pd0 + EvaluateProperties(env, ps0[..k]).data
        invariant propertyCommands == old(propertyCommands) && groupCommands == old(groupCommands)
        invariant groups == old(groups) && groupInstances == old(groupInstances)
      {
        ghost var before := properties;
        ghost var beforeData := propertyData;
        assert properties[k] == ps0[k] by {
          assert properties[k] == properties[k..][0];
          assert ps0[k] == ps0[k..][0];
        }
        EvaluatePropertyAt(k, mol, traj);
        EvaluationStep(env, ps0, pd0, k, before, beforeData, properties, propertyData);
        k := k + 1;
      }
      assert ps0[..k] == ps0;
      assert properties == properties[..k];
    }

    /**
     * One iteration of the property loop, for the property at `k`: the
     * averaged series is appended first and filled in place while the
     * per-instance series are computed and appended.
     */
    method EvaluatePropertyAt(k: nat, mol: MoleculeStructure, traj: Trajectory)
      requires k < |properties| && FindId(propertyCommands, PropertyCommandIdOf, properties[k].cmdId).Some?
      requires Covered(groupInstances, groups)
      modifies this
      ensures propertyCommands == old(propertyCommands) && groupCommands == old(groupCommands)
      ensures groups == old(groups) && groupInstances == old(groupInstances)
      ensures var env := EvalEnv(computeId, propertyCommands, groups, groupInstances, mol, traj);
        var e := EvaluateProperty(env, old(properties)[k]);
        properties == old(properties)[k := e.properties[0]] && propertyData == old(propertyData) + e.data
    {
      ghost var env := EvalEnv(computeId, propertyCommands, groups, groupInstances, mol, traj);
      var p := properties[k];
      if p.dataBegId != InvalidId {
        assert properties == properties[k := p];
        return;
      }
      var cmd := propertyCommands[FindId(propertyCommands, PropertyCommandIdOf, p.cmdId).value];
      var args := Tokenize(p.args);
      if cmd.kind == Inter {
        assert properties == properties[k := p];
        return;
      }
      if |args| == 0 {
        assert properties == properties[k := p];
        return;
      }
      var gid := GetGroupByName(groups, args[0]);
      var found := FindId(groups, GroupIdOf, gid);
      if gid == InvalidId {
        assert properties == properties[k := p];
        return;
      }
      assert found.Some?;
      assert BoundGroup(env, p) == found;
      ComputeBoundProperty(k, found.value, cmd, args, mol, traj);
      assert EvaluateProperty(env, p) == ComputedEvaluation(env, p, found.value);
    }

    /**
     * The computing branch of the property loop for the property at `k`,
     * bound to the group at `gk`: one averaged series and then one series
     * per instance are appended, and the property records their ids and
     * count.
     */
    method ComputeBoundProperty(k: nat, gk: nat, cmd: PropertyCommand, args: seq<string>,
                                mol: MoleculeStructure, traj: Trajectory)
      requires k < |properties| && FindId(propertyCommands, PropertyCommandIdOf, properties[k].cmdId).Some?
      requires gk < |groups|
      requires cmd == CommandOf(EvalEnv(computeId, propertyCommands, groups, groupInstances, mol, traj), properties[k])
      requires args == Tokenize(properties[k].args)
      requires Covered(groupInstances, groups)
      modifies this
      ensures propertyCommands == old(propertyCommands) && groupCommands == old(groupCommands)
      ensures groups == old(groups) && groupInstances == old(groupInstances)
      ensures var env := EvalEnv(computeId, propertyCommands, groups, groupInstances, mol, traj);
        var e := ComputedEvaluation(env, old(properties)[k], gk);
        properties == old(properties)[k := e.properties[0]] && propertyData == old(propertyData) + e.data
    {
      ghost var env := EvalEnv(computeId, propertyCommands, groups, groupInstances, mol, traj);
      var p := properties[k];
      var g := groups[gk];
      var n := Iterations(g.instanceCount);
      ghost var bufs := PropertySeries(env, p, gk);
      var avg, entries := InstanceSeriesLoop(k, gk, cmd, args, mol, traj);
      var avgId := computeId(SeriesName(g.name, p.name, "avg"));
      ghost var e := ComputedEvaluation(env, p, gk);
      var avgEntry := PropertyData(avgId, p.id, InvalidId, avg);
      assert e.data == [avgEntry] + entries;
      AppendAssoc(propertyData, [avgEntry], entries);
      propertyData := propertyData + [avgEntry] + entries;
      if n > 0 {
        InstanceEntriesAt(env, p, gk, bufs, n, 0);
        properties := properties[k := p.(dataAvgId := avgId, dataBegId := entries[0].id, dataCount := n)];
      } else {
        properties := properties[k := p.(dataAvgId := avgId)];
      }
    }

    /**
     * The loop over the instances of the group at `gk` for the property at
     * `k`: each instance's series is computed and divided into the average
     * buffer in place; the result is the averaged series and the
     * per-instance entries in instance order.
     */
    method InstanceSeriesLoop(k: nat, gk: nat, cmd: PropertyCommand, args: seq<string>,
                              mol: MoleculeStructure, traj: Trajectory)
      returns (avg: seq<real>, entries: seq<PropertyData>)
      requires k < |properties| && FindId(propertyCommands, PropertyCommandIdOf, properties[k].cmdId).Some?
      requires gk < |groups|
      requires cmd == CommandOf(EvalEnv(computeId, propertyCommands, groups, groupInstances, mol, traj), properties[k])
      requires args == Tokenize(properties[k].args)
      requires Covered(groupInstances, groups)
      ensures var env := EvalEnv(computeId, propertyCommands, groups, groupInstances, mol, traj);
        var bufs := PropertySeries(env, properties[k], gk);
        var n := Iterations(groups[gk].instanceCount);
        avg == AverageSeries(bufs, n, traj.numFrames) && entries == InstanceEntries(env, properties[k], gk, bufs, n)
    {
      ghost var env := EvalEnv(computeId, propertyCommands, groups, groupInstances, mol, traj);
      var p := properties[k];
      var g := groups[gk];
      var n := Iterations(g.instanceCount);
      var count := traj.numFrames;
      ghost var bufs := PropertySeries(env, p, gk);
      var sum := new real[count](_ => 0.0);
      assert bufs[..0] == [];
      entries := [];
      var i := 0;
      while i < n
        invariant 0 <= i <= n
        invariant sum.Length == count
        invariant forall j :: 0 <= j < count ==> sum[j] == ColumnShare(bufs[..i], n, j)
        invariant entries == InstanceEntries(env, p, gk, bufs, i)
      {
        var instanceId, data := InstanceSeriesAt(gk, i, cmd, args, mol, traj);
        PropertySeriesAt(env, p, gk, i);
        assert data == bufs[i];
        AccumulateShares(sum, data, n, bufs[..i]);
        PrefixStep(bufs, i);
        var dataId := computeId(SeriesName(g.name, p.name, NatToString(i)));
        var entry := PropertyData(dataId, p.id, instanceId, data);
        assert entry == InstanceEntry(env, p, gk, bufs, i);
        entries := entries + [entry];
        i := i + 1;
      }
      assert bufs[..n] == bufs;
      avg := sum[..];
      assert avg == AverageSeries(bufs, n, count);
    }

    /**
     * The series of the `i`-th instance of the group at `gk`: its id from
     * `get_group_instance`, its record from `find_id`, and the buffer the
     * callback fills for its atom range.
     */
    method InstanceSeriesAt(gk: nat, i: nat, cmd: PropertyCommand, args: seq<string>,
                            mol: MoleculeStructure, traj: Trajectory) returns (instanceId: ID, data: seq<real>)
      requires gk < |groups| && i < groups[gk].instanceCount
      requires Covered(groupInstances, groups)
      ensures instanceId == GroupInstanceAt(groupInstances, groups[gk].id, i)
      ensures data == SeriesBuffer(traj.numFrames,
        cmd.func(args, mol, traj, InstanceStructure(groupInstances, groups[gk].id, i)).written)
    {
      var gid := groups[gk].id;
      instanceId := GetGroupInstance(gid, i);
      assert |MembersOf(groupInstances, groups[gk].id)| >= groups[gk].instanceCount;
      InstanceLookupSucceeds(groupInstances, gid, i);
      var inst := groupInstances[FindId(groupInstances, InstanceIdOf, instanceId).value];
      // The callback's return value is not looked at.
      var result := cmd.func(args, mol, traj, inst.structure);
      data := SeriesBuffer(traj.numFrames, result.written);
    }
  }
}
