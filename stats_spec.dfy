/**
 * What one pass of `compute_stats` does to the tables of the statistics
 * engine (src/stats/stats.cpp:255-365), as functions of the tables before the
 * pass: lazy resolution of groups into instances, then memoised evaluation of
 * properties into per-instance and averaged series.
 */
module StatsSpec {
  import opened Wrappers
  import opened Text
  import opened MolTypes
  import opened StatsTypes

  // ------------------------------------------------------------ group resolution

  datatype Resolution = Resolution(groups: seq<Group>, instances: seq<GroupInstance>)

  /** The instances created for the matches of group `g`, named `"<name>.<i>"`. */
  function InstancesFor(computeId: string -> ID, g: Group, matches: seq<Structure>): (r: seq<GroupInstance>)
    ensures |r| == |matches|
    ensures forall i :: 0 <= i < |r| ==> r[i].groupId == g.id && r[i].structure == matches[i]
  {
    seq(|matches|, i requires 0 <= i < |matches| => GroupInstance(computeId(InstanceName(g.name, i)), g.id, matches[i]))
  }

  predicate CommandsKnown(cmds: seq<GroupCommand>, gs: seq<Group>)
  {
    forall k :: 0 <= k < |gs| ==> FindId(cmds, GroupCommandIdOf, gs[k].cmdId).Some?
  }

  lemma CommandsKnownPrefix(cmds: seq<GroupCommand>, gs: seq<Group>, n: nat)
    requires CommandsKnown(cmds, gs) && n <= |gs|
    ensures CommandsKnown(cmds, gs[..n])
  {
    forall k | 0 <= k < n ensures FindId(cmds, GroupCommandIdOf, gs[..n][k].cmdId).Some? {
      assert gs[..n][k] == gs[k];
    }
  }

  /** The matches the registered extract function of `g` finds. */
  function MatchesOf(cmds: seq<GroupCommand>, mol: MoleculeStructure, g: Group): seq<Structure>
    requires FindId(cmds, GroupCommandIdOf, g.cmdId).Some?
  {
    cmds[FindId(cmds, GroupCommandIdOf, g.cmdId).value].func(Tokenize(g.args), mol)
  }

  /**
   * One group: an unresolved group (count 0) whose extract function matches
   * something gets one instance per match, in order; any other group is left
   * as it is and gets no instance.
   */
  function ResolveGroup(computeId: string -> ID, cmds: seq<GroupCommand>, mol: MoleculeStructure, g: Group): (r: Resolution)
    requires FindId(cmds, GroupCommandIdOf, g.cmdId).Some?
    ensures |r.groups| == 1 && r.groups == [r.groups[0]]
    ensures g.instanceCount != 0 || MatchesOf(cmds, mol, g) == [] ==> r == Resolution([g], [])
    ensures g.instanceCount == 0 && MatchesOf(cmds, mol, g) != [] ==>
      var ins := InstancesFor(computeId, g, MatchesOf(cmds, mol, g));
      r.instances == ins &&
      r.groups[0] == g.(instanceBegId := ins[0].id, instanceCount := |ins|)
  {
    if g.instanceCount != 0 then Resolution([g], [])
    else
      var matches := MatchesOf(cmds, mol, g);
      if matches == [] then Resolution([g], [])
      else
        var ins := InstancesFor(computeId, g, matches);
        Resolution([g.(instanceBegId := ins[0].id, instanceCount := |ins|)], ins)
  }

  /** The group loop of `compute_stats`, over the groups in order. */
  function ResolveGroups(computeId: string -> ID, cmds: seq<GroupCommand>, mol: MoleculeStructure, gs: seq<Group>): (r: Resolution)
    requires CommandsKnown(cmds, gs)
    ensures |r.groups| == |gs|
    ensures forall k :: 0 <= k < |gs| ==>
      r.groups[k].id == gs[k].id && r.groups[k].cmdId == gs[k].cmdId &&
      r.groups[k].name == gs[k].name && r.groups[k].args == gs[k].args
  {
    if gs == [] then Resolution([], [])
    else
      var n := |gs| - 1;
      var init := ResolveGroups(computeId, cmds, mol, gs[..n]);
      var last := ResolveGroup(computeId, cmds, mol, gs[n]);
      Resolution(init.groups + last.groups, init.instances + last.instances)
  }

  /** One more step of the group loop. */
  lemma ResolveGroupsStep(computeId: string -> ID, cmds: seq<GroupCommand>, mol: MoleculeStructure, gs: seq<Group>, i: nat)
    requires CommandsKnown(cmds, gs) && i < |gs|
    ensures CommandsKnown(cmds, gs[..i]) && CommandsKnown(cmds, gs[..i + 1])
    ensures var init := ResolveGroups(computeId, cmds, mol, gs[..i]);
            var last := ResolveGroup(computeId, cmds, mol, gs[i]);
            ResolveGroups(computeId, cmds, mol, gs[..i + 1]) ==
              Resolution(init.groups + last.groups, init.instances + last.instances)
  {
    CommandsKnownPrefix(cmds, gs, i);
    CommandsKnownPrefix(cmds, gs, i + 1);
    assert gs[..i + 1][..i] == gs[..i];
    assert gs[..i + 1][i] == gs[i];
  }

  /** Each group ends up exactly as resolving it on its own would leave it. */
  lemma {:induction false} ResolveGroupsPointwise(computeId: string -> ID, cmds: seq<GroupCommand>, mol: MoleculeStructure, gs: seq<Group>, k: nat)
    requires CommandsKnown(cmds, gs)
    requires k < |gs|
    ensures ResolveGroups(computeId, cmds, mol, gs).groups[k] == ResolveGroup(computeId, cmds, mol, gs[k]).groups[0]
    decreases |gs|
  {
    var n := |gs| - 1;
    if k < n {
      assert gs[..n][k] == gs[k];
      ResolveGroupsPointwise(computeId, cmds, mol, gs[..n], k);
    }
  }

  /** Resolution keeps every group's command. */
  lemma ResolveGroupsKeepCommands(computeId: string -> ID, cmds: seq<GroupCommand>, mol: MoleculeStructure, gs: seq<Group>)
    requires CommandsKnown(cmds, gs)
    ensures CommandsKnown(cmds, ResolveGroups(computeId, cmds, mol, gs).groups)
  {
    var once := ResolveGroups(computeId, cmds, mol, gs).groups;
    forall k | 0 <= k < |once| ensures FindId(cmds, GroupCommandIdOf, once[k].cmdId).Some? {
      assert once[k].cmdId == gs[k].cmdId;
    }
  }

  /** A group left by one resolution is left alone by the next. */
  lemma ResolveGroupTwice(computeId: string -> ID, cmds: seq<GroupCommand>, mol: MoleculeStructure, g: Group)
    requires FindId(cmds, GroupCommandIdOf, g.cmdId).Some?
    ensures var g' := ResolveGroup(computeId, cmds, mol, g).groups[0];
            FindId(cmds, GroupCommandIdOf, g'.cmdId).Some? &&
            ResolveGroup(computeId, cmds, mol, g') == Resolution([g'], [])
  {
  }

  /**
   * Resolution is idempotent: a second pass over the groups the first pass
   * produced changes no group and creates no instance.
   */
  lemma {:induction false} ResolveGroupsIdempotent(computeId: string -> ID, cmds: seq<GroupCommand>, mol: MoleculeStructure, gs: seq<Group>)
    requires CommandsKnown(cmds, gs)
    ensures CommandsKnown(cmds, ResolveGroups(computeId, cmds, mol, gs).groups)
    ensures var once := ResolveGroups(computeId, cmds, mol, gs).groups;
            ResolveGroups(computeId, cmds, mol, once) == Resolution(once, [])
    decreases |gs|
  {
    ResolveGroupsKeepCommands(computeId, cmds, mol, gs);
    var once := ResolveGroups(computeId, cmds, mol, gs).groups;
    if gs != [] {
      var n := |gs| - 1;
      CommandsKnownPrefix(cmds, gs, n);
      ResolveGroupsIdempotent(computeId, cmds, mol, gs[..n]);
      var initOnce := ResolveGroups(computeId, cmds, mol, gs[..n]).groups;
      var g' := ResolveGroup(computeId, cmds, mol, gs[n]).groups[0];
      assert once == initOnce + [g'];
      assert once[..n] == initOnce;
      assert once[n] == g';
      ResolveGroupTwice(computeId, cmds, mol, gs[n]);
      CommandsKnownPrefix(cmds, once, n);
      assert ResolveGroups(computeId, cmds, mol, once)
          == Resolution(ResolveGroups(computeId, cmds, mol, initOnce).groups + [g'],
                        ResolveGroups(computeId, cmds, mol, initOnce).instances + []);
    }
  }

  /** Appending instances never shrinks the member list of a group. */
  lemma MembersGrow(a: seq<GroupInstance>, b: seq<GroupInstance>, gid: ID)
    ensures |MembersOf(a + b, gid)| >= |MembersOf(a, gid)|
  {
    MembersOfAppend(a, b, gid);
  }

  lemma AppendAssoc<T>(a: seq<T>, b: seq<T>, c: seq<T>)
    ensures (a + b) + c == a + (b + c)
  {
  }

  /** Resolving one group keeps its count covered by its recorded instances. */
  lemma ResolveGroupCovers(computeId: string -> ID, cmds: seq<GroupCommand>, mol: MoleculeStructure,
                           g: Group, pre: seq<GroupInstance>)
    requires FindId(cmds, GroupCommandIdOf, g.cmdId).Some?
    requires |MembersOf(pre, g.id)| >= g.instanceCount
    ensures var r := ResolveGroup(computeId, cmds, mol, g);
            |MembersOf(pre + r.instances, r.groups[0].id)| >= r.groups[0].instanceCount
  {
    var r := ResolveGroup(computeId, cmds, mol, g);
    MembersOfAppend(pre, r.instances, g.id);
    if r.instances != [] {
      MembersOfAll(r.instances, g.id);
    }
  }

  /** Every group's instance count is covered by the instances recorded under its id. */
  predicate Covered(instances: seq<GroupInstance>, gs: seq<Group>)
  {
    forall k :: 0 <= k < |gs| ==> |MembersOf(instances, gs[k].id)| >= gs[k].instanceCount
  }

  /** Resolution keeps every instance count covered. */
  lemma {:induction false} ResolveGroupsCovers(computeId: string -> ID, cmds: seq<GroupCommand>, mol: MoleculeStructure,
                                               gs: seq<Group>, before: seq<GroupInstance>)
    requires CommandsKnown(cmds, gs)
    requires Covered(before, gs)
    ensures Covered(before + ResolveGroups(computeId, cmds, mol, gs).instances, ResolveGroups(computeId, cmds, mol, gs).groups)
    decreases |gs|
  {
    if gs != [] {
      var n := |gs| - 1;
      CommandsKnownPrefix(cmds, gs, n);
      var init := ResolveGroups(computeId, cmds, mol, gs[..n]);
      var last := ResolveGroup(computeId, cmds, mol, gs[n]);
      assert Covered(before, gs[..n]) by {
        forall k | 0 <= k < n ensures |MembersOf(before, gs[..n][k].id)| >= gs[..n][k].instanceCount {
          assert gs[..n][k] == gs[k];
        }
      }
      ResolveGroupsCovers(computeId, cmds, mol, gs[..n], before);
      var mid := before + init.instances;
      var rg := init.groups + last.groups;
      var ri := init.instances + last.instances;
      assert ResolveGroups(computeId, cmds, mol, gs) == Resolution(rg, ri);
      AppendAssoc(before, init.instances, last.instances);
      MembersGrow(before, init.instances, gs[n].id);
      ResolveGroupCovers(computeId, cmds, mol, gs[n], mid);
      forall k | 0 <= k < |rg|
        ensures |MembersOf(before + ri, rg[k].id)| >= rg[k].instanceCount
      {
        MembersGrow(mid, last.instances, rg[k].id);
        if k < n {
          assert rg[k] == init.groups[k];
        } else {
          assert k == n;
          assert rg[n] == last.groups[0];
        }
      }
    }
  }

  /** A sequence whose items all belong to `gid` is its own member list. */
  lemma {:induction false} MembersOfAll(ins: seq<GroupInstance>, gid: ID)
    requires forall i :: 0 <= i < |ins| ==> ins[i].groupId == gid
    ensures MembersOf(ins, gid) == ins
    decreases |ins|
  {
    if ins != [] {
      var n := |ins| - 1;
      MembersOfAll(ins[..n], gid);
      assert ins == ins[..n] + [ins[n]];
    }
  }

  /**
   * Insertion order: when group `gid` had no instance before, the ordinal
   * lookup finds exactly the instances just created for it, in match order.
   */
  lemma FreshInstancesInOrder(before: seq<GroupInstance>, ins: seq<GroupInstance>, gid: ID, i: int)
    requires MembersOf(before, gid) == []
    requires forall k :: 0 <= k < |ins| ==> ins[k].groupId == gid
    requires 0 <= i < |ins|
    ensures GroupInstanceAt(before + ins, gid, i) == ins[i].id
  {
    MembersOfAppend(before, ins, gid);
    MembersOfAll(ins, gid);
  }

  // --------------------------------------------------------- property evaluation

  /** The tables a property pass reads. */
  datatype EvalEnv = EvalEnv(
    computeId: string -> ID, cmds: seq<PropertyCommand>, groups: seq<Group>,
    instances: seq<GroupInstance>, mol: MoleculeStructure, traj: Trajectory)

  datatype Evaluation = Evaluation(properties: seq<Property>, data: seq<PropertyData>)

  predicate PropertyCommandsKnown(cmds: seq<PropertyCommand>, ps: seq<Property>)
  {
    forall k :: 0 <= k < |ps| ==> FindId(cmds, PropertyCommandIdOf, ps[k].cmdId).Some?
  }

  /** A `calloc`ed buffer of `count` values after the callback wrote `written` at its start. */
  function SeriesBuffer(count: nat, written: seq<real>): (b: seq<real>)
    ensures |b| == count
    ensures forall j :: 0 <= j < count ==> b[j] == if j < |written| then written[j] else 0.0
  {
    seq(count, j requires 0 <= j < count => if j < |written| then written[j] else 0.0)
  }

  /** The atom range of the `i`-th instance of group `gid`, as `find_id` locates it. */
  function InstanceStructure(instances: seq<GroupInstance>, gid: ID, i: int): Structure
  {
    match FindId(instances, InstanceIdOf, GroupInstanceAt(instances, gid, i))
    case Some(k) => instances[k].structure
    case None => Structure(0, 0)
  }

  /** `x / (float)n` with the division by zero of an empty group not reachable. */
  function Share(x: real, n: nat): real
  {
    if n == 0 then 0.0 else x / n as real
  }

  /** Column `j` of the running average: the sum of `bufs[i][j] / n` over the buffers so far. */
  function ColumnShare(bufs: seq<seq<real>>, n: nat, j: nat): real
  {
    if bufs == [] then 0.0
    else
      var last := bufs[|bufs| - 1];
      ColumnShare(bufs[..|bufs| - 1], n, j) + Share(if j < |last| then last[j] else 0.0, n)
  }

  /** Plain column sum, the reference for the average. */
  function ColumnSum(bufs: seq<seq<real>>, j: nat): real
  {
    if bufs == [] then 0.0
    else
      var last := bufs[|bufs| - 1];
      ColumnSum(bufs[..|bufs| - 1], j) + (if j < |last| then last[j] else 0.0)
  }

  /** The accumulated average is the column sum divided by the instance count. */
  lemma {:induction false} ColumnShareIsMean(bufs: seq<seq<real>>, n: nat, j: nat)
    requires n > 0
    ensures ColumnShare(bufs, n, j) == ColumnSum(bufs, j) / n as real
    decreases |bufs|
  {
    if bufs != [] {
      ColumnShareIsMean(bufs[..|bufs| - 1], n, j);
    }
  }

  /** The name `"<group>.<property>.<suffix>"` a series id is hashed from. */
  function SeriesName(groupName: string, propName: string, suffix: string): string
  {
    Bounded(groupName + "." + propName + "." + suffix, NameBufferSize)
  }

  /** The series of instance `i` of the bound group. */
  function InstanceSeries(env: EvalEnv, cmd: PropertyCommand, args: seq<string>, gid: ID, i: int): (b: seq<real>)
    ensures |b| == env.traj.numFrames
  {
    SeriesBuffer(env.traj.numFrames,
      cmd.func(args, env.mol, env.traj, InstanceStructure(env.instances, gid, i)).written)
  }

  function CommandOf(env: EvalEnv, p: Property): PropertyCommand
    requires FindId(env.cmds, PropertyCommandIdOf, p.cmdId).Some?
  {
    env.cmds[FindId(env.cmds, PropertyCommandIdOf, p.cmdId).value]
  }

  /**
   * The position of the group a property is computed against, or None when
   * the pass skips the property: its data is already computed (`data_beg_id`
   * set), it is an `INTER` property, it has no arguments, or its first
   * argument names no group.
   */
  function BoundGroup(env: EvalEnv, p: Property): (r: Option<nat>)
    requires FindId(env.cmds, PropertyCommandIdOf, p.cmdId).Some?
    ensures r.Some? ==> r.value < |env.groups|
  {
    var args := Tokenize(p.args);
    if p.dataBegId != InvalidId || CommandOf(env, p).kind == Inter || |args| == 0 then None
    else
      var gid := GetGroupByName(env.groups, args[0]);
      if gid == InvalidId then None else FindId(env.groups, GroupIdOf, gid)
  }

  /** How often `for (int32 i = 0; i < count; i++)` runs. */
  function Iterations(count: int): (n: nat)
    ensures count >= 0 ==> n == count
    ensures count < 0 ==> n == 0
  {
    if count > 0 then count else 0
  }

  /** The per-instance series of a property bound to the group at `gk`. */
  function PropertySeries(env: EvalEnv, p: Property, gk: nat): (bufs: seq<seq<real>>)
    requires FindId(env.cmds, PropertyCommandIdOf, p.cmdId).Some?
    requires gk < |env.groups|
    ensures |bufs| == Iterations(env.groups[gk].instanceCount)
    ensures forall i :: 0 <= i < |bufs| ==> |bufs[i]| == env.traj.numFrames
  {
    var g := env.groups[gk];
    seq(Iterations(g.instanceCount), i => InstanceSeries(env, CommandOf(env, p), Tokenize(p.args), g.id, i))
  }

  /** The id of the averaged series, hashed from `"<group>.<property>.avg"`. */
  function AverageId(env: EvalEnv, p: Property, gk: nat): ID
    requires gk < |env.groups|
  {
    env.computeId(SeriesName(env.groups[gk].name, p.name, "avg"))
  }

  /** The entry of the `i`-th per-instance series, named `"<group>.<property>.<i>"`. */
  function InstanceEntry(env: EvalEnv, p: Property, gk: nat, bufs: seq<seq<real>>, i: nat): PropertyData
    requires gk < |env.groups| && i < |bufs|
  {
    var g := env.groups[gk];
    PropertyData(env.computeId(SeriesName(g.name, p.name, NatToString(i))),
                 p.id, GroupInstanceAt(env.instances, g.id, i), bufs[i])
  }

  /** The entries of the first `i` per-instance series, in instance order. */
  function InstanceEntries(env: EvalEnv, p: Property, gk: nat, bufs: seq<seq<real>>, i: nat): (r: seq<PropertyData>)
    requires gk < |env.groups| && i <= |bufs|
    ensures |r| == i
  {
    if i == 0 then [] else InstanceEntries(env, p, gk, bufs, i - 1) + [InstanceEntry(env, p, gk, bufs, i - 1)]
  }

  lemma {:induction false} InstanceEntriesAt(env: EvalEnv, p: Property, gk: nat, bufs: seq<seq<real>>, i: nat, l: nat)
    requires gk < |env.groups| && i <= |bufs| && l < i
    ensures InstanceEntries(env, p, gk, bufs, i)[l] == InstanceEntry(env, p, gk, bufs, l)
    decreases i
  {
    if l < i - 1 {
      InstanceEntriesAt(env, p, gk, bufs, i - 1, l);
    }
  }

  /** The `i`-th series of a bound property is what its command computes for the `i`-th instance. */
  lemma PropertySeriesAt(env: EvalEnv, p: Property, gk: nat, i: nat)
    requires FindId(env.cmds, PropertyCommandIdOf, p.cmdId).Some?
    requires gk < |env.groups| && i < Iterations(env.groups[gk].instanceCount)
    ensures PropertySeries(env, p, gk)[i] ==
      SeriesBuffer(env.traj.numFrames, CommandOf(env, p).func(Tokenize(p.args), env.mol, env.traj,
                   InstanceStructure(env.instances, env.groups[gk].id, i)).written)
  {
  }

  /**
   * One property: a property the pass skips is left as it is with no data.
   * Otherwise one averaged series and then one series per instance of the
   * bound group.
   */
  function EvaluateProperty(env: EvalEnv, p: Property): (e: Evaluation)
    requires FindId(env.cmds, PropertyCommandIdOf, p.cmdId).Some?
    ensures |e.properties| == 1
    ensures e.properties[0].id == p.id && e.properties[0].cmdId == p.cmdId
    ensures e.properties[0].name == p.name && e.properties[0].args == p.args
  {
    match BoundGroup(env, p)
    case None => Evaluation([p], [])
    case Some(gk) => ComputedEvaluation(env, p, gk)
  }

  /** The running average of `n` series over `count` frames. */
  function AverageSeries(bufs: seq<seq<real>>, n: nat, count: nat): (avg: seq<real>)
    ensures |avg| == count
    ensures forall j :: 0 <= j < count ==> avg[j] == ColumnShare(bufs, n, j)
  {
    seq(count, j requires 0 <= j < count => ColumnShare(bufs, n, j))
  }

  /** What the computing branch produces for a property bound to the group at `gk`. */
  function ComputedEvaluation(env: EvalEnv, p: Property, gk: nat): (e: Evaluation)
    requires FindId(env.cmds, PropertyCommandIdOf, p.cmdId).Some? && gk < |env.groups|
  {
    var n := Iterations(env.groups[gk].instanceCount);
    var bufs := PropertySeries(env, p, gk);
    var avgId := AverageId(env, p, gk);
    var p' := p.(dataAvgId := avgId,
                 dataBegId := if n > 0 then InstanceEntry(env, p, gk, bufs, 0).id else p.dataBegId,
                 dataCount := if n > 0 then n else p.dataCount);
    Evaluation([p'], [PropertyData(avgId, p.id, InvalidId, AverageSeries(bufs, n, env.traj.numFrames))] +
                     InstanceEntries(env, p, gk, bufs, n))
  }

  /** Memoisation: a property that the pass skips keeps its state and gets no data. */
  lemma SkippedPropertyUnchanged(env: EvalEnv, p: Property)
    requires FindId(env.cmds, PropertyCommandIdOf, p.cmdId).Some?
    requires BoundGroup(env, p).None?
    ensures EvaluateProperty(env, p) == Evaluation([p], [])
  {
  }

  /** A computed property is never computed again. */
  lemma ComputedPropertyIsSkipped(env: EvalEnv, p: Property)
    requires FindId(env.cmds, PropertyCommandIdOf, p.cmdId).Some?
    requires p.dataBegId != InvalidId
    ensures EvaluateProperty(env, p) == Evaluation([p], [])
  {
  }

  /**
   * A property computed against a group of `n` instances gets one averaged
   * series and then `n` per-instance series, all `num_frames` long and all
   * owned by the property; the `i`-th belongs to the `i`-th instance and
   * holds what the callback wrote for it; `data_count` becomes `n`.
   */
  lemma EvaluatedPropertyLayout(env: EvalEnv, p: Property)
    requires FindId(env.cmds, PropertyCommandIdOf, p.cmdId).Some?
    requires BoundGroup(env, p).Some?
    ensures var gk := BoundGroup(env, p).value;
            var e := EvaluateProperty(env, p);
            var n := Iterations(env.groups[gk].instanceCount);
            && |e.data| == 1 + n
            && (forall k :: 0 <= k < |e.data| ==>
                  e.data[k].propertyId == p.id && |e.data[k].data| == env.traj.numFrames)
            && e.data[0].instanceId == InvalidId
            && e.properties[0].dataAvgId == e.data[0].id
            && (n > 0 ==> e.properties[0].dataCount == n && e.properties[0].dataBegId == e.data[1].id)
  {
    var gk := BoundGroup(env, p).value;
    assert EvaluateProperty(env, p) == ComputedEvaluation(env, p, gk);
    ComputedLayout(env, p, gk);
  }

  lemma ComputedLayout(env: EvalEnv, p: Property, gk: nat)
    requires FindId(env.cmds, PropertyCommandIdOf, p.cmdId).Some? && gk < |env.groups|
    ensures var e := ComputedEvaluation(env, p, gk);
            var n := Iterations(env.groups[gk].instanceCount);
            && |e.data| == 1 + n
            && (forall k :: 0 <= k < |e.data| ==>
                  e.data[k].propertyId == p.id && |e.data[k].data| == env.traj.numFrames)
            && e.data[0].instanceId == InvalidId
            && e.properties[0].dataAvgId == e.data[0].id
            && (n > 0 ==> e.properties[0].dataCount == n && e.properties[0].dataBegId == e.data[1].id)
  {
    var e := ComputedEvaluation(env, p, gk);
    var bufs := PropertySeries(env, p, gk);
    var n := |bufs|;
    var entries := InstanceEntries(env, p, gk, bufs, n);
    assert e.data[1..] == entries;
    forall k | 1 <= k < |e.data|
      ensures e.data[k].propertyId == p.id && |e.data[k].data| == env.traj.numFrames
    {
      InstanceEntriesAt(env, p, gk, bufs, n, k - 1);
      assert e.data[k] == entries[k - 1];
    }
    if n > 0 {
      InstanceEntriesAt(env, p, gk, bufs, n, 0);
      assert e.data[1] == entries[0];
    }
  }

  /** The `i`-th per-instance series belongs to the `i`-th instance and holds its values. */
  lemma EvaluatedPropertyInstances(env: EvalEnv, p: Property, i: nat)
    requires FindId(env.cmds, PropertyCommandIdOf, p.cmdId).Some?
    requires BoundGroup(env, p).Some?
    requires i < Iterations(env.groups[BoundGroup(env, p).value].instanceCount)
    ensures var gk := BoundGroup(env, p).value;
            var e := EvaluateProperty(env, p);
            1 + i < |e.data| &&
            e.data[1 + i].instanceId == GroupInstanceAt(env.instances, env.groups[gk].id, i) &&
            e.data[1 + i].data == PropertySeries(env, p, gk)[i]
  {
    var gk := BoundGroup(env, p).value;
    var e := EvaluateProperty(env, p);
    var bufs := PropertySeries(env, p, gk);
    InstanceEntriesAt(env, p, gk, bufs, |bufs|, i);
    assert e.data[1 + i] == InstanceEntry(env, p, gk, bufs, i);
  }

  /** The averaged series at frame `j` is the mean of the instance series at `j`. */
  lemma {:induction false} EvaluatedPropertyAverage(env: EvalEnv, p: Property, j: nat)
    requires FindId(env.cmds, PropertyCommandIdOf, p.cmdId).Some?
    requires BoundGroup(env, p).Some?
    requires Iterations(env.groups[BoundGroup(env, p).value].instanceCount) > 0
    requires j < env.traj.numFrames
    ensures var gk := BoundGroup(env, p).value;
            var e := EvaluateProperty(env, p);
            var n := Iterations(env.groups[gk].instanceCount);
            |e.data| > 0 && |e.data[0].data| == env.traj.numFrames &&
            e.data[0].data[j] == ColumnSum(PropertySeries(env, p, gk), j) / n as real
  {
    var gk := BoundGroup(env, p).value;
    var n := Iterations(env.groups[gk].instanceCount);
    var bufs := PropertySeries(env, p, gk);
    var e := EvaluateProperty(env, p);
    assert e.data[0].data[j] == ColumnShare(bufs, n, j);
    ColumnShareIsMean(bufs, n, j);
  }

  /**
   * As written, a property bound to a group with no instance gets an averaged
   * series but keeps `data_beg_id` unset, so every later pass appends another
   * averaged series for it.
   */
  lemma EmptyGroupAveragedAgain(env: EvalEnv, p: Property)
    requires FindId(env.cmds, PropertyCommandIdOf, p.cmdId).Some?
    requires BoundGroup(env, p).Some? && Iterations(env.groups[BoundGroup(env, p).value].instanceCount) == 0
    ensures var e := EvaluateProperty(env, p);
            |e.data| == 1 && e.properties[0].dataBegId == InvalidId &&
            |EvaluateProperty(env, e.properties[0]).data| == 1
  {
    var e := EvaluateProperty(env, p);
    var p' := e.properties[0];
    assert Tokenize(p'.args) == Tokenize(p.args);
    assert BoundGroup(env, p') == BoundGroup(env, p);
  }

  lemma PropertyCommandsKnownPrefix(cmds: seq<PropertyCommand>, ps: seq<Property>, n: nat)
    requires PropertyCommandsKnown(cmds, ps) && n <= |ps|
    ensures PropertyCommandsKnown(cmds, ps[..n])
  {
    forall k | 0 <= k < n ensures FindId(cmds, PropertyCommandIdOf, ps[..n][k].cmdId).Some? {
      assert ps[..n][k] == ps[k];
    }
  }

  /** One more step of the property loop. */
  lemma EvaluatePropertiesStep(env: EvalEnv, ps: seq<Property>, i: nat)
    requires PropertyCommandsKnown(env.cmds, ps) && i < |ps|
    ensures PropertyCommandsKnown(env.cmds, ps[..i]) && PropertyCommandsKnown(env.cmds, ps[..i + 1])
    ensures var init := EvaluateProperties(env, ps[..i]);
            var last := EvaluateProperty(env, ps[i]);
            EvaluateProperties(env, ps[..i + 1]) ==
              Evaluation(init.properties + last.properties, init.data + last.data)
  {
    PropertyCommandsKnownPrefix(env.cmds, ps, i);
    PropertyCommandsKnownPrefix(env.cmds, ps, i + 1);
    assert ps[..i + 1][..i] == ps[..i];
    assert ps[..i + 1][i] == ps[i];
  }

  /** The property loop of `compute_stats`, over the properties in order. */
  function EvaluateProperties(env: EvalEnv, ps: seq<Property>): (r: Evaluation)
    requires PropertyCommandsKnown(env.cmds, ps)
    ensures |r.properties| == |ps|
  {
    if ps == [] then Evaluation([], [])
    else
      var n := |ps| - 1;
      var init := EvaluateProperties(env, ps[..n]);
      var last := EvaluateProperty(env, ps[n]);
      Evaluation(init.properties + last.properties, init.data + last.data)
  }
}
