# viamd statistics, loader and topology core in Dafny

This project models three sequential parts of the viamd molecular viewer and
proves properties of the model.

* **Statistics engine** (`src/stats/stats.cpp`). A global context holds
  growable tables: property commands, group commands, groups, group
  instances, properties and property data. Commands are registered under
  `COMPUTE_ID(keyword)`. Groups are created unresolved. `compute_stats`
  resolves each unresolved group into one instance per atom range its extract
  command matches. It then evaluates every property that has no data yet into
  one averaged series and one series per instance of the bound group. The
  module also has the built-in `dist`/`angle`/`dihedral` commands, the
  `resname` matcher, the ordinal instance lookup and histogram binning.
* **Loader registry and decode pipeline** (`src/loader.cpp`). Two tables of
  eight slots hold the loaded molecules and trajectories. Lookup is linear,
  adding appends, and removal swaps in the last slot. A static table maps file
  extensions to loaders. `open_file` validates its inputs and sizes a frame
  cache. The trajectory it returns decodes every frame through that cache:
  on a miss it fetches and decodes once, recenters and deperiodizes when
  asked, copies the frame out only on success and releases the lock it was
  given. The interface reaches its entry through the slot it captured at
  open (`traj->inst`), which a later removal can leave stale (see
  "## Findings").
* **Molecule topology utilities** (`src/mol/molecule_utils.cpp`, the part
  outside `draw`):
  * `compute_chains`: residue bonds, chain labelling, and the split into runs
    of equal labels;
  * the pair enumeration of `compute_atomic_bonds`;
  * per-atom radii and CPK colours;
  * the bounding box.

Modules:

* `Wrappers` — `Option`.
* `MolTypes` — the molecule structure.
* `Text` — tokenising, `%i` formatting, `to_int32` and `snprintf` truncation.
* `StatsTypes` — the context's records, `find_id` and the lookups.
* `StatsBuiltins` — the built-in commands.
* `StatsSpec` — the reference functions for the two passes of
  `compute_stats`.
* `StatsHistogram` — `compute_histogram`.
* `Stats` — the `StatisticsContext` class.
* `Loader` — the `LoaderRegistry` class and the extension table.
* `MoleculeUtils` — the topology utilities.

Stateful code is modelled with classes (`StatisticsContext`, `Histogram` and
`LoaderRegistry`) whose methods have `modifies` frames. Loops are `while`/`for`
loops. Each method is proved against a reference function:

* group resolution against `ResolveGroups`;
* property evaluation against `EvaluateProperties`;
* bond enumeration against `Filter(CandidatePairs(..))`;
* chain labelling against `LabelPass`;
* chain splitting against `Runs`;
* decoding against `DecodeEffect`.

The properties the source promises are then proved about those functions.

### Collaborators, I/O and numbers

* **Hashing.** `COMPUTE_ID` (crc64) is an uninterpreted function fixed when
  a context is constructed.
* **Geometry.** `math::distance`, `math::angle` and `dihedral_angle` are the
  `Geometry` functions of the context.
* **Extract callbacks.** Group extract callbacks are function values stored
  in the command records.
* **Property callbacks.** A property callback is a function value too. It
  returns its result and the prefix of the series buffer it writes.
* **Bond test.** The covalent-radius distance test of `compute_atomic_bonds`
  is the predicate `bonded`.
* **Element tables.** `element::vdw_radius` and `element::color` are
  function parameters.
* **Loader collaborators.** The loader's collaborators supply their answers
  as parameters: `extract_ext`, the loader's `create`, the frame cache's
  lock and eviction, the underlying fetch and decode, and the
  recenter/deperiodize transforms. Every call made into them is appended to
  the registry's `calls` log.
* **Integers.** `uint64_t` handles are `Key` (`0 <= k < 2^64`). The frame
  size product wraps modulo 2^64. Stored frame indices are little-endian
  two's-complement `int64_t`.
* **Floats.** Floating-point values are reals. The float-to-`int32`
  conversion of a histogram coordinate is written out, including the x86
  `INT32_MIN` result for values out of range.

## Model

| member | source | states |
|---|---|---|
| StatsTypes.FindId | src/stats/stats.cpp:192-198 | `find_id` yields the first position whose id matches; it is None exactly when no item has that id |
| StatsTypes.FindIdAppend | src/stats/stats.cpp:192-198 | appending items never changes the position `find_id` already finds |
| StatsTypes.GroupIndexByName | src/stats/stats.cpp:446-451 | the first group with the name, and none before it has that name; None exactly when no group has it |
| StatsTypes.GetGroupByName | src/stats/stats.cpp:446-451 | `get_group(name)` is INVALID_ID when no group has the name, and otherwise the id of the group that has it with no earlier group of that name |
| StatsTypes.MembersOfBelong | src/stats/stats.cpp:464-473 | every member of a group's instance list is one of the instances and belongs to that group |
| StatsTypes.MembersOfAppend | src/stats/stats.cpp:464-473 | the members of concatenated instance tables are the members of each table, in order |
| StatsTypes.InstanceLookupSucceeds | src/stats/stats.cpp:464-473 | an ordinal lookup within the group's member count names an instance that `find_id` then locates |
| Text.RunEnd | src/stats/stats.cpp:404-410 | the end of a token: no delimiter before it, and a delimiter or the end of the string at it |
| Text.Spans | src/stats/stats.cpp:404-410 | the token spans of `ctokenize` are non-empty and lie inside the string |
| Text.SpansWellFormed | src/stats/stats.cpp:404-410 | tokens hold no delimiter, end at a delimiter or at the end of the string, and come in increasing order without overlap |
| Text.SpansCover | src/stats/stats.cpp:404-410 | every non-delimiter character lies in some token |
| Text.Tokenize | src/stats/stats.cpp:404-410 | one token string per span |
| Text.TokensNonEmpty | src/stats/stats.cpp:404-410 | every token is a non-empty string without a delimiter |
| Text.CommandTokenIsFirstRun | src/stats/stats.cpp:404-405 | the command is "" exactly when the line holds only spaces; otherwise it is the first maximal run of non-spaces, with only spaces before it |
| Text.ArgsAfterCommandTokens | src/stats/stats.cpp:404-410 | with at least one token, tokenising the argument part gives exactly the tokens after the command; with no token the argument part is "" |
| Text.NatToString | src/stats/stats.cpp:281 | `%i` of an index is a non-empty string of decimal digits |
| Text.DigitsValueOfNatToString | src/stats/stats.cpp:281 | the digits of `%i` read back as the same number |
| Text.ParseInt32 | src/stats/stats.cpp:82-85 | `to_int32` succeeds exactly on an optional '-' followed by digits whose value lies in the 32-bit range, and then yields that value (negated after a '-'); out-of-range and malformed tokens fail |
| Text.ParseInt32OfNatToString | src/stats/stats.cpp:82-85 | formatting an index in `int32` range with `%i` and parsing it back gives the index |
| Text.Bounded | src/stats/stats.cpp:280-281 | `snprintf` into a `cap`-byte buffer keeps a prefix of the string: the whole string when it fits, and exactly `cap - 1` characters when it does not |
| StatsBuiltins.ComputeAtomicDistance | src/stats/stats.cpp:78-97 | success exactly with two integer arguments and a non-empty structure, and nothing written otherwise; on success, one distance per frame between the two atoms offset from the structure start |
| StatsBuiltins.ComputeAtomicAngle | src/stats/stats.cpp:99-122 | success exactly with three integer arguments and a non-empty structure, and nothing written otherwise; on success, the angle at the second atom per frame |
| StatsBuiltins.ComputeAtomicDihedral | src/stats/stats.cpp:124-150 | success exactly with four arguments of which the first three are integers, and a non-empty structure; the fourth atom is read from the third argument again |
| StatsBuiltins.ResidueMatchesCount | src/stats/stats.cpp:154-160 | a residue contributes one structure per argument equal to its name |
| StatsBuiltins.ResidueMatchesOnly | src/stats/stats.cpp:154-160 | a residue contributes only its own atom range, and only when some argument names it |
| StatsBuiltins.ResidueMatched | src/stats/stats.cpp:154-160 | a residue named by some argument contributes its atom range |
| StatsBuiltins.MatchResiduesMembers | src/stats/stats.cpp:152-162 | a structure is matched exactly when it is the atom range of a residue whose name is among the arguments |
| StatsBuiltins.MatchResiduesSound | src/stats/stats.cpp:152-162 | every matched structure is the range of a residue named by an argument |
| StatsBuiltins.MatchResiduesComplete | src/stats/stats.cpp:152-162 | every residue named by an argument has its range matched |
| StatsBuiltins.MatchResiduesCount | src/stats/stats.cpp:152-162 | the number of matches is the number of (residue, equal argument) pairs |
| StatsHistogram.Truncate | src/stats/stats.cpp:250 | the C cast of a float rounds toward zero |
| StatsHistogram.ToInt32 | src/stats/stats.cpp:250 | `(int32)x` is the truncated value when it fits, and always an `int32` |
| StatsHistogram.BinIndex | src/stats/stats.cpp:248-250 | the clamped bin index is always a valid bin |
| StatsHistogram.CoordinateScaled | src/stats/stats.cpp:248-250 | the bin coordinate measures `v - min_val` in units of the bin width |
| StatsHistogram.BinOfSampleInRange | src/stats/stats.cpp:248-251 | a sample in the `b`-th of `num_bins` equal parts of the range lands in bin `b` |
| StatsHistogram.BinOfSampleOutside | src/stats/stats.cpp:248-251 | samples below the range go to bin 0; samples at or above its end go to the last bin while the coordinate fits an `int32` |
| StatsHistogram.Tally | src/stats/stats.cpp:245-252 | the binning pass yields exactly `num_bins` bins |
| StatsHistogram.TallyTotal | src/stats/stats.cpp:249-252 | every sample increments exactly one bin, so the bins add up to the number of samples |
| StatsHistogram.SumZeros | src/stats/stats.cpp:245-246 | zeroed bins add up to zero |
| StatsHistogram.RangeOfSamples | src/stats/stats.cpp:232-237 | the automatic range bounds every sample, and for samples within the float range both bounds are samples |
| StatsHistogram.Histogram.constructor | src/stats/stats.h:29-34 | a default histogram has no bins and zero ranges and count |
| StatsHistogram.Histogram.ComputeInRange | src/stats/stats.cpp:241-253 | the bins become the tally of the samples over the given range; ranges and sample count are untouched |
| StatsHistogram.Histogram.Compute | src/stats/stats.cpp:229-239 | no samples leaves the histogram unchanged; otherwise the bins are the tally over the samples' own minimum and maximum |
| StatsHistogram.HistogramOf | src/stats/stats.cpp:217-221 | a fresh histogram binned over the samples' own range, with no bins when there are no samples |
| StatsHistogram.HistogramInRange | src/stats/stats.cpp:223-227 | a fresh histogram binned over the given range |
| StatsSpec.InstancesFor | src/stats/stats.cpp:279-293 | one instance per match, in match order, each owned by the group and holding its match |
| StatsSpec.ResolveGroups | src/stats/stats.cpp:267-295 | the pass keeps every group's id, command, name and arguments |
| StatsSpec.ResolveGroupsStep | src/stats/stats.cpp:267-295 | the pass over one more group appends that group's resolution |
| StatsSpec.ResolveGroupsPointwise | src/stats/stats.cpp:267-295 | each group ends up as resolving it on its own would leave it |
| StatsSpec.ResolveGroupsKeepCommands | src/stats/stats.cpp:267-295 | every resolved group still names a registered command |
| StatsSpec.ResolveGroupTwice | src/stats/stats.cpp:268-294 | a group left by one resolution is left alone by the next |
| StatsSpec.ResolveGroupsIdempotent | src/stats/stats.cpp:267-295 | a second pass changes no group and creates no instance |
| StatsSpec.ResolveGroupCovers | src/stats/stats.cpp:279-293 | a resolved group's count is covered by the instances recorded under its id |
| StatsSpec.ResolveGroupsCovers | src/stats/stats.cpp:267-295 | the pass keeps every group's instance count covered by its recorded instances |
| StatsSpec.FreshInstancesInOrder | src/stats/stats.cpp:464-473 | for a group without earlier instances, the ordinal lookup finds exactly the instances just created, in match order |
| StatsSpec.ColumnShareIsMean | src/stats/stats.cpp:337-339 | adding `data[j] / instance_count` for every instance gives the column sum divided by the count |
| StatsSpec.InstanceSeries | src/stats/stats.cpp:331-335 | every instance's series is `num_frames` long |
| StatsSpec.BoundGroup | src/stats/stats.cpp:299-316 | a property is computed only against a group that exists in the table |
| StatsSpec.PropertySeries | src/stats/stats.cpp:331-335 | one series per loop iteration, each `num_frames` long |
| StatsSpec.InstanceEntries | src/stats/stats.cpp:341-349 | one data entry per instance series so far |
| StatsSpec.InstanceEntriesAt | src/stats/stats.cpp:341-349 | the `l`-th entry is the one built for instance `l` |
| StatsSpec.PropertySeriesAt | src/stats/stats.cpp:331-335 | the `i`-th series is what the command writes for the atom range of the `i`-th instance, zero-padded |
| StatsSpec.EvaluateProperty | src/stats/stats.cpp:298-361 | evaluating a property keeps its id, command, name and arguments |
| StatsSpec.SkippedPropertyUnchanged | src/stats/stats.cpp:299-316 | a property that is computed already, or is `INTER`, or has no arguments, or names no group, is left as it is and gets no data |
| StatsSpec.ComputedPropertyIsSkipped | src/stats/stats.cpp:299 | a property with `data_beg_id` set is never computed again |
| StatsSpec.EvaluatedPropertyLayout | src/stats/stats.cpp:318-355 | a computed property gets one averaged series, then one series per instance, all `num_frames` long and owned by the property; `data_avg_id` names the average, and with instances `data_count` is their number and `data_beg_id` names the first series |
| StatsSpec.EvaluatedPropertyInstances | src/stats/stats.cpp:331-349 | the `i`-th series belongs to the `i`-th instance of the group and holds that instance's values |
| StatsSpec.EvaluatedPropertyAverage | src/stats/stats.cpp:326-339 | at every frame the averaged series is the mean of the instance series |
| StatsSpec.EmptyGroupAveragedAgain | src/stats/stats.cpp:318-355 | a property bound to a group without instances gets an averaged series but keeps `data_beg_id` unset, so the next pass adds another |
| StatsSpec.EvaluatePropertiesStep | src/stats/stats.cpp:298-362 | the pass over one more property appends that property's evaluation |
| StatsSpec.EvaluateProperties | src/stats/stats.cpp:298-362 | the property pass keeps one record per property |
| Stats.NameLookupFindsGroup | src/stats/stats.cpp:446-451 | in a table whose ids are the distinct hashes of the names, looking a group up by name gives its own id |
| Stats.RemovalKeepsTables | src/stats/stats.cpp:433-444 | removing a group keeps the table invariants, forgets the removed id and keeps every other group |
| Stats.CreationKeepsTables | src/stats/stats.cpp:420-428 | appending a fresh unresolved group keeps the table invariants |
| Stats.CreatedGroupFound | src/stats/stats.cpp:420-430 | a group appended under a fresh hashed id is found by its name |
| Stats.ResolutionStep | src/stats/stats.cpp:267-295 | resolving one more group in place extends the resolved prefix and leaves the rest as it was |
| Stats.EvaluationStep | src/stats/stats.cpp:298-362 | evaluating one more property in place extends the evaluated prefix and leaves the rest as it was |
| Stats.ResolutionKeepsTables | src/stats/stats.cpp:267-295 | a resolution pass keeps every table invariant |
| Stats.AccumulateShares | src/stats/stats.cpp:337-339 | adding `data[j] / instance_count` into the average buffer gives the shares of one more series |
| Stats.StatisticsContext.constructor | src/stats/stats.cpp:64-76 | the static context starts with every table empty |
| Stats.StatisticsContext.Initialize | src/stats/stats.cpp:164-172 | appends `dist`, `bond`, `angle`, `dihedral` and `resname` without checking for duplicates; nothing else changes |
| Stats.StatisticsContext.RegisterPropertyCommand | src/stats/stats.cpp:367-377 | a keyword whose id is registered leaves the list unchanged; otherwise exactly one command with that id is appended |
| Stats.StatisticsContext.RegisterGroupCommand | src/stats/stats.cpp:379-388 | the same duplicate rule for group commands |
| Stats.StatisticsContext.CreateGroup | src/stats/stats.cpp:390-431 | a taken name, an empty command line or an unknown command gives INVALID_ID and no change; otherwise it appends one unresolved group (count 0, `instance_beg_id` invalid) with the arguments after the command and returns `COMPUTE_ID(name)` |
| Stats.StatisticsContext.CreateProperty | src/stats/stats.cpp:495-535 | the same three refusals give INVALID_ID; otherwise it returns `COMPUTE_ID(name)`, but in every case the context is unchanged, since the property is never stored |
| Stats.StatisticsContext.RemoveGroup | src/stats/stats.cpp:433-444 | an unknown id is a no-op; otherwise the group is removed and the others keep their order; its id no longer names a group, and its instances stay |
| Stats.StatisticsContext.GroupAt | src/stats/stats.cpp:453-458 | `get_group(idx)` is the id at that index, or INVALID_ID past the end |
| Stats.StatisticsContext.GroupLookupsAgree | src/stats/stats.cpp:446-458 | the two forms of `get_group` agree, and `find_id` locates the id at the same index |
| Stats.StatisticsContext.GetGroupInstance | src/stats/stats.cpp:464-473 | the id of the `idx`-th instance of the group in insertion order, or INVALID_ID when there are fewer |
| Stats.StatisticsContext.ComputeStats | src/stats/stats.cpp:255-365 | without a molecule or trajectory it returns false and changes nothing; otherwise groups and instances become `ResolveGroups` of the old tables, and properties and data become `EvaluateProperties` against the resolved tables |
| Stats.StatisticsContext.ResolveAllGroups | src/stats/stats.cpp:266-295 | the group loop leaves the tables `ResolveGroups` describes and keeps the invariants |
| Stats.StatisticsContext.ResolveGroupsInPlace | src/stats/stats.cpp:267-295 | the group loop in place gives the groups and appended instances of `ResolveGroups` |
| Stats.StatisticsContext.ResolveGroupAt | src/stats/stats.cpp:268-294 | one iteration replaces the group by its resolution and appends its instances |
| Stats.StatisticsContext.EvaluateAllProperties | src/stats/stats.cpp:297-362 | the property loop leaves the properties and appended data of `EvaluateProperties` |
| Stats.StatisticsContext.EvaluatePropertyAt | src/stats/stats.cpp:299-361 | one iteration replaces the property by its evaluation and appends its data |
| Stats.StatisticsContext.ComputeBoundProperty | src/stats/stats.cpp:318-355 | the computing branch appends the averaged series and then the per-instance series, and records their ids and count in the property |
| Stats.StatisticsContext.InstanceSeriesLoop | src/stats/stats.cpp:331-355 | the instance loop yields the averaged series and the per-instance entries in instance order |
| Stats.StatisticsContext.InstanceSeriesAt | src/stats/stats.cpp:332-335 | the instance id comes from `get_group_instance`, and the buffer is what the callback writes for that instance's atom range |
| Loader.LookupRow | src/loader.cpp:130-135 | the first row whose extension is equal; None exactly when no row has it |
| Loader.SupportedExtensionCount | src/loader.cpp:116-118 | the table size, and every listed index has a non-empty extension |
| Loader.SupportedExtensionStr | src/loader.cpp:120-125 | the extension of row `idx`, and empty exactly outside `[0, 8)` |
| Loader.MoleculeLoaderFromExt | src/loader.cpp:129-136 | the molecule loader of the row with that extension, or none for an unknown extension |
| Loader.TrajectoryLoaderFromExt | src/loader.cpp:142-149 | the trajectory loader of the row with that extension, or none for an unknown extension |
| Loader.TableDistinct | src/loader.cpp:105-114 | no two rows share an extension |
| Loader.ListedExtensionsResolve | src/loader.cpp:120-149 | each listed extension resolves to its own row in both roles |
| Loader.SingleRoleExtensions | src/loader.cpp:105-114 | `gro` and `cif` have no trajectory loader, while `xtc` and `trr` have no molecule loader |
| Loader.DecodeEncode | src/loader.cpp:158-168 | little-endian bytes of a number that fits decode back to it |
| Loader.EncodeDecode | src/loader.cpp:158-168 | re-encoding decoded bytes gives the same bytes |
| Loader.Int64Bytes | src/loader.cpp:158 | an `int64_t` store writes eight bytes |
| Loader.ReadInt64 | src/loader.cpp:168 | eight bytes read as an `int64_t` give a value in the 64-bit range |
| Loader.Int64RoundTrip | src/loader.cpp:158-168 | reading back the stored frame index gives the same index, and conversely |
| Loader.FetchFrameData | src/loader.cpp:156-161 | always reports 8 bytes, and writes them exactly when given a buffer; they read back as the frame index |
| Loader.CacheBytes | src/loader.cpp:280 | the cache budget is the configured size clamped to `[4 MiB, RAM/4]`, the upper bound winning: the configured size when it lies in that range, 4 MiB when it is below and 4 MiB fits, RAM/4 when it is above, and RAM/4 whenever RAM/4 is under 4 MiB |
| Loader.CacheFramesFor | src/loader.cpp:279-284 | the cache frame count is at most the trajectory's frames, fits the budget, and is the largest count that does |
| Loader.FramesThatFit | src/loader.cpp:282-284 | the most units up to `cap` that fit the total |
| Loader.IndexOf | src/loader.cpp:45-50 | the first position of the key; None exactly when the key is absent |
| Loader.Find | src/loader.cpp:68-73 | the linear scan over the first `n` slots finds the first slot with the key |
| Loader.AppendKeys | src/loader.cpp:55 | writing an entry just past the prefix extends its keys, and they stay distinct |
| Loader.SwapRemoveKeys | src/loader.cpp:90 | moving the last entry into slot `i` and dropping it removes exactly the key of slot `i` |
| Loader.LoaderRegistry.constructor | src/loader.cpp:39-43 | both tables start zeroed and empty |
| Loader.LoaderRegistry.FindMolecule | src/loader.cpp:45-50 | the slot of the first registered molecule with the key, or none exactly when it is absent |
| Loader.LoaderRegistry.AddMolecule | src/loader.cpp:52-56 | an absent key below capacity is written at index `count`, and the count grows by one |
| Loader.LoaderRegistry.RemoveMolecule | src/loader.cpp:58-66 | the last entry is swapped into the removed slot and the count drops; the key becomes absent and every other key stays |
| Loader.LoaderRegistry.FindTrajectory | src/loader.cpp:68-73 | the slot of the first registered trajectory with the key, or none exactly when it is absent |
| Loader.LoaderRegistry.AllocTrajectory | src/loader.cpp:75-82 | claims slot `count`, cleared apart from its key, and increments the count |
| Loader.LoaderRegistry.RemoveTrajectory | src/loader.cpp:84-95 | frees the cache and destroys the decoder, then swaps the last entry in; the key becomes absent, every other key stays, and no `inst` is updated |
| Loader.LoaderRegistry.Processed | src/loader.cpp:192-218 | post-processing keeps the header, and is the identity without recenter target and without deperiodizing a frame with a cell |
| Loader.LoaderRegistry.DecodeEffect | src/loader.cpp:163-237 | a decode changes only the trajectory's cache |
| Loader.LoaderRegistry.DecodeFrameData | src/loader.cpp:163-237 | on any `inst` slot of the table, registered or not, reads the index from the raw data; the slot, the call log and the outputs become what `DecodeEffect` says; requested outputs are written only on success |
| Loader.LoaderRegistry.DecodeSteps | src/loader.cpp:171-236 | the step-by-step decode computes `DecodeEffect` |
| Loader.LoaderRegistry.LoadFrame | src/loader.cpp:239-242 | `load_frame` on an `inst` slot decodes frame `idx` as `DecodeEffect` says for the forwarded index |
| Loader.LoaderRegistry.LoadFrameByKey | src/loader.cpp:239-242 | decoding a handle's frame through the entry registered under that handle, found by key: the decoded entry carries the handle's key, and an unregistered handle gives false with nothing changed |
| Loader.StaleInstScenario | src/loader.cpp:84-95 | after opening A and B and closing A, B is registered alone in slot 0 while its captured `inst` is still slot 1 |
| Loader.StaleInstAfterRemoval | src/loader.cpp:84-95 | after removing a non-last trajectory the moved one is found by key in the freed slot, while its captured `inst` slot keeps a stale copy that the next allocation hands to another key |
| Loader.LoaderRegistry.DecodeHit | src/loader.cpp:174-175 | on a hit there is no fetch and no decode, the slot is unchanged and the cached frame is read |
| Loader.LoaderRegistry.DecodeMiss | src/loader.cpp:175-222 | on a miss there is exactly one decode, the new frame is stored in the cache and the result is the decoder's |
| Loader.LoaderRegistry.DecodePostProcessing | src/loader.cpp:182-219 | recentering happens exactly after a successful decode of a missed frame with a non-empty target, and deperiodizing exactly then with the flag set and a unit cell |
| Loader.LoaderRegistry.DecodeReleasesLock | src/loader.cpp:232-234 | the lock is released exactly when one was handed out, as the last call |
| Loader.LoaderRegistry.OpenFile | src/loader.cpp:244-298 | no loader, a failed `create` or an atom-count mismatch returns none with the tables unchanged, and the mismatch also destroys the decoder; otherwise a new slot with the sized cache is registered under the handle, and the handle's `inst` captures that slot |
| Loader.LoaderRegistry.Close | src/loader.cpp:300-312 | succeeds exactly for a registered handle, which is then removed as `remove_loaded_trajectory` does and loses its `inst`; an unknown handle changes nothing |
| Loader.LoaderRegistry.SetRecenterTarget | src/loader.cpp:314-329 | for a registered handle the target becomes the mask, or empty without one, and cached frames stay; otherwise false and nothing changes |
| Loader.LoaderRegistry.ClearCache | src/loader.cpp:331-341 | for a registered handle every resident frame is dropped; otherwise false and nothing changes |
| Loader.LoaderRegistry.NumCacheFrames | src/loader.cpp:343-352 | the frame count the cache was created with, or 0 for an unregistered handle |
| MoleculeUtils.ComputeBoundingBox | src/mol/molecule_utils.cpp:14-27 | every position lies between the bounds componentwise, and for non-empty positions each bound coordinate is attained; no positions give the zero box |
| MoleculeUtils.BoxReadsAsWritten | src/mol/molecule_utils.cpp:18-23 | as written, the function reads `positions.data[0]` even when there are no positions |
| MoleculeUtils.EmptyBoxReadsPastEnd | src/mol/molecule_utils.cpp:18-22 | with no positions, that first read is out of bounds |
| MoleculeUtils.BoxReads | src/mol/molecule_utils.cpp:18-23 | with the early return every read is in bounds, and none happens without positions |
| MoleculeUtils.FilterMembers | src/mol/molecule_utils.cpp:69-81 | a pair is kept exactly when it is tested and passes the bond test |
| MoleculeUtils.RowMembers | src/mol/molecule_utils.cpp:88-90 | a row tests exactly the pairs `(i, j)` with `j` in its range |
| MoleculeUtils.GridMembers | src/mol/molecule_utils.cpp:105-109 | a grid tests exactly the pairs in the product of its two ranges |
| MoleculeUtils.TriangleMembers | src/mol/molecule_utils.cpp:87-91 | a triangle tests exactly the pairs `i < j` in its range |
| MoleculeUtils.WithinMembers | src/mol/molecule_utils.cpp:85-92 | inside a residue every pair `i < j` of its atoms is tested, and no other |
| MoleculeUtils.AcrossMembers | src/mol/molecule_utils.cpp:98-110 | between consecutive residues every pair of an atom of the first and an atom of the second is tested |
| MoleculeUtils.NoResiduePairs | src/mol/molecule_utils.cpp:111-120 | without residues, exactly the pairs with `0 <= i < n-1` and `1 <= j < n` are tested, which includes `i == j` and both orders |
| MoleculeUtils.TestRow | src/mol/molecule_utils.cpp:88-90 | appends the passing pairs of the row, in order |
| MoleculeUtils.TestGrid | src/mol/molecule_utils.cpp:105-109 | appends the passing pairs of the grid, in order |
| MoleculeUtils.TestTriangle | src/mol/molecule_utils.cpp:87-91 | appends the passing pairs of the triangle, in order |
| MoleculeUtils.ComputeAtomicBonds | src/mol/molecule_utils.cpp:64-123 | the bonds are the candidate pairs that pass the test, in test order |
| MoleculeUtils.TestWithinResidues | src/mol/molecule_utils.cpp:85-92 | the first residue loop keeps the passing pairs inside each residue |
| MoleculeUtils.TestAcrossResidues | src/mol/molecule_utils.cpp:98-110 | the second residue loop appends the passing pairs across consecutive residues |
| MoleculeUtils.BondsAreTestedPairs | src/mol/molecule_utils.cpp:69-81 | every bond is a tested pair that passes the test, and every passing tested pair is a bond |
| MoleculeUtils.ResidueBondsMembers | src/mol/molecule_utils.cpp:147-152 | a residue bond comes from an atom bond between two different residues, and every such atom bond gives one |
| MoleculeUtils.CollectResidueBonds | src/mol/molecule_utils.cpp:145-155 | the residue bonds of the atom bonds, none without an atom-to-residue map, and none joining a residue to itself |
| MoleculeUtils.LabelResidues | src/mol/molecule_utils.cpp:157-170 | the labels and the chain count are those of the reference pass `LabelPass`, and every label lies in `[0, number of chains)` |
| MoleculeUtils.BondLoop | src/mol/molecule_utils.cpp:163-169 | the inner loop leaves the labels and the shared bond cursor as `BondRun` says: bonds are applied while their first residue is `i`, skipped while it is below `i`, and the loop stops at the first bond of a later residue |
| MoleculeUtils.BondRunLinks | src/mol/molecule_utils.cpp:163-169 | the inner loop keeps residue `i`'s label, gives every bond it applies from `i` the label of `i` at its second residue, and changes no label to anything else |
| MoleculeUtils.LabelPassBounds | src/mol/molecule_utils.cpp:157-170 | after `i` residues at most `i` labels are handed out, every label is `-1` or below the next one, and the first `i` residues are labelled |
| MoleculeUtils.UnbondedResidues | src/mol/molecule_utils.cpp:157-184 | with no residue bonds residue `j` gets label `j`, so every residue is a chain of its own named `C<j>` |
| MoleculeUtils.StrandResidues | src/mol/molecule_utils.cpp:157-184 | with the bonds `(k, k+1)` in order every residue gets label 0, so all residues form the single chain `C0` |
| MoleculeUtils.PartitionLength | src/mol/molecule_utils.cpp:172-184 | the chains of a partition of `n` residues hold `n` residues between them |
| MoleculeUtils.Runs | src/mol/molecule_utils.cpp:172-184 | any residue gives at least one chain |
| MoleculeUtils.LastRun | src/mol/molecule_utils.cpp:174-182 | the last chain so far ends at the current residue and carries its label |
| MoleculeUtils.RunsPartition | src/mol/molecule_utils.cpp:172-184 | the chains are non-empty, consecutive, start at residue 0 and end at the residue count |
| MoleculeUtils.RunsConstant | src/mol/molecule_utils.cpp:172-184 | every residue of a chain carries the chain's label |
| MoleculeUtils.RunsDistinct | src/mol/molecule_utils.cpp:172-184 | adjacent chains carry different labels |
| MoleculeUtils.RunsLabelled | src/mol/molecule_utils.cpp:178 | each chain is named `C<index>` after its label |
| MoleculeUtils.RunsAreConstant | src/mol/molecule_utils.cpp:172-184 | each chain of all the residues is a run of one label |
| MoleculeUtils.RunsAreMaximal | src/mol/molecule_utils.cpp:172-184 | adjacent chains differ in label, so no run is split |
| MoleculeUtils.RunsAreNamed | src/mol/molecule_utils.cpp:177-179 | each chain is named after its label |
| MoleculeUtils.SplitChains | src/mol/molecule_utils.cpp:172-184 | the chains are `Runs` of the labels: a partition into maximal runs of equal labels, named after them |
| MoleculeUtils.ComputeChains | src/mol/molecule_utils.cpp:143-185 | returns the residue labels too: they are `LabelPass` of the residue bonds, one label in `[0, residues.count)` per residue, and the chains are `Runs` of them, partitioning the residues into maximal runs of one label, each named `C<label>` |
| MoleculeUtils.ComputeAtomRadiiInto | src/mol/molecule_utils.cpp:203-208 | for a destination no longer than the elements, every slot becomes the vdW radius of its element |
| MoleculeUtils.ComputeAtomRadii | src/mol/molecule_utils.cpp:197-201 | a fresh array with one vdW radius per element |
| MoleculeUtils.ComputeAtomColorsCpkInto | src/mol/molecule_utils.cpp:216-226 | with the CPK mapping, every destination slot becomes the colour of its atom's element |
| MoleculeUtils.ComputeAtomColorsCpk | src/mol/molecule_utils.cpp:210-214 | a fresh array with one CPK colour per atom |

## Left out

- Floating point: floats are reals. `math::distance`, `math::angle`, `dihedral_angle`, the centre of mass, the box translation and `md_util_deperiodize_system` are opaque functions. NaN, infinities and rounding are not modelled, except the x86 `INT32_MIN` result of an out-of-range float-to-`int32` conversion.
- `COMPUTE_ID`: crc64 is an uninterpreted function. Distinct group ids are a table invariant, established because `create_group` refuses an id that is already present.
- Frame cache internals: a cache is a map from frame index to frame. The caller supplies whether a lock is handed out and which frames are evicted to reserve a slot. `DecodeFrameData` and `LoadFrame` require that the frame being reserved is not among the evicted ones, and that the `inst` slot has a decoder and a molecule: a slot that never held a trajectory is zeroed, and the source would dereference its null `traj`. Thread safety and lock contention are not modelled.
- Per-format decoders (pdb, gro, xtc, trr, xyz, cif): `create`, `fetch_frame_data` and `decode_frame_data` are calls recorded in the log. Their results are parameters.
- `open_file` does not log its calls to `md_frame_cache_init` and `md_bitfield_init`. The registered slot records the cache size and an empty target instead. Of the `traj->...` setup only `traj->inst` is modelled, as the registry's `inst` map from handle to captured slot; the function pointers are left out.
- `get_header` (src/loader.cpp:151-154) only forwards to the decoder, so it is not modelled.
- `extract_ext` is a function of the registry. str_equal is string equality, and `CLAMP`/`MIN` are written out.
- Debug `ASSERT`s: the release behaviour is modelled. `add_loaded_molecule` and `alloc_loaded_trajectory` require an absent key and a free slot. `remove_loaded_*` of an absent key falls through and changes nothing. `OpenFile` requires a fresh handle when it reaches allocation. `DecodeFrameData` requires eight bytes of data (line 166) and an index in `[0, num_frames)` of the slot's decoder (line 169).
- `LoaderRegistry.OpenFile`: the pointer identities of `mol`, `alloc` and the `md_trajectory_i` returned are plain numbers. The handle is given as a parameter rather than allocated.
- `Loader.LoaderRegistry.OpenFile`: it requires a non-zero frame size when it reaches allocation. A molecule of zero atoms with a trajectory of zero atoms passes the atom-count check, and then `frame_cache_size / approx_frame_size` (src/loader.cpp:281-282) divides by zero. No `ASSERT` guards this, so release builds divide by zero too; the model does not cover that input.
- `memset(traj, 0, ...)` in `close` zeroes the caller's interface. The model keeps its effect on `traj->inst`, which `Close` drops from `inst`. The function pointers it also clears are not modelled.
- `md_alloc`/`md_free` of temporary buffers are not modelled.
- The `count > 0` test after a non-empty bitfield in `decode_frame_data` always holds: a recenter target is a set, and a non-empty set has positive popcount.
- The string arena of the statistics engine (`alloc_string`/`free_string`, src/stats/stats.cpp:200-214) is memory bookkeeping. Names are stored by value.
- `remove_property` (src/stats/stats.cpp:537-552) erases while iterating, which is memory-unsafe, so it is not modelled.
- `clear`, `shutdown`, `get_group_count`, `get_group_instance_count`, `get_property` and the `get_property_data*` accessors (src/stats/stats.cpp:174-190, 460-493, 554-586) read or clear the same tables. They are not part of this model.
- The `INTER` branch of the property loop (src/stats/stats.cpp:357-359) is empty. Such a property is skipped and keeps no data.
- `ctokenize` is not part of the source shown. It is modelled as splitting on the space character into maximal non-empty runs.
- `compare` is not part of the source shown. `StatsTypes.GroupIndexByName`, `StatsTypes.GetGroupByName`, `StatsBuiltins.ResidueMatches` and `StatsBuiltins.MatchByResname` (with the `ResidueMatches*` and `MatchResidues*` lemmas) take it to be full string equality, lengths included. `free_string` checks the lengths before calling it, so `compare` may compare only a common prefix; the model does not capture that.
- `to_int32` is not part of the source shown. `Text.ParseInt32`, and through it `StatsBuiltins.ComputeAtomicDistance`, `ComputeAtomicAngle` and `ComputeAtomicDihedral`, assume it accepts exactly an optional '-' followed by decimal digits, the whole token, with a value in the 32-bit range.
- `StatsBuiltins.AtomOf`: `beg_atom_idx + offset` is an `int32` sum in the source (src/stats/stats.cpp:86-87, 108-110, 134-137), where overflow is undefined behaviour. The model adds unbounded integers.
- Logging: the `printf` diagnostics of the statistics engine and the `MD_LOG_ERROR`/`MD_LOG_DEBUG` messages of the loader produce no state, so they are not modelled. The warning at src/stats/stats.cpp:275 passes no argument for its `%s`, so it reads an undefined argument; the model has no output to show this.
- `DynamicArray::remove` is not part of the source shown. It is assumed to keep the order of the remaining groups.
- `Stats.StatisticsContext.GroupAt`: it requires `idx >= 0`. With a negative index the source reads before the start of the array.
- `Stats.StatisticsContext.RemoveGroup`: the removed group's instances stay in the instance table, as in the source. They can be found again if a group with the same id is created later.
- `Stats.StatisticsContext.CreateGroup`: `tokens[0]` of a command line made only of spaces is read past the end in the source. The model takes the command to be "" and looks up `COMPUTE_ID("")` like any other command.
- `StatsHistogram.Histogram.ComputeInRange`: `val_range`, `bin_range` and `num_samples` are not written by the source either, so the model keeps them unchanged.
- `StatsBuiltins.ComputeAtomicDihedral`: the source reads the fourth atom from `args[2]`. This is modelled as written.
- `StatsBuiltins.PositionAt`: outside the frame buffer the source reads arbitrary memory, and the model reads the origin. The built-in commands are modelled as functions of their inputs, because each output element depends only on its frame.
- `Stats.StatisticsContext.ComputeStats`: the result of a property callback is ignored, as in the source. A failing callback leaves its zeroed buffer in the series.
- `Stats.StatisticsContext.CreateProperty`: the property is never pushed, as in the source. Only the returned id is modelled.
- The `Label::MAX_LENGTH` truncation of chain names in `compute_chains` is not modelled. `C<index>` always fits.
- `snprintf` of the 64-byte name buffers: instance ids and property-data ids (the average and each per-instance series) hash the first 63 characters of the formatted name (`Text.Bounded` in `InstanceName` and `SeriesName`), as the source does. Group, property and command ids hash the full name.
- `MoleculeUtils.LabelResidues`: it requires every residue bond's second residue index to be a residue. `compute_chains` gets this from valid atom-to-residue indices.
- `transform_positions`, `linear_interpolation`, `linear_interpolation_periodic` and compute_atom_colors with the RES_ID, RES_INDEX, CHAIN_ID and other non-CPK mappings are outside this model.
- The `draw` namespace (src/mol/molecule_utils.cpp, from line 285) is GPU code, so it is not modelled.
- `Loader.StaleInstAfterRemoval`: the struct copy that `remove_loaded_trajectory` makes (src/loader.cpp:90) is modelled as an independent value. The frame cache and the recenter bitfield hold allocator-owned storage behind pointers, which both copies may share; what a clear or a target change through one copy does to the other is not captured.
- `MoleculeUtils.ComputeAtomColorsCpkInto`: it requires the destination to be no longer than the element array. The source states no such check for the colour function (only the radii function asserts its length, at src/mol/molecule_utils.cpp:204); its caller here passes an array of the atom count.
- `compute_chains` with no atom-to-residue map asserts in the source, so the model collects no residue bonds in that case.

## Findings

| source | as written | input that shows it | evidently intended | confidence | as-written member | corrected member |
|---|---|---|---|---|---|---|
| src/mol/molecule_utils.cpp:18-22 | with no positions the zero box is stored, but the function does not return; it goes on to read `positions.data[0]` | an empty `positions` array | return right after storing the zero box | high; not executed | MoleculeUtils.EmptyBoxReadsPastEnd | MoleculeUtils.ComputeBoundingBox |
| src/loader.cpp:84-95 | `remove_loaded_trajectory` moves the last entry into the freed slot, but the moved trajectory's `traj->inst`, captured at open (line 291), still points at the old last slot; `decode_frame_data` and `load_frame` reach their entry only through that pointer | open A, open B, close A: B is registered in slot 0 but decodes through the stale copy in slot 1; a following open C clears slot 1 and fills it with C, so B's frames are decoded with C's decoder, cache and molecule | a trajectory's frames come from its own registered entry | high; not executed | Loader.StaleInstAfterRemoval | Loader.LoaderRegistry.LoadFrameByKey |
