# spike_interface helpers, modelled in Dafny

This project models the helpers that `nwb_conversion_tools/utils/spike_interface.py` uses to
copy a SpikeInterface recording into an NWB file (Neurodata Without Borders). They work on a
container that may already hold part of the data. They add devices, electrode groups,
electrode-table columns and rows, one electrical series and epochs, and they skip whatever is
already there.

The two sides are modelled differently:

- The recording is a value (`Recordings.Recording`). It holds:
  - the channel ids, the per-channel groups and the per-channel property maps;
  - the gains and offsets;
  - the epochs, with integer start and end frames;
  - the frame count, the item size, and whether the traces are memory-mapped.
- The NWB file is an object (`NwbFiles.NwbFile`). Its methods update it in place:
  - devices: a name map plus the creation order;
  - electrode groups: a name map;
  - the electrode table (`Tables.DynamicTable`: row ids and named columns);
  - processing modules and acquisition;
  - the epoch table.

The metadata dictionary is also an object (`Metadata.MetadataDict`), because the helpers
write into it. They add missing sections, and they pop the `name` key out of the electrode
column entries.

Each loop of the source is a `while` loop in a method. The method is proved against a
specification function, and lemmas state what the source promises about that function:

| loop | specification function |
|---|---|
| `add_devices` | `Devices.CreateMissing` |
| the entry loop of `add_electrode_groups` | `Groups.CreateGroups` |
| the whole of `add_electrode_groups` | `Groups.GroupsAfter` |
| the fill loop of `add_electrodes` | `Recordings.FillAsWritten` |
| the merge loop of `add_electrodes` | `Electrodes.Merge` |
| `add_epochs` | `Epochs.UpsertAll` |

For the row loop of `add_electrodes`, the predicates `Rows.RowsFor`, `Rows.RowsAppended` and
`Rows.Visited` play that role. Python exceptions become `Values.Outcome` and `Values.Result`
values. A failed `assert` becomes `AssertionError(check)`, where `check` names the assertion.

The model follows the code as written, under the assumptions about the libraries it calls
that "## Left out" names. It includes these quirks:

- **The group column is never named.** `x.pop('name')` at line 378 removes the names from
  the metadata's column entries. So the `any(...)` test at line 437 always finds no
  `group_name` entry, and the recording's own channel group always decides which group a row
  is linked to (`Electrodes.PoppedNamesGone`, `NwbFiles.NwbFile.AddElectrodeRow`).
- **The auto-device path always fails.** When a group entry names a missing device,
  `add_electrode_groups` passes `add_devices` a `Device` that is a dict, not a list (lines
  239-246). The loop at line 174 then iterates over the dict's keys, which are strings with no
  `get`. So this path raises AttributeError and creates no device (`NwbFiles.NwbFile.AutoDevice`,
  `Groups.MissingDeviceRaises`).
- **The property fill drops leading gaps.** It appends nothing while the column is still
  empty (lines 369-372). A property missing on the first channels therefore gives a column
  shorter than the channel list (`Recordings.FillAsWrittenShort`). The row loop's
  `desc['data'][j]` then raises IndexError (`Electrodes.RowValues`).
- **The first epoch stops one frame early.** The first epoch written into a file without an
  epoch table stops at `end_frame - 1`; every later one stops at `end_frame` (lines 679, 686,
  690; `Epochs.FirstEpochStopsEarly`).
- **The ValueError at lines 387-389 cannot be raised.** The assertion at line 342 requires
  every column entry to have `data`, and every property column has data. So every merged
  column has data (`Electrodes.MergeHasData`), and the model has no such branch.

## Model

| member | source | states |
|---|---|---|
| Values.ListGet | nwb_conversion_tools/utils/spike_interface.py:20-25 | an index in range, including a negative one down to `-len`, yields that element, counting from the end when negative; any other index yields the default |
| Values.IndexOf | nwb_conversion_tools/utils/spike_interface.py:43 | `list.index` gives the position of the first occurrence of an element of the list |
| Values.IndexOfPrefix | nwb_conversion_tools/utils/spike_interface.py:683-684 | appending to a list does not move the first occurrence of an element already in it |
| Values.ParseIntToString | nwb_conversion_tools/utils/spike_interface.py:221 | `str` of an integer can be read back to the same integer, negative ones included |
| Values.IntToStringInjective | nwb_conversion_tools/utils/spike_interface.py:219-227 | distinct channel groups get distinct group names |
| Values.Unique | nwb_conversion_tools/utils/spike_interface.py:121 | `np.unique` is strictly increasing and holds exactly the elements of its input |
| Values.UniqueNonEmpty | nwb_conversion_tools/utils/spike_interface.py:224-236 | a recording with channels has at least one distinct group, so `defaults[0]` exists |
| Recordings.NoColumnNamedGroup | nwb_conversion_tools/utils/spike_interface.py:373-374 | after the renaming of `brain_area` and `group`, no property yields a column called `group` |
| Recordings.FillAsWrittenShape | nwb_conversion_tools/utils/spike_interface.py:364-372 | the filled column starts at the first channel that has the property. Channels with the property contribute their value, in order; channels without it contribute `""` when the entry before is a string and NaN otherwise |
| Recordings.FillAsWrittenAligned | nwb_conversion_tools/utils/spike_interface.py:364-372 | when the first channel has the property, the column has one entry per channel and each channel's own value sits at its index |
| Recordings.FillAsWrittenShort | nwb_conversion_tools/utils/spike_interface.py:369-372 | when the first channel lacks the property, the column is shorter than the channel list |
| Metadata.GroupDefaultsNames | nwb_conversion_tools/utils/spike_interface.py:219-227 | the default group entries are one per distinct channel group, all linked to the given device, and a name appears exactly when it is `str` of some channel group |
| Metadata.GetNwbMetadata | nwb_conversion_tools/utils/spike_interface.py:92-125 | the metadata lists the single device `Device` ("no description") and one group entry per distinct channel group, linked to `Device`; a group name is listed exactly when it is some channel's group |
| Devices.CreateMissing | nwb_conversion_tools/utils/spike_interface.py:174-176 | after the loop, the device names are the old ones plus the names of the entries. Old devices are untouched and keep their order, and the registry stays duplicate-free |
| Devices.CreateMissingStep | nwb_conversion_tools/utils/spike_interface.py:175-176 | one iteration creates the entry's device only when its name is absent |
| Devices.CreateMissingFields | nwb_conversion_tools/utils/spike_interface.py:176 | a created device holds the defaults overridden by the keys of the first entry carrying its name |
| Groups.GroupOfDevice | nwb_conversion_tools/utils/spike_interface.py:249-250 | a created group links to the device that was looked up for its entry |
| Groups.FallbackGroups | nwb_conversion_tools/utils/spike_interface.py:253-265 | the fallback creates exactly one group per channel group name. Each has description "no description" and location "unknown", and links to the given device |
| Groups.CreateGroupsKeeps | nwb_conversion_tools/utils/spike_interface.py:235-236 | when the entry loop succeeds, no existing group is replaced |
| Groups.CreateGroupsCovers | nwb_conversion_tools/utils/spike_interface.py:235-251 | when the entry loop succeeds, every entry's group name is a group |
| Groups.CreateGroupsLinked | nwb_conversion_tools/utils/spike_interface.py:237-251 | when every existing group links to an existing device, so does every group after the entry loop |
| Groups.CreateGroupsStep | nwb_conversion_tools/utils/spike_interface.py:235-251 | one iteration either creates the entry's missing group from `defaults[0]` overridden by the entry, or fails on its missing device, or changes nothing |
| Groups.CreateGroupsErrSticks | nwb_conversion_tools/utils/spike_interface.py:238-246 | the first failing entry ends the loop; later entries change nothing |
| Groups.CreateGroupsSucceeds | nwb_conversion_tools/utils/spike_interface.py:237-238 | when every entry names an existing device, the entry loop succeeds |
| Groups.GroupsAfterNonEmpty | nwb_conversion_tools/utils/spike_interface.py:253-265 | a successful `add_electrode_groups` leaves at least one electrode group |
| Groups.GroupsAfterKeeps | nwb_conversion_tools/utils/spike_interface.py:235-265 | a successful `add_electrode_groups` replaces no existing group |
| Groups.GroupsAfterCovers | nwb_conversion_tools/utils/spike_interface.py:235-251 | after a successful `add_electrode_groups`, every entry's group name is a group |
| Groups.GroupsAfterLinked | nwb_conversion_tools/utils/spike_interface.py:237-265 | every electrode group links to an existing device afterwards |
| Groups.GroupsAfterSucceeds | nwb_conversion_tools/utils/spike_interface.py:235-265 | it succeeds when the recording has channels and every entry's device exists |
| Groups.GroupsAfterNoChannels | nwb_conversion_tools/utils/spike_interface.py:224-265 | a recording without channels succeeds exactly when there are no entries and the file already has groups; otherwise `defaults[0]` raises IndexError |
| Groups.GroupsAfterFallback | nwb_conversion_tools/utils/spike_interface.py:253-265 | a file without groups and without entries gets one group per channel group, each linked to the first device |
| Groups.MissingDeviceRaises | nwb_conversion_tools/utils/spike_interface.py:238-246 | an entry for a new group whose device is missing raises AttributeError |
| Tables.Scatter | nwb_conversion_tools/utils/spike_interface.py:42-47 | the column written row id by row id keeps one cell per table row |
| Tables.ScatterUntouched | nwb_conversion_tools/utils/spike_interface.py:42-47 | a row not named in `row_ids` keeps its old or default cell |
| Tables.ScatterLastWins | nwb_conversion_tools/utils/spike_interface.py:42-47 | a named row holds the value given with the last occurrence of its id |
| Tables.DynamicTable.SetProperty | nwb_conversion_tools/utils/spike_interface.py:28-66 | ValueError exactly when a row id is unknown, or the lengths differ without `index`. NotImplementedError exactly when `index` is set and the column exists. On failure nothing changes; otherwise only the named column changes, as `Scatter` gives or, with `index`, as the ragged values. The row ids never change |
| Tables.DynamicTable.AddColumn | nwb_conversion_tools/utils/spike_interface.py:391-393 | an absent column is added with one empty cell per row; an existing one is kept |
| Tables.DynamicTable.AddRow | nwb_conversion_tools/utils/spike_interface.py:453 | one id is appended; every column gains the row's cell or an empty one, and a new key becomes a column padded with empty cells |
| Rows.RowsForAppend | nwb_conversion_tools/utils/spike_interface.py:395-453 | adding the row of a channel that was not a row extends the row bookkeeping by that channel |
| Rows.RowsForAppended | nwb_conversion_tools/utils/spike_interface.py:395-453 | the old ids are a prefix. Every new row is for a channel that was not a row before, linked to that channel's group and holding its data-column entries |
| Rows.RowsForDistinct | nwb_conversion_tools/utils/spike_interface.py:395-396 | with distinct old ids and distinct channel ids, the ids stay distinct: no channel is added twice |
| Rows.VisitedNext | nwb_conversion_tools/utils/spike_interface.py:395-453 | after visiting channel `j`, every visited channel that was not a row, and whose group existed, is a row |
| Electrodes.PropertyNames | nwb_conversion_tools/utils/spike_interface.py:353-357 | the loop collects exactly the union of all channels' property names |
| Electrodes.FillColumn | nwb_conversion_tools/utils/spike_interface.py:364-372 | the fill loop builds the column `FillAsWritten` describes |
| Electrodes.PropertyColumns | nwb_conversion_tools/utils/spike_interface.py:353-375 | there is one column per property some channel has and that is not `gain`, `offset`, `location`, `name` or excluded. It sits under its renamed column name, is described by that name and holds the filled data |
| Electrodes.PopUpTo | nwb_conversion_tools/utils/spike_interface.py:377-378 | popping the first `m` entries removes their names and keeps everything else; the later entries are untouched |
| Electrodes.PopNames | nwb_conversion_tools/utils/spike_interface.py:377-378 | popping keeps every column entry but its name |
| Electrodes.FirstBadLength | nwb_conversion_tools/utils/spike_interface.py:377-384 | the index of the first entry whose data length differs from the channel count: every earlier entry's length matches, and the number of entries when none differs |
| Electrodes.PoppedCount | nwb_conversion_tools/utils/spike_interface.py:377-384 | the loop pops every entry when all data lengths match the channel count. Otherwise it pops up to and including the first entry whose length differs |
| Electrodes.PoppedNamesGone | nwb_conversion_tools/utils/spike_interface.py:437 | after the pop, no entry names the group column, so the test at line 437 always passes |
| Electrodes.MergeKeys | nwb_conversion_tools/utils/spike_interface.py:377-385 | the merged columns are the property columns plus the entries' names |
| Electrodes.MergeUntouched | nwb_conversion_tools/utils/spike_interface.py:377-385 | a property column that no entry names is kept as it was |
| Electrodes.MergeLastWins | nwb_conversion_tools/utils/spike_interface.py:379-385 | a named column takes the description and data of the last entry with its name |
| Electrodes.MergeHasData | nwb_conversion_tools/utils/spike_interface.py:387-389 | every merged column has data, so the ValueError cannot be raised |
| Electrodes.MergeSpecs | nwb_conversion_tools/utils/spike_interface.py:377-385 | the merge loop fails, on the assertion at line 384, exactly when some entry's data length differs from the channel count; otherwise it yields `Merge`. The entries it leaves behind are those with the first `PoppedCount` names popped, so entries after a failing one keep their names |
| Electrodes.RowValues | nwb_conversion_tools/utils/spike_interface.py:397-435 | a row starts from the defaults and takes the `j`-th entry of every data column. IndexError exactly when some data column is too short |
| Electrodes.RowCells | nwb_conversion_tools/utils/spike_interface.py:411-435 | the loop over the columns builds the row `RowValues` describes |
| Electrodes.MergedNamesOf | nwb_conversion_tools/utils/spike_interface.py:353-385 | the column names are those of the kept properties and of the entries, never `group`, and every column has data |
| Electrodes.MergeEntriesWin | nwb_conversion_tools/utils/spike_interface.py:379-385 | every entry's column holds the description and data of the last entry with that name |
| Electrodes.MergePropertiesKept | nwb_conversion_tools/utils/spike_interface.py:358-385 | a property column that no entry names keeps its filled data |
| Electrodes.MergeOfPropertyColumns | nwb_conversion_tools/utils/spike_interface.py:353-385 | the merge of the property columns with the entries is the column set `add_electrodes` adds |
| Electrodes.PrepareColumns | nwb_conversion_tools/utils/spike_interface.py:333-385 | the three assertions fail in order: malformed entries, then an entry named `group`, then a wrong data length, each exactly under its condition. The metadata gains its missing sections. Once the merge loop is reached, the entries up to and including the first one of the wrong length lose their names (all of them when every length matches), and the later ones keep theirs |
| Series.ParseWriteAs | nwb_conversion_tools/utils/spike_interface.py:510-511 | only `raw`, `processed` and `lfp` pass the assertion, each to its own kind |
| Series.ElectrodeRegion | nwb_conversion_tools/utils/spike_interface.py:565-566 | ValueError exactly when a channel id is not a row. Otherwise each channel maps to the first row with its id |
| Series.UnsignedCoercion | nwb_conversion_tools/utils/spike_interface.py:576-589 | NotImplementedError exactly when some offset is not an integer multiple of its gain. Otherwise each channel's shift times its gain is its offset |
| Series.ChooseConversion | nwb_conversion_tools/utils/spike_interface.py:590-597 | scaled data has unit conversion. Otherwise it is one shared gain when all gains are equal, else the per-channel gains |
| Series.ConversionMatchesGains | nwb_conversion_tools/utils/spike_interface.py:590-597 | unscaled data is written with each channel's own gain as its factor, whichever conversion was chosen |
| Series.SharedGainIffEqual | nwb_conversion_tools/utils/spike_interface.py:593 | per-channel conversion is recorded exactly when the gains are not all equal |
| Series.BufferSize | nwb_conversion_tools/utils/spike_interface.py:601-602 | the buffer is the floor of `buffer_mb * 10^6` over the bytes per frame; ZeroDivisionError when that is zero |
| Series.SeriesTiming | nwb_conversion_tools/utils/spike_interface.py:630-641 | a start time at frame 0 and a rate, or the time of every frame |
| Series.BuildSeries | nwb_conversion_tools/utils/spike_interface.py:548-641 | the checks fail in source order, each exactly under its condition: missing `es_key`, duplicate name, unknown channel, non-integer coercion, zero bytes per frame. A built series has the chosen name, a region mapping each channel to its row, each channel's gain as its factor, chunked traces exactly for memory-mapped unshifted data, and the chosen clock |
| Series.ChooseTarget | nwb_conversion_tools/utils/spike_interface.py:843-857 | a path and a container together fail the assertion, and neither raises TypeError. A container is filled in memory; a path is opened `r+` exactly when the file exists and `overwrite` is off, else `w` |
| Epochs.Upsert | nwb_conversion_tools/utils/spike_interface.py:676-692 | the epoch's tag becomes a row holding its start, and no other row changes. A row is appended exactly when the tag was new. The stop is `end_frame`, or `end_frame - 1` on the first row of a new table |
| Epochs.UpsertAllStep | nwb_conversion_tools/utils/spike_interface.py:674-692 | the loop upserts the epochs one at a time, in order |
| Epochs.UpsertAllPrefix | nwb_conversion_tools/utils/spike_interface.py:674-692 | rows are never removed or reordered |
| Epochs.UpsertAllCovers | nwb_conversion_tools/utils/spike_interface.py:674-692 | every epoch of the recording has a row afterwards |
| Epochs.UpsertAllDistinct | nwb_conversion_tools/utils/spike_interface.py:683-692 | tags that were distinct stay distinct |
| Epochs.UpsertAllLatest | nwb_conversion_tools/utils/spike_interface.py:683-686 | an epoch's row holds the start of the last epoch with its name |
| Epochs.UpsertAllAgain | nwb_conversion_tools/utils/spike_interface.py:683-686 | upserting epochs whose tags are all rows adds no row |
| Epochs.FirstEpochStopsEarly | nwb_conversion_tools/utils/spike_interface.py:676-690 | the same epoch stops one frame earlier in a file without an epoch table than in one whose table exists |
| NwbFiles.WithModule | nwb_conversion_tools/utils/spike_interface.py:84-89 | an existing module is kept. Otherwise exactly one module is added, described by the given description or else by its name |
| NwbFiles.WithModuleIdempotent | nwb_conversion_tools/utils/spike_interface.py:84-86 | checking for a module again changes nothing |
| NwbFiles.WithInterface | nwb_conversion_tools/utils/spike_interface.py:525-546 | afterwards the `ecephys` module, with its fixed description when created, and the `Processed` or `LFP` interface exist; other modules are untouched |
| NwbFiles.WithInterfaceKeepsSeries | nwb_conversion_tools/utils/spike_interface.py:525-546 | creating the module or interface stores no series |
| NwbFiles.DevicesEnsured | nwb_conversion_tools/utils/spike_interface.py:211-212 | a file without devices gets the default device; one with devices is left alone |
| NwbFiles.WithGroupDefaults | nwb_conversion_tools/utils/spike_interface.py:229-230 | the metadata's group list is kept, or else set to the defaults |
| NwbFiles.NamesOfUnique | nwb_conversion_tools/utils/spike_interface.py:263-265 | walking the distinct channel groups names every channel group |
| NwbFiles.SeriesOutcome | nwb_conversion_tools/utils/spike_interface.py:510-641 | the `write_as` assertion comes first; then the outcome is that of `BuildSeries` |
| NwbFiles.NwbFile.constructor | nwb_conversion_tools/utils/spike_interface.py:864-871 | a new file has no devices, groups, electrode table, modules, acquisition or epochs |
| NwbFiles.NwbFile.CheckModule | nwb_conversion_tools/utils/spike_interface.py:69-89 | the modules become `WithModule` of the old ones, the result is the named module, and nothing else changes |
| NwbFiles.NwbFile.CreateDevices | nwb_conversion_tools/utils/spike_interface.py:174-176 | the loop leaves the devices `CreateMissing` gives |
| NwbFiles.NwbFile.AddDevices | nwb_conversion_tools/utils/spike_interface.py:128-176 | metadata without `Ecephys` raises KeyError. Without metadata or `Device`, the default device is created if missing, and a list creates its missing devices. A dict creates nothing and raises AttributeError unless empty. Old devices are kept |
| NwbFiles.NwbFile.AutoDevice | nwb_conversion_tools/utils/spike_interface.py:238-246 | the auto-device call raises AttributeError and changes nothing |
| NwbFiles.NwbFile.ScanGroupEntries | nwb_conversion_tools/utils/spike_interface.py:235-251 | the entry loop leaves the groups `CreateGroups` gives, or stops at the first missing device, exactly when `CreateGroups` fails |
| NwbFiles.NwbFile.CreateEntryGroups | nwb_conversion_tools/utils/spike_interface.py:235-251 | the outcome and groups are those of `CreateGroups`; the devices do not change |
| NwbFiles.NwbFile.CreateFallbackGroups | nwb_conversion_tools/utils/spike_interface.py:253-265 | the loop leaves exactly `FallbackGroups` |
| NwbFiles.NwbFile.CreateGroupsFrom | nwb_conversion_tools/utils/spike_interface.py:219-265 | the outcome and groups are those of `GroupsAfter` |
| NwbFiles.NwbFile.AddElectrodeGroups | nwb_conversion_tools/utils/spike_interface.py:179-265 | devices become `DevicesEnsured` of the old ones, and the metadata gets its default group list when it had none. Outcome and groups are those of `GroupsAfter`; no group is replaced, and failures are IndexError or AttributeError |
| NwbFiles.NwbFile.AddElectrodeColumn | nwb_conversion_tools/utils/spike_interface.py:393 | the table exists afterwards and has the column, new columns being empty |
| NwbFiles.NwbFile.AddElectrode | nwb_conversion_tools/utils/spike_interface.py:453 | the table exists afterwards, has one more id, and the new row holds the given cells |
| NwbFiles.NwbFile.AddElectrodeColumns | nwb_conversion_tools/utils/spike_interface.py:391-393 | every column that is not a default one is added, empty, and existing columns are untouched |
| NwbFiles.NwbFile.EnsureGroup | nwb_conversion_tools/utils/spike_interface.py:412-433 | a missing group is requested from spikeextractors' `NwbRecordingExtractor.add_electrode_groups`, modelled by this file's `add_electrode_groups` (see "## Left out"). On success the group exists; an existing group changes nothing |
| NwbFiles.NwbFile.AddElectrodeRow | nwb_conversion_tools/utils/spike_interface.py:396-453 | a row is added exactly when the channel's own group exists and nothing failed, and it is a `NewRow` for the channel. A too short data column fails |
| NwbFiles.NwbFile.AddLinkedRow | nwb_conversion_tools/utils/spike_interface.py:437-453 | the row's `group_name` and `group` cells name the group, and the other cells are as given |
| NwbFiles.NwbFile.VisitChannel | nwb_conversion_tools/utils/spike_interface.py:395-453 | a channel already in the table is skipped; any other one whose group exists becomes a row |
| NwbFiles.NwbFile.AddElectrodeRows | nwb_conversion_tools/utils/spike_interface.py:395-453 | the new rows are as `RowsAppended` describes and keep the ids distinct. On success every channel that was not a row, and whose group existed, is one |
| NwbFiles.NwbFile.FillElectrodeTable | nwb_conversion_tools/utils/spike_interface.py:342-455 | the entry assertions fail exactly as `EntryErrors` says. On success the table exists, the entries lose their names, and the table is `ElectrodesFilled` |
| NwbFiles.NwbFile.GroupsForElectrodes | nwb_conversion_tools/utils/spike_interface.py:313-314 | only a file without groups calls spikeextractors' `NwbRecordingExtractor.add_electrode_groups`. It is modelled by this file's `add_electrode_groups`, with the groups `GroupsBeforeRows` gives (see "## Left out") |
| NwbFiles.NwbFile.AddElectrodes | nwb_conversion_tools/utils/spike_interface.py:268-455 | groups come first. The old rows, columns, groups and devices are kept, and the ids stay distinct. On success the table exists and holds a row for every new channel whose group existed |
| NwbFiles.NwbFile.PrepareDestination | nwb_conversion_tools/utils/spike_interface.py:525-546 | the modules become `WithInterface` of the old ones |
| NwbFiles.NwbFile.StoreSeries | nwb_conversion_tools/utils/spike_interface.py:644-650 | the series is stored under its name where its kind goes, and no other kind's series change |
| NwbFiles.NwbFile.WriteSeries | nwb_conversion_tools/utils/spike_interface.py:513-650 | the outcome is that of `BuildSeries`, checked against the series already stored; on success the series is stored there |
| NwbFiles.NwbFile.BuildAndStore | nwb_conversion_tools/utils/spike_interface.py:644-650 | the series is stored exactly when `BuildSeries` succeeds |
| NwbFiles.NwbFile.ElectrodesForSeries | nwb_conversion_tools/utils/spike_interface.py:507-508 | `add_electrodes` runs only when the table is absent or empty; on success the table exists |
| NwbFiles.NwbFile.AddElectricalSeries | nwb_conversion_tools/utils/spike_interface.py:458-650 | a buffer of 10 MB or less fails first and changes nothing. With a filled table, the outcome is `SeriesOutcome`; on success the series is stored where its kind goes, and other kinds are untouched |
| NwbFiles.NwbFile.AddEpochs | nwb_conversion_tools/utils/spike_interface.py:653-692 | the epoch table becomes `UpsertAll` of the old one over the recording's epochs, and nothing else changes |
| NwbFiles.NwbFile.AddSetup | nwb_conversion_tools/utils/spike_interface.py:737-754 | devices, groups and electrodes are added in order; old devices, groups, columns and rows are kept |
| NwbFiles.NwbFile.AddAllToNwbFile | nwb_conversion_tools/utils/spike_interface.py:694-771 | the steps run in order, and a failure leaves the epochs untouched. On success the table exists, the series is stored, and the epochs are upserted |
| Writing.WriteRecording | nwb_conversion_tools/utils/spike_interface.py:774-896 | the target follows `ChooseTarget`: the given container, the stored file reopened `r+`, or a fresh container for `w`. A filled target has an electrode table and upserted epochs |

## Left out

- Electrode positions: `rel_x`/`rel_y` from the channel locations (lines 400-409) and the
  extra columns for old pynwb versions (lines 315-320) are not modelled. They depend on NaN
  tests of floats and on the library version.
- The pynwb version assertion (lines 840-841) and the `isinstance` type assertions on the
  file and on the arguments are not modelled. The model's types already exclude what they
  reject.
- Floating point: gains and offsets are integers, and NaN is `Missing`. The `1e-6` conversion
  factors are left implicit in `Conversion`.
  - `Series.UnsignedCoercion`: the `is_integer()` test is modelled as exact divisibility of
    integers.
  - `Series.BufferSize`: `int(buffer_mb * 1e6)` is modelled on integer megabytes.
- `frame_to_time` is kept symbolic (`Epochs.Time`). The sampling rate is not modelled.
- The HDF5 layer is not modelled: `NWBHDF5IO`, `io.read`, `io.write` and `Path.is_file`.
  - `Writing.WriteRecording` receives the file read back as `stored`.
  - It receives whether the path is a file as `fileExists`.
  - The final `io.write` is not represented.
- The traces themselves are not modelled: `DataChunkIterator`, the generator, `H5DataIO`
  compression and the `uint` to `int` dtype renaming. The series records only its buffer
  size, or its per-channel shifts.
- The recording's own `nwb_metadata` and `dict_deep_update` (lines 847-848) are not modelled.
  `Writing.WriteRecording` uses `get_nwb_metadata` when no metadata is given.
- The `NWBFile` keyword arguments are not modelled: `identifier` from `uuid4`, the
  `datetime` start time, and the `NWBFile` metadata section. So the series' description and
  comments strings are not stored.
- Warnings are not modelled.
- An `es_key` naming the `Device`, `ElectrodeGroup` or `Electrodes` section is not modelled.
  The series overrides live in a separate map (`Metadata.Ecephys.series`).
- `Tables.DynamicTable.SetProperty`: writing element-wise into an existing ragged column
  without `index` is excluded by its precondition. The flat cell model cannot represent it.
- `Tables.DynamicTable.AddColumn`, `Tables.DynamicTable.AddRow`: hdmf's own checks on `add_row` and `add_column` are not
  modelled. A new key becomes a column padded with empty cells, and an existing column name
  is kept.
- `NwbFiles.NwbFile.AddElectrodeRows`: the columns are visited as a map, not in the
  dictionary's insertion order; the group column is handled first. On a row that succeeds
  the order changes nothing. On a row that fails it can: property columns come before the
  metadata's columns in the dictionary, so a too-short property column raises IndexError at
  line 435 before the `group_name` branch runs. The model takes the group step first, so on
  such a row it can report that step's error (AttributeError for a missing device) instead
  of the IndexError, or create the row's group before it fails with IndexError.
- `NwbFiles.NwbFile.GroupsForElectrodes`, `NwbFiles.NwbFile.EnsureGroup`: at lines 314 and
  427 the source calls `add_electrode_groups` of spikeextractors' `NwbRecordingExtractor`,
  imported at line 9, not this file's `add_electrode_groups` (lines 179-265). That package is
  not part of this model. The model assumes the two behave alike and runs its own
  `AddElectrodeGroups` there. The group-related guarantees of `NwbFiles.NwbFile.AddElectrodes`,
  `NwbFiles.NwbFile.AddSetup` and `NwbFiles.NwbFile.AddAllToNwbFile` depend on that assumption.
  So does the AttributeError on the missing-group path at line 427.
- `Epochs.Upsert`, `Epochs.UpsertAllAgain`, `Epochs.UpsertAllDistinct`: `add_epoch(tags=epoch_name)`
  is modelled as storing the one-element list `[epoch_name]`. pynwb's own handling of a string
  tag is not part of this model. If pynwb splits a tag on commas or strips whitespace, an
  epoch name such as `"a,b"` never matches the test at line 683. Each run would then append
  another row, and these lemmas would not hold for such names.
- `Devices.CreateMissingFields`, `Groups.CreateGroupsStep`: `create_device` and
  `create_electrode_group` are modelled as taking the keys they know. A device keeps every
  key of its entry, and `Groups.GroupOf` reads `description`, `location` and `device`.
  pynwb's TypeError for an unknown keyword argument is not modelled.
- `Electrodes.MergeSpecs`, `Electrodes.PrepareColumns`: the column entries are values, so
  one dictionary cannot appear twice in the `Electrodes` list. With such aliasing, the
  second `x.pop('name')` at line 378 raises KeyError in the source. The model does not
  capture that.
