/**
  The NWB file container the helpers fill in place, and the helpers themselves:
  `check_module`, `add_devices`, `add_electrode_groups`, `add_electrodes`,
  `add_electrical_series`, `add_epochs`, `add_all_to_nwbfile` and `write_recording`.
 */
module NwbFiles {
  import opened Values
  import opened Recordings
  import opened Metadata
  import opened Tables
  import opened Devices
  import opened Groups
  import opened Epochs
  import opened Series
  import opened Electrodes
  import opened Rows

  /** A processing module: its description and, per data interface, the electrical series the
      interface holds, by name. */
  datatype ProcessingModule = ProcessingModule(description: string, interfaces: map<string, map<string, ElectricalSeries>>)

  /** The processing modules after `check_module(name, description)`: an existing module is
      left as it is; otherwise one is created, described by `description` or else by its name.
      No other module changes. */
  function WithModule(mods: map<string, ProcessingModule>, name: string, description: Option<string>)
    : (r: map<string, ProcessingModule>)
    ensures r.Keys == mods.Keys + {name}
    ensures forall n :: n in mods ==> r[n] == mods[n]
    ensures name !in mods ==> r[name] == ProcessingModule(description.GetOr(name), map[])
  {
    if name in mods then mods else mods[name := ProcessingModule(description.GetOr(name), map[])]
  }

  /** Checking for a module a second time changes nothing, whatever description is passed. */
  lemma WithModuleIdempotent(mods: map<string, ProcessingModule>, name: string, d1: Option<string>, d2: Option<string>)
    ensures WithModule(WithModule(mods, name, d1), name, d2) == WithModule(mods, name, d1)
  {
  }

  /** The series already written where a series of kind `w` goes: the acquisition group for
      raw data, otherwise the `Processed` or `LFP` interface of the `ecephys` module (none while
      that module or interface does not exist). */
  function SeriesAt(processing: map<string, ProcessingModule>, acquisition: map<string, ElectricalSeries>, w: WriteAs)
    : map<string, ElectricalSeries>
  {
    if w.Raw? then acquisition
    else if EcephysModule in processing && InterfaceName(w) in processing[EcephysModule].interfaces
    then processing[EcephysModule].interfaces[InterfaceName(w)]
    else map[]
  }

  /** The processing modules once `add_electrical_series` has checked for the `ecephys` module
      and its interface for a processed or LFP series: both exist, and nothing else changes. */
  function WithInterface(processing: map<string, ProcessingModule>, w: WriteAs): (r: map<string, ProcessingModule>)
    requires !w.Raw?
    ensures r.Keys == processing.Keys + {EcephysModule}
    ensures forall n :: n in processing && n != EcephysModule ==> r[n] == processing[n]
    ensures EcephysModule in processing ==> r[EcephysModule].description == processing[EcephysModule].description
    ensures EcephysModule !in processing ==> r[EcephysModule].description == EcephysDescription
    ensures InterfaceName(w) in r[EcephysModule].interfaces
  {
    var p := WithModule(processing, EcephysModule, Some(EcephysDescription));
    var m := p[EcephysModule];
    if InterfaceName(w) in m.interfaces then p
    else p[EcephysModule := m.(interfaces := m.interfaces[InterfaceName(w) := map[]])]
  }

  /** Creating the module or the interface writes no series: what is stored for every kind of
      series stays as it was. */
  lemma WithInterfaceKeepsSeries(processing: map<string, ProcessingModule>, acquisition: map<string, ElectricalSeries>,
                                 w: WriteAs, w': WriteAs)
    requires !w.Raw?
    ensures SeriesAt(WithInterface(processing, w), acquisition, w') == SeriesAt(processing, acquisition, w')
  {
    if !w'.Raw? && EcephysModule in processing && InterfaceName(w') in processing[EcephysModule].interfaces {
      assert InterfaceName(w') in WithInterface(processing, w)[EcephysModule].interfaces;
    }
  }

  /** The devices once `add_electrode_groups` has made sure there is one: a container without
      devices gets the default device. */
  function DevicesEnsured(reg: Registry): (r: Registry)
    requires reg.Valid()
    ensures r.Valid() && |r.order| > 0
    ensures reg.order != [] ==> r == reg
    ensures reg.order == [] ==> r == CreateMissing(reg, [DeviceDefaults])
  {
    if reg.order != [] then reg
    else
      var r := CreateMissing(reg, [DeviceDefaults]);
      assert DeviceDefaults in [DeviceDefaults];
      assert DeviceName(DeviceDefaults) in r.byName;
      r
  }

  /** `metadata['Ecephys']` once `add_electrode_groups` has filled in what was missing. */
  function WithGroupDefaults(e: Option<Ecephys>, defaults: seq<Fields>): (r: Ecephys)
    ensures r.electrodeGroup.Some?
    ensures r.electrodeGroup.value == GroupEntries(e, defaults)
  {
    var base := e.GetOr(EmptyEcephys);
    if base.electrodeGroup.Some? then base else base.(electrodeGroup := Some(defaults))
  }

  /** The group names of the channel groups listed in `u`. */
  function NamesOf(u: seq<int>): set<string> {
    set k | 0 <= k < |u| :: IntToString(u[k])
  }

  lemma NamesOfNext(u: seq<int>, k: nat)
    requires k < |u|
    ensures NamesOf(u[..k + 1]) == NamesOf(u[..k]) + {IntToString(u[k])}
  {
    assert forall k' :: 0 <= k' < k ==> u[..k + 1][k'] == u[..k][k'];
    assert u[..k + 1][k] == u[k];
  }

  /** Walking the distinct channel groups names every channel group. */
  lemma NamesOfUnique(rec: Recording)
    ensures NamesOf(Unique(rec.channelGroups)) == GroupNames(rec)
  {
    var u := Unique(rec.channelGroups);
    forall g | g in rec.channelGroups ensures IntToString(g) in NamesOf(u) {
      assert u[IndexOf(u, g)] == g;
    }
  }

  /** Every device of `reg` is still there, unchanged and in its old place, in `reg'`. */
  predicate DevicesKept(reg: Registry, reg': Registry) {
    |reg.order| <= |reg'.order| && reg'.order[..|reg.order|] == reg.order
    && forall n :: n in reg.byName ==> n in reg'.byName && reg'.byName[n] == reg.byName[n]
  }

  lemma DevicesKeptTrans(a: Registry, b: Registry, c: Registry)
    requires DevicesKept(a, b) && DevicesKept(b, c)
    ensures DevicesKept(a, c)
  {
    assert c.order[..|a.order|] == c.order[..|b.order|][..|a.order|];
  }

  /** Every electrode group is linked to a device of `reg`. */
  predicate Linked(groups: map<string, ElectrodeGroup>, reg: Registry) {
    forall n :: n in groups ==> groups[n].device in reg.byName
  }

  /** The electrode groups the row loop of `add_electrodes` starts from: the file's own, or,
      when it has none, those `add_electrode_groups` creates from the metadata. */
  function GroupsBeforeRows(rec: Recording, reg: Registry, groups: map<string, ElectrodeGroup>, e: Option<Ecephys>)
    : map<string, ElectrodeGroup>
    requires reg.Valid()
  {
    if groups != map[] then groups
    else
      var reg' := DevicesEnsured(reg);
      var r := GroupsAfter(rec, reg', groups, GroupEntries(e, GroupDefaults(rec, reg'.order[0])));
      if r.Ok? then r.value else groups
  }

  /** The assertions `add_electrodes` makes about the metadata's column entries, in order:
      each fails exactly when the earlier ones hold and it does not, and the outcome is a
      failure of one of them exactly when the entries are not acceptable. */
  predicate EntryErrors(specs: seq<ColumnSpec>, numChannels: nat, out: Outcome) {
    (out == Fail(AssertionError("electrode entries")) <==> !AllWellFormed(specs))
    && (out == Fail(AssertionError("group column")) <==> AllWellFormed(specs) && NamesGroup(specs))
    && (out == Fail(AssertionError("electrode data length")) <==>
          AllWellFormed(specs) && !NamesGroup(specs) && !DataLengthsMatch(specs, numChannels))
  }

  /** The electrode table `add_electrodes` leaves: for the columns `cols` built from the
      properties and the entries `specs`, the rows after `before` are new rows for channels,
      and every channel that was not a row and whose group was in `groups0` when the row loop
      started now is one. */
  ghost predicate ElectrodesFilled(rec: Recording, exclude: seq<string>, specs: seq<ColumnSpec>, before: seq<int>, ids: seq<int>,
                                   columns: map<string, Column>, groups: map<string, ElectrodeGroup>,
                                   groups0: map<string, ElectrodeGroup>)
    requires rec.Valid()
  {
    AllWellFormed(specs) && !NamesGroup(specs) && DataLengthsMatch(specs, rec.NumChannels())
    && exists cols :: (MergedColumnsOf(rec, exclude, specs, cols)
      && RowsAppended(rec, cols, before, ids, columns, groups)
      && Visited(rec, cols, before, ids, groups0, rec.NumChannels()))
  }

  /** The outcome `add_electrical_series` reaches once the electrode table is there: the
      `write_as` assertion, then the checks of `BuildSeries` against the series already
      written where the series goes. */
  function SeriesOutcome(rec: Recording, tableIds: seq<int>, e: Option<Ecephys>, esKey: Option<string>, writeAs: string,
                         bufferMb: int, useTimes: bool, writeScaled: bool,
                         processing: map<string, ProcessingModule>, acquisition: map<string, ElectricalSeries>): (out: Outcome)
    requires rec.Valid()
    ensures out.Pass? ==> ParseWriteAs(writeAs).Ok?
    ensures ParseWriteAs(writeAs).Err? ==> out == Fail(AssertionError("write_as"))
    ensures ParseWriteAs(writeAs).Ok? ==>
      var built := BuildSeries(rec, tableIds, e, esKey, ParseWriteAs(writeAs).value, bufferMb, useTimes, writeScaled,
                               SeriesAt(processing, acquisition, ParseWriteAs(writeAs).value).Keys);
      (out.Pass? <==> built.Ok?) && (out.Fail? ==> out.error == built.error)
  {
    match ParseWriteAs(writeAs)
    case Err(err) => Fail(err)
    case Ok(w) =>
      match BuildSeries(rec, tableIds, e, esKey, w, bufferMb, useTimes, writeScaled, SeriesAt(processing, acquisition, w).Keys)
      case Err(err) => Fail(err)
      case Ok(_) => Pass
  }

  /** A series of kind `writeAs` was built as by `BuildSeries` against the series stored in
      `processing0` and `acquisition0`, and `processing` and `acquisition` store it under its
      name where its kind goes, next to the series stored before. */
  predicate SeriesStored(rec: Recording, tableIds: seq<int>, e: Option<Ecephys>, esKey: Option<string>, writeAs: string,
                         bufferMb: int, useTimes: bool, writeScaled: bool,
                         processing0: map<string, ProcessingModule>, acquisition0: map<string, ElectricalSeries>,
                         processing: map<string, ProcessingModule>, acquisition: map<string, ElectricalSeries>)
    requires rec.Valid()
  {
    ParseWriteAs(writeAs).Ok?
    && var w := ParseWriteAs(writeAs).value;
       var built := BuildSeries(rec, tableIds, e, esKey, w, bufferMb, useTimes, writeScaled, SeriesAt(processing0, acquisition0, w).Keys);
       built.Ok? && SeriesAt(processing, acquisition, w) == SeriesAt(processing0, acquisition0, w)[built.value.name := built.value]
  }

  class NwbFile {
    var devices: Registry
    var electrodeGroups: map<string, ElectrodeGroup>
    /** The electrode table. `hasElectrodeTable` is false while `nwbfile.electrodes is None`;
        the table is then empty. */
    const electrodes: DynamicTable
    var hasElectrodeTable: bool
    var processing: map<string, ProcessingModule>
    var acquisition: map<string, ElectricalSeries>
    var epochs: EpochTable

    /** Every electrode group is linked to a device of the file. */
    ghost predicate Valid()
      reads this, electrodes
    {
      devices.Valid() && epochs.Valid() && Linked(electrodeGroups, devices) && TableValid()
    }

    /** The electrode table is well formed, and empty while the file has none. */
    ghost predicate TableValid()
      reads this`hasElectrodeTable, electrodes
    {
      electrodes.Valid() && (!hasElectrodeTable ==> electrodes.ids == [] && electrodes.columns == map[])
    }

    /** A new, empty file. */
    constructor ()
      ensures Valid() && fresh(electrodes)
      ensures devices == Registry(map[], []) && electrodeGroups == map[] && !hasElectrodeTable
      ensures electrodes.ids == [] && electrodes.columns == map[]
      ensures processing == map[] && acquisition == map[] && epochs == NoEpochs
    {
      devices := Registry(map[], []);
      electrodeGroups := map[];
      electrodes := new DynamicTable();
      hasElectrodeTable := false;
      processing := map[];
      acquisition := map[];
      epochs := NoEpochs;
    }

    /** `check_module(nwbfile, name, description)`: the module called `name`, created if the
        file has none. */
    method CheckModule(name: string, description: Option<string>) returns (m: ProcessingModule)
      requires Valid()
      modifies this
      ensures Valid()
      ensures processing == WithModule(old(processing), name, description) && m == processing[name]
      ensures devices == old(devices) && electrodeGroups == old(electrodeGroups)
      ensures hasElectrodeTable == old(hasElectrodeTable) && acquisition == old(acquisition) && epochs == old(epochs)
    {
      if name !in processing {
        processing := processing[name := ProcessingModule(description.GetOr(name), map[])];
      }
      m := processing[name];
    }

    /** The loop of `add_devices`: every entry whose name is not a device yet creates one from
        the defaults overridden by the entry's keys. */
    method CreateDevices(entries: seq<Fields>)
      requires Valid()
      modifies this`devices
      ensures Valid() && devices == CreateMissing(old(devices), entries)
    {
      var i := 0;
      while i < |entries|
        invariant 0 <= i <= |entries|
        modifies this`devices
        invariant devices == CreateMissing(old(devices), entries[..i])
      {
        CreateMissingStep(old(devices), entries, i);
        var dev := entries[i];
        var name := DeviceName(dev);
        ghost var prev := devices;
        if name !in devices.byName {
          devices := Registry(devices.byName[name := DeviceDefaults + dev], devices.order + [name]);
        }
        assert devices == WithDevice(prev, dev);
        i := i + 1;
      }
      assert entries[..i] == entries;
      assert forall n :: n in old(devices).byName ==> n in devices.byName;
    }

    /** `add_devices(recording, nwbfile, metadata)`. Without metadata, or without a `Device`
        entry, the default device is created if missing. Metadata without an `Ecephys` section
        raises KeyError. A list of device entries creates every device whose name is missing.
        A single dictionary (what the auto-device path of `add_electrode_groups` passes) is
        iterated key by key, and a key is a string, which has no `get`: any non-empty one
        raises AttributeError. */
    method AddDevices(md: MetadataDict?) returns (out: Outcome)
      requires Valid()
      modifies this
      ensures Valid() && DevicesKept(old(devices), devices)
      ensures electrodeGroups == old(electrodeGroups) && hasElectrodeTable == old(hasElectrodeTable)
      ensures processing == old(processing) && acquisition == old(acquisition) && epochs == old(epochs)
      ensures md != null && md.ecephys.None? ==> out == Fail(KeyError) && devices == old(devices)
      ensures md == null || (md.ecephys.Some? && md.ecephys.value.device.None?) ==>
        out == Pass && devices == CreateMissing(old(devices), [DeviceDefaults])
      ensures md != null && md.ecephys.Some? && md.ecephys.value.device.Some? && md.ecephys.value.device.value.DeviceList? ==>
        out == Pass && devices == CreateMissing(old(devices), md.ecephys.value.device.value.entries)
      ensures md != null && md.ecephys.Some? && md.ecephys.value.device.Some? && md.ecephys.value.device.value.DeviceDict? ==>
        devices == old(devices) && (out == Pass <==> md.ecephys.value.device.value.fields == map[])
        && (out.Fail? ==> out.error == AttributeError)
    {
      if md != null && md.ecephys.None? {
        return Fail(KeyError);
      }
      var entries: seq<Fields>;
      if md == null || md.ecephys.value.device.None? {
        entries := [DeviceDefaults];
      } else {
        match md.ecephys.value.device.value
        case DeviceDict(fields) =>
          if fields == map[] {
            return Pass;
          }
          return Fail(AttributeError);
        case DeviceList(es) =>
          entries := es;
      }
      CreateDevices(entries);
      return Pass;
    }

    /** The auto-device path of `add_electrode_groups` for an entry whose device is missing:
        `add_devices` receives `dict(Device=dict(name=device))`, iterates it key by key, and
        fails on the first key. */
    method AutoDevice(device: string) returns (out: Outcome)
      requires Valid()
      modifies this
      ensures Valid() && out == Fail(AttributeError)
      ensures devices == old(devices) && electrodeGroups == old(electrodeGroups) && hasElectrodeTable == old(hasElectrodeTable)
      ensures processing == old(processing) && acquisition == old(acquisition) && epochs == old(epochs)
    {
      var auto := new MetadataDict(Some(Ecephys(Some(DeviceDict(map["name" := device])), None, None, map[])));
      assert "name" in auto.ecephys.value.device.value.fields;
      out := AddDevices(auto);
    }

    /** The entry loop of `add_electrode_groups`, with `d0` the first default entry: an entry
        whose group is missing creates it, provided its device exists. A missing device takes
        the auto-device path, which passes `add_devices` a single dictionary and so raises
        AttributeError. */
    method CreateEntryGroups(entries: seq<Fields>, d0: Fields) returns (out: Outcome)
      requires Valid()
      modifies this
      ensures Valid()
      ensures devices == old(devices) && hasElectrodeTable == old(hasElectrodeTable)
      ensures processing == old(processing) && acquisition == old(acquisition) && epochs == old(epochs)
      ensures GroupsKept(old(electrodeGroups), electrodeGroups)
      ensures out.Fail? ==> out.error == AttributeError
      ensures var expected := CreateGroups(old(electrodeGroups), old(devices).byName.Keys, entries, d0);
        (out.Pass? <==> expected.Ok?)
        && (out.Pass? ==> electrodeGroups == expected.value)
        && (out.Fail? ==> out.error == expected.error)
    {
      var missing := ScanGroupEntries(entries, d0);
      if missing.Some? {
        out := AutoDevice(missing.value);
      } else {
        out := Pass;
      }
    }

    /** The entry loop itself: it stops at the first entry whose group is missing and whose
        device does not exist, and returns that device. */
    method ScanGroupEntries(entries: seq<Fields>, d0: Fields) returns (missing: Option<string>)
      requires Valid()
      modifies this`electrodeGroups
      ensures Valid()
      ensures GroupsKept(old(electrodeGroups), electrodeGroups)
      ensures var expected := CreateGroups(old(electrodeGroups), devices.byName.Keys, entries, d0);
        (missing.None? <==> expected.Ok?)
        && (missing.None? ==> electrodeGroups == expected.value)
        && (missing.Some? ==> expected == Err(AttributeError))
    {
      ghost var known := devices.byName.Keys;
      missing := None;
      var i := 0;
      while i < |entries|
        invariant 0 <= i <= |entries|
        invariant Linked(electrodeGroups, devices)
        invariant CreateGroups(old(electrodeGroups), known, entries[..i], d0) == Ok(electrodeGroups)
        invariant GroupsKept(old(electrodeGroups), electrodeGroups)
      {
        CreateGroupsStep(old(electrodeGroups), known, entries, d0, i);
        var grp := entries[i];
        var name := EntryName(grp, d0);
        ghost var prev := electrodeGroups;
        if name !in electrodeGroups {
          var device := EntryDevice(grp, d0);
          if device !in devices.byName {
            missing := Some(device);
            assert WithGroup(prev, known, grp, d0).Err?;
            break;
          }
          GroupOfDevice(grp, d0);
          electrodeGroups := electrodeGroups[name := GroupOf(d0 + grp)];
        }
        assert WithGroup(prev, known, grp, d0) == Ok(electrodeGroups);
        i := i + 1;
      }
      if missing.Some? {
        CreateGroupsErrSticks(old(electrodeGroups), known, entries, d0, i + 1);
      } else {
        assert entries[..i] == entries;
      }
    }

    /** The fallback of `add_electrode_groups` for a file without groups: one group per
        distinct channel group, named after it and linked to `device`. */
    method CreateFallbackGroups(rec: Recording, device: string)
      requires Valid() && device in devices.byName && electrodeGroups == map[]
      modifies this`electrodeGroups
      ensures Valid()
      ensures electrodeGroups == FallbackGroups(rec, device)
    {
      var u := Unique(rec.channelGroups);
      var k := 0;
      while k < |u|
        invariant 0 <= k <= |u|
        modifies this`electrodeGroups
        invariant electrodeGroups.Keys == NamesOf(u[..k])
        invariant forall n :: n in electrodeGroups ==> electrodeGroups[n] == ElectrodeGroup("no description", "unknown", device)
      {
        NamesOfNext(u, k);
        electrodeGroups := electrodeGroups[IntToString(u[k]) := ElectrodeGroup("no description", "unknown", device)];
        k := k + 1;
      }
      assert u[..k] == u;
      NamesOfUnique(rec);
      FallbackGroupsUnique(electrodeGroups, rec, device);
    }

    /** `add_electrode_groups(recording, nwbfile, metadata)`. It first makes sure a device
        exists, fills the metadata's `ElectrodeGroup` list with one default entry per channel
        group when it has none, creates the group of every entry whose name is missing, and
        finally, if the file still has no group, creates one per channel group linked to the
        first device. The outcome and the groups are those of `GroupsAfter`. */
    method AddElectrodeGroups(rec: Recording, md: MetadataDict?) returns (out: Outcome)
      requires Valid()
      modifies this, md
      ensures Valid()
      ensures hasElectrodeTable == old(hasElectrodeTable) && processing == old(processing)
      ensures acquisition == old(acquisition) && epochs == old(epochs)
      ensures devices == DevicesEnsured(old(devices)) && DevicesKept(old(devices), devices)
      ensures GroupsKept(old(electrodeGroups), electrodeGroups)
      ensures out.Fail? ==> out.error == IndexError || out.error == AttributeError
      ensures md != null ==>
        md.ecephys == Some(WithGroupDefaults(old(md.ecephys), GroupDefaults(rec, devices.order[0])))
      ensures var expected := GroupsAfter(rec, devices, old(electrodeGroups),
                                GroupEntries(old(EcephysOf(md)), GroupDefaults(rec, devices.order[0])));
        (out.Pass? <==> expected.Ok?)
        && (out.Pass? ==> electrodeGroups == expected.value)
        && (out.Fail? ==> out.error == expected.error)
    {
      if devices.order == [] {
        out := AddDevices(null);
      }
      var first := devices.order[0];
      var defaults := GroupDefaults(rec, first);
      var entries: seq<Fields>;
      if md != null {
        var e := WithGroupDefaults(md.ecephys, defaults);
        md.ecephys := Some(e);
        entries := e.electrodeGroup.value;
      } else {
        entries := defaults;
      }
      out := CreateGroupsFrom(rec, entries);
    }

    /** The part of `add_electrode_groups` after the devices and the entries are settled: the
        entry loop, then the fallback groups if the file still has none. */
    method CreateGroupsFrom(rec: Recording, entries: seq<Fields>) returns (out: Outcome)
      requires Valid() && |devices.order| > 0
      modifies this
      ensures Valid()
      ensures devices == old(devices) && hasElectrodeTable == old(hasElectrodeTable)
      ensures processing == old(processing) && acquisition == old(acquisition) && epochs == old(epochs)
      ensures GroupsKept(old(electrodeGroups), electrodeGroups)
      ensures out.Fail? ==> out.error == IndexError || out.error == AttributeError
      ensures var expected := GroupsAfter(rec, devices, old(electrodeGroups), entries);
        (out.Pass? <==> expected.Ok?)
        && (out.Pass? ==> electrodeGroups == expected.value)
        && (out.Fail? ==> out.error == expected.error)
    {
      var first := devices.order[0];
      var defaults := GroupDefaults(rec, first);
      if |entries| > 0 && |defaults| == 0 {
        return Fail(IndexError);
      }
      if |defaults| > 0 {
        out := CreateEntryGroups(entries, defaults[0]);
        if out.Fail? {
          return;
        }
      }
      if electrodeGroups == map[] {
        if |defaults| == 0 {
          return Fail(IndexError);
        }
        CreateFallbackGroups(rec, first);
      }
      return Pass;
    }

    /** `add_electrode_column(name, description)`; the electrode table is created if needed. */
    method AddElectrodeColumn(name: string, description: string)
      requires Valid()
      modifies this`hasElectrodeTable, electrodes
      ensures Valid() && hasElectrodeTable
      ensures electrodes.ids == old(electrodes.ids)
      ensures name in old(electrodes.columns) ==> electrodes.columns == old(electrodes.columns)
      ensures name !in old(electrodes.columns) ==>
        electrodes.columns == old(electrodes.columns)[name := Column(description, seq(|electrodes.ids|, _ => Missing), false)]
    {
      electrodes.AddColumn(name, description);
      hasElectrodeTable := true;
    }

    /** `add_electrode(id=id, **row)`; the electrode table is created if needed. */
    method AddElectrode(id: int, row: map<string, Value>)
      requires Valid()
      modifies this, electrodes
      ensures Valid() && hasElectrodeTable
      ensures electrodes.ids == old(electrodes.ids) + [id]
      ensures Extends(old(electrodes.columns), electrodes.columns)
      ensures forall c :: c in row ==> CellIs(electrodes.columns, c, |old(electrodes.ids)|, row[c])
      ensures devices == old(devices) && electrodeGroups == old(electrodeGroups) && processing == old(processing)
      ensures acquisition == old(acquisition) && epochs == old(epochs)
    {
      electrodes.AddRow(id, row);
      hasElectrodeTable := true;
    }

    /** Adds a column for every entry of `cols` that is not one of the default columns. */
    method AddElectrodeColumns(cols: map<string, ColumnData>)
      requires Valid()
      modifies this`hasElectrodeTable, electrodes
      ensures Valid()
      ensures electrodes.ids == old(electrodes.ids)
      ensures electrodes.columns.Keys == old(electrodes.columns).Keys + (cols.Keys - ElectrodeDefaults.Keys)
      ensures forall c :: c in old(electrodes.columns) ==> electrodes.columns[c] == old(electrodes.columns)[c]
      ensures forall c :: c in cols && c !in ElectrodeDefaults && c !in old(electrodes.columns) ==>
        electrodes.columns[c] == Column(cols[c].description, seq(|electrodes.ids|, _ => Missing), false)
      ensures hasElectrodeTable == (old(hasElectrodeTable) || cols.Keys - ElectrodeDefaults.Keys != {})
    {
      var todo := cols.Keys;
      while todo != {}
        invariant todo <= cols.Keys
        invariant Valid()
        invariant electrodes.ids == old(electrodes.ids)
        invariant electrodes.columns.Keys == old(electrodes.columns).Keys + (cols.Keys - todo - ElectrodeDefaults.Keys)
        invariant forall c :: c in old(electrodes.columns) ==> electrodes.columns[c] == old(electrodes.columns)[c]
        invariant forall c :: c in cols && c !in todo && c !in ElectrodeDefaults && c !in old(electrodes.columns) ==>
          electrodes.columns[c] == Column(cols[c].description, seq(|electrodes.ids|, _ => Missing), false)
        invariant hasElectrodeTable == (old(hasElectrodeTable) || cols.Keys - todo - ElectrodeDefaults.Keys != {})
        decreases todo
      {
        var name :| name in todo;
        if name !in ElectrodeDefaults {
          AddElectrodeColumn(name, cols[name].description);
        }
        todo := todo - {name};
      }
    }

    /** The group-column branch of the row loop of `add_electrodes`: a group name the file does
        not have is added through spikeextractors' `add_electrode_groups`, modelled by this
        file's own, with a single entry linked to the device "Device", after which the lookup
        `nwbfile.electrode_groups[name]` must succeed. */
    method EnsureGroup(rec: Recording, name: string) returns (out: Outcome)
      requires Valid()
      modifies this
      ensures Valid()
      ensures hasElectrodeTable == old(hasElectrodeTable) && processing == old(processing)
      ensures acquisition == old(acquisition) && epochs == old(epochs)
      ensures GroupsKept(old(electrodeGroups), electrodeGroups) && DevicesKept(old(devices), devices)
      ensures out.Pass? ==> name in electrodeGroups
      ensures out.Fail? ==> out.error in {IndexError, AttributeError, KeyError}
      ensures name in old(electrodeGroups) ==> out == Pass && electrodeGroups == old(electrodeGroups) && devices == old(devices)
    {
      if name !in electrodeGroups {
        var missing := new MetadataDict(Some(Ecephys(None, Some([GroupFields(name, "Device")]), None, map[])));
        out := AddElectrodeGroups(rec, missing);
        if out.Fail? {
          return;
        }
      }
      if name !in electrodeGroups {
        return Fail(KeyError);
      }
      return Pass;
    }

    /** The body of the row loop of `add_electrodes` for channel `j`, which is not a row yet.
        A group column first makes sure the group it names for this channel exists (through
        `add_electrode_groups` with a single entry linked to the device "Device"). The row then
        takes the defaults and the `j`-th entry of every data column. Since the metadata's
        column entries have lost their names, the group is always the channel's own group in
        the recording: if the file has it, the row is added linked to it, otherwise the channel
        is skipped. */
    method AddElectrodeRow(rec: Recording, cols: map<string, ColumnData>, j: nat) returns (out: Outcome)
      requires Valid() && rec.Valid() && j < rec.NumChannels()
      requires forall c :: c in cols ==> cols[c].data.Some?
      requires "group" !in cols
      modifies this, electrodes
      ensures Valid()
      ensures processing == old(processing) && acquisition == old(acquisition) && epochs == old(epochs)
      ensures GroupsKept(old(electrodeGroups), electrodeGroups) && DevicesKept(old(devices), devices)
      ensures old(hasElectrodeTable) ==> hasElectrodeTable
      ensures Extends(old(electrodes.columns), electrodes.columns)
      ensures out.Fail? ==> out.error in {IndexError, AttributeError, KeyError}
      ensures RowValues(cols, j).Err? ==> out.Fail?
      ensures out.Fail? || IntToString(rec.channelGroups[j]) !in electrodeGroups ==>
        electrodes.ids == old(electrodes.ids) && electrodes.columns == old(electrodes.columns)
      ensures out.Pass? && IntToString(rec.channelGroups[j]) in electrodeGroups ==>
        hasElectrodeTable && electrodes.ids == old(electrodes.ids) + [rec.channelIds[j]]
        && NewRow(rec, cols, electrodes.columns, electrodeGroups, |old(electrodes.ids)|, j)
    {
      if GroupColumn in cols {
        var name := ValueToString(ListGet(cols[GroupColumn].data.value, j, Str("0")));
        out := EnsureGroup(rec, name);
        if out.Fail? {
          return;
        }
      }
      var cells := RowCells(cols, j);
      if cells.Err? {
        return Fail(cells.error);
      }
      var group := IntToString(rec.channelGroups[j]);
      if group in electrodeGroups {
        AddLinkedRow(rec.channelIds[j], group, cells.value);
      }
      return Pass;
    }

    /** `add_electrode` for a row of cells linked to the existing group `group`: the row's
        `group_name` and `group` cells name the group, every other cell is as given. */
    method AddLinkedRow(id: int, group: string, cells: map<string, Value>)
      requires Valid() && group in electrodeGroups
      modifies this, electrodes
      ensures Valid() && hasElectrodeTable
      ensures devices == old(devices) && electrodeGroups == old(electrodeGroups) && processing == old(processing)
      ensures acquisition == old(acquisition) && epochs == old(epochs)
      ensures electrodes.ids == old(electrodes.ids) + [id]
      ensures Extends(old(electrodes.columns), electrodes.columns)
      ensures CellIs(electrodes.columns, GroupColumn, |old(electrodes.ids)|, Str(group))
      ensures CellIs(electrodes.columns, "group", |old(electrodes.ids)|, Str(group))
      ensures forall c :: c in cells && c != GroupColumn && c != "group" ==>
        CellIs(electrodes.columns, c, |old(electrodes.ids)|, cells[c])
    {
      var row := cells[GroupColumn := Str(group)]["group" := Str(group)];
      assert row[GroupColumn] == Str(group) && row["group"] == Str(group);
      assert forall c :: c in cells && c != GroupColumn && c != "group" ==> c in row && row[c] == cells[c];
      AddElectrode(id, row);
    }

    /** One iteration of the row loop of `add_electrodes`, for channel `j`: a channel whose id
        was not a row when the loop started is given a row, unless its group is missing. */
    method VisitChannel(rec: Recording, cols: map<string, ColumnData>, tableIds: seq<int>, j: nat, ghost rows: seq<nat>)
      returns (out: Outcome, ghost rows': seq<nat>)
      requires Valid() && rec.Valid() && j < rec.NumChannels()
      requires forall c :: c in cols ==> cols[c].data.Some?
      requires "group" !in cols
      requires RowsFor(rec, cols, tableIds, electrodes.ids, electrodes.columns, electrodeGroups, rows, j)
      modifies this, electrodes
      ensures Valid()
      ensures processing == old(processing) && acquisition == old(acquisition) && epochs == old(epochs)
      ensures GroupsKept(old(electrodeGroups), electrodeGroups) && DevicesKept(old(devices), devices)
      ensures old(hasElectrodeTable) ==> hasElectrodeTable
      ensures Extends(old(electrodes.columns), electrodes.columns)
      ensures |old(electrodes.ids)| <= |electrodes.ids| && electrodes.ids[..|old(electrodes.ids)|] == old(electrodes.ids)
      ensures RowsFor(rec, cols, tableIds, electrodes.ids, electrodes.columns, electrodeGroups, rows', j + 1)
      ensures out.Fail? ==> out.error in {IndexError, AttributeError, KeyError}
      ensures out.Pass? && rec.channelIds[j] !in tableIds ==> RowValues(cols, j).Ok?
      ensures out.Pass? && rec.channelIds[j] !in tableIds && IntToString(rec.channelGroups[j]) in old(electrodeGroups) ==>
        rec.channelIds[j] in electrodes.ids
    {
      out, rows' := Pass, rows;
      var appended := false;
      if rec.channelIds[j] !in tableIds {
        out := AddElectrodeRow(rec, cols, j);
        RowsForKept(rec, cols, tableIds, old(electrodes.ids), old(electrodes.columns), electrodes.columns,
                    old(electrodeGroups), electrodeGroups, rows, j, j);
        if out.Pass? && IntToString(rec.channelGroups[j]) in electrodeGroups {
          RowsForAppend(rec, cols, tableIds, old(electrodes.ids), electrodes.columns, electrodeGroups, rows, j);
          rows' := rows + [j];
          appended := true;
          assert electrodes.ids[|old(electrodes.ids)|] == rec.channelIds[j];
        }
      }
      if !appended {
        RowsForKept(rec, cols, tableIds, electrodes.ids, electrodes.columns, electrodes.columns,
                    electrodeGroups, electrodeGroups, rows, j, j + 1);
      }
    }

    /** The row loop of `add_electrodes`: every channel whose id was not a row when the loop
        started is visited in channel order and gets a row, unless its group is missing. */
    method AddElectrodeRows(rec: Recording, cols: map<string, ColumnData>) returns (out: Outcome)
      requires Valid() && rec.Valid()
      requires forall c :: c in cols ==> cols[c].data.Some?
      requires "group" !in cols
      modifies this, electrodes
      ensures Valid()
      ensures processing == old(processing) && acquisition == old(acquisition) && epochs == old(epochs)
      ensures GroupsKept(old(electrodeGroups), electrodeGroups) && DevicesKept(old(devices), devices)
      ensures old(hasElectrodeTable) ==> hasElectrodeTable
      ensures Extends(old(electrodes.columns), electrodes.columns)
      ensures RowsAppended(rec, cols, old(electrodes.ids), electrodes.ids, electrodes.columns, electrodeGroups)
      ensures Distinct(old(electrodes.ids)) && Distinct(rec.channelIds) ==> Distinct(electrodes.ids)
      ensures out.Fail? ==> out.error in {IndexError, AttributeError, KeyError}
      ensures out.Pass? ==> Visited(rec, cols, old(electrodes.ids), electrodes.ids, old(electrodeGroups), rec.NumChannels())
    {
      var tableIds := electrodes.ids;
      ghost var rows: seq<nat> := [];
      out := Pass;
      var j := 0;
      ghost var bound := 0;
      while j < |rec.channelIds|
        invariant 0 <= j <= |rec.channelIds| && bound == j
        invariant Valid() && out == Pass
        invariant processing == old(processing) && acquisition == old(acquisition) && epochs == old(epochs)
        invariant GroupsKept(old(electrodeGroups), electrodeGroups) && DevicesKept(old(devices), devices)
        invariant old(hasElectrodeTable) ==> hasElectrodeTable
        invariant Extends(old(electrodes.columns), electrodes.columns)
        invariant RowsFor(rec, cols, tableIds, electrodes.ids, electrodes.columns, electrodeGroups, rows, bound)
        invariant Visited(rec, cols, tableIds, electrodes.ids, old(electrodeGroups), j)
      {
        ghost var ids0, columns0, groups0, devices0 := electrodes.ids, electrodes.columns, electrodeGroups, devices;
        out, rows := VisitChannel(rec, cols, tableIds, j, rows);
        bound := j + 1;
        ExtendsTrans(old(electrodes.columns), columns0, electrodes.columns);
        GroupsKeptTrans(old(electrodeGroups), groups0, electrodeGroups);
        DevicesKeptTrans(old(devices), devices0, devices);
        if out.Fail? {
          break;
        }
        VisitedNext(rec, cols, tableIds, ids0, electrodes.ids, old(electrodeGroups), j);
        j := j + 1;
      }
      RowsForAppended(rec, cols, tableIds, electrodes.ids, electrodes.columns, electrodeGroups, rows, bound);
      RowsForDistinctIfDistinct(rec, cols, tableIds, electrodes.ids, electrodes.columns, electrodeGroups, rows, bound);
    }

    /** `add_electrodes` once the file has electrode groups: checks the metadata's column
        entries, builds the columns from the channel properties and the entries, adds a column
        for each that is not a default one, gives every channel that is not a row yet a row
        linked to its group, and requires the table to exist at the end. */
    method FillElectrodeTable(rec: Recording, md: MetadataDict?, exclude: seq<string>) returns (out: Outcome)
      requires Valid() && rec.Valid()
      modifies this, electrodes, md
      ensures Valid()
      ensures processing == old(processing) && acquisition == old(acquisition) && epochs == old(epochs)
      ensures GroupsKept(old(electrodeGroups), electrodeGroups) && DevicesKept(old(devices), devices)
      ensures Extends(old(electrodes.columns), electrodes.columns)
      ensures |old(electrodes.ids)| <= |electrodes.ids| && electrodes.ids[..|old(electrodes.ids)|] == old(electrodes.ids)
      ensures Distinct(old(electrodes.ids)) && Distinct(rec.channelIds) ==> Distinct(electrodes.ids)
      ensures out.Fail? ==> out.error in {IndexError, AttributeError, KeyError} || out.error.AssertionError?
      ensures EntryErrors(SpecsIn(old(EcephysOf(md))), rec.NumChannels(), out)
      ensures out == Fail(AssertionError("electrode table")) ==> !old(hasElectrodeTable)
      ensures out.Pass? ==>
        hasElectrodeTable
        && (md != null ==> md.ecephys.Some? && md.ecephys.value.electrodes == Some(PopNames(SpecsIn(old(EcephysOf(md))))))
        && ElectrodesFilled(rec, exclude, SpecsIn(old(EcephysOf(md))), old(electrodes.ids), electrodes.ids,
                            electrodes.columns, electrodeGroups, old(electrodeGroups))
    {
      ghost var specs := SpecsIn(EcephysOf(md));
      ghost var columns0 := electrodes.columns;
      var r := PrepareColumns(rec, md, exclude);
      if r.Err? {
        return Fail(r.error);
      }
      var cols := r.value;
      AddElectrodeColumns(cols);
      ExtendsFromKept(columns0, electrodes.columns);
      ghost var columns1, groups1, devices1 := electrodes.columns, electrodeGroups, devices;
      out := AddElectrodeRows(rec, cols);
      ExtendsTrans(columns0, columns1, electrodes.columns);
      if out.Fail? {
        return;
      }
      if !hasElectrodeTable {
        return Fail(AssertionError("electrode table"));
      }
      assert MergedColumnsOf(rec, exclude, specs, cols);
    }

    /** The first step of `add_electrodes`: a file without electrode groups gets them from
        spikeextractors' `add_electrode_groups`, modelled by this file's own; a file with
        groups is left as it is. The metadata's column entries are not touched. */
    method GroupsForElectrodes(rec: Recording, md: MetadataDict?) returns (out: Outcome)
      requires Valid()
      modifies this, md
      ensures Valid()
      ensures hasElectrodeTable == old(hasElectrodeTable) && processing == old(processing)
      ensures acquisition == old(acquisition) && epochs == old(epochs)
      ensures GroupsKept(old(electrodeGroups), electrodeGroups) && DevicesKept(old(devices), devices)
      ensures out.Fail? ==> old(electrodeGroups) == map[] && (out.error == IndexError || out.error == AttributeError)
      ensures out.Pass? ==> electrodeGroups == GroupsBeforeRows(rec, old(devices), old(electrodeGroups), old(EcephysOf(md)))
      ensures SpecsIn(EcephysOf(md)) == SpecsIn(old(EcephysOf(md)))
    {
      out := Pass;
      if electrodeGroups == map[] {
        out := AddElectrodeGroups(rec, md);
      }
    }

    /** `add_electrodes`: a file without electrode groups first gets them from
        `add_electrode_groups`; then the table is filled as by `FillElectrodeTable`. */
    method AddElectrodes(rec: Recording, md: MetadataDict?, exclude: seq<string>) returns (out: Outcome)
      requires Valid() && rec.Valid()
      modifies this, electrodes, md
      ensures Valid()
      ensures processing == old(processing) && acquisition == old(acquisition) && epochs == old(epochs)
      ensures GroupsKept(old(electrodeGroups), electrodeGroups) && DevicesKept(old(devices), devices)
      ensures Extends(old(electrodes.columns), electrodes.columns)
      ensures |old(electrodes.ids)| <= |electrodes.ids| && electrodes.ids[..|old(electrodes.ids)|] == old(electrodes.ids)
      ensures Distinct(old(electrodes.ids)) && Distinct(rec.channelIds) ==> Distinct(electrodes.ids)
      ensures out.Fail? ==> out.error in {IndexError, AttributeError, KeyError} || out.error.AssertionError?
      ensures old(electrodeGroups) != map[] ==> EntryErrors(SpecsIn(old(EcephysOf(md))), rec.NumChannels(), out)
      ensures out == Fail(AssertionError("electrode table")) ==> !old(hasElectrodeTable)
      ensures out.Pass? ==>
        hasElectrodeTable
        && (md != null ==> md.ecephys.Some? && md.ecephys.value.electrodes == Some(PopNames(SpecsIn(old(EcephysOf(md))))))
        && ElectrodesFilled(rec, exclude, SpecsIn(old(EcephysOf(md))), old(electrodes.ids), electrodes.ids, electrodes.columns,
                            electrodeGroups, GroupsBeforeRows(rec, old(devices), old(electrodeGroups), old(EcephysOf(md))))
    {
      out := GroupsForElectrodes(rec, md);
      if out.Fail? {
        return;
      }
      ghost var groups0, devices0 := electrodeGroups, devices;
      out := FillElectrodeTable(rec, md, exclude);
      GroupsKeptTrans(old(electrodeGroups), groups0, electrodeGroups);
      DevicesKeptTrans(old(devices), devices0, devices);
    }

    /** The destination checks of `add_electrical_series` for a processed or LFP series:
        `check_module` for the `ecephys` module, then the `Processed` or `LFP` interface is
        added to it unless it is there. */
    method PrepareDestination(w: WriteAs)
      requires Valid() && !w.Raw?
      modifies this
      ensures Valid()
      ensures processing == WithInterface(old(processing), w)
      ensures devices == old(devices) && electrodeGroups == old(electrodeGroups)
      ensures hasElectrodeTable == old(hasElectrodeTable) && acquisition == old(acquisition) && epochs == old(epochs)
    {
      var m := CheckModule(EcephysModule, Some(EcephysDescription));
      if InterfaceName(w) !in m.interfaces {
        processing := processing[EcephysModule := m.(interfaces := m.interfaces[InterfaceName(w) := map[]])];
      }
    }

    /** `add_acquisition(es)` for a raw series, `add_electrical_series(es)` on the interface for a
        processed or LFP one: the series is stored under its name where its kind goes, and what
        is stored for the other kinds does not change. */
    method StoreSeries(es: ElectricalSeries)
      requires Valid()
      requires !es.writeAs.Raw? ==> EcephysModule in processing && InterfaceName(es.writeAs) in processing[EcephysModule].interfaces
      modifies this
      ensures Valid()
      ensures SeriesAt(processing, acquisition, es.writeAs) == old(SeriesAt(processing, acquisition, es.writeAs))[es.name := es]
      ensures forall w :: w != es.writeAs ==> SeriesAt(processing, acquisition, w) == old(SeriesAt(processing, acquisition, w))
      ensures processing.Keys == old(processing).Keys
      ensures forall n :: n in processing ==> processing[n].description == old(processing)[n].description
      ensures devices == old(devices) && electrodeGroups == old(electrodeGroups)
      ensures hasElectrodeTable == old(hasElectrodeTable) && epochs == old(epochs)
    {
      if es.writeAs.Raw? {
        acquisition := acquisition[es.name := es];
      } else {
        var m := processing[EcephysModule];
        var i := InterfaceName(es.writeAs);
        processing := processing[EcephysModule := m.(interfaces := m.interfaces[i := m.interfaces[i][es.name := es]])];
        assert forall w: WriteAs :: !w.Raw? && w != es.writeAs ==> InterfaceName(w) != i;
      }
    }

    /** The part of `add_electrical_series` after the `write_as` assertion: the destination
        checks, and the series built as by `BuildSeries` against the series already written
        where it goes, then stored there. What is stored for other kinds of series stays. */
    method WriteSeries(rec: Recording, md: MetadataDict?, bufferMb: int, useTimes: bool, w: WriteAs,
                       esKey: Option<string>, writeScaled: bool) returns (out: Outcome)
      requires Valid() && rec.Valid()
      modifies this
      ensures Valid()
      ensures devices == old(devices) && electrodeGroups == old(electrodeGroups)
      ensures hasElectrodeTable == old(hasElectrodeTable) && epochs == old(epochs)
      ensures var built := BuildSeries(rec, electrodes.ids, EcephysOf(md), esKey, w, bufferMb, useTimes, writeScaled,
                                       SeriesAt(old(processing), old(acquisition), w).Keys);
        (out.Pass? <==> built.Ok?) && (out.Fail? ==> out.error == built.error)
        && (built.Ok? ==> SeriesAt(processing, acquisition, w) == SeriesAt(old(processing), old(acquisition), w)[built.value.name := built.value])
      ensures forall w' :: w' != w ==> SeriesAt(processing, acquisition, w') == SeriesAt(old(processing), old(acquisition), w')
      ensures forall n :: n in old(processing) ==> n in processing && processing[n].description == old(processing)[n].description
      ensures EcephysModule !in old(processing) && EcephysModule in processing ==>
        processing[EcephysModule].description == EcephysDescription
    {
      if !w.Raw? {
        PrepareDestination(w);
        forall w' ensures SeriesAt(processing, acquisition, w') == SeriesAt(old(processing), acquisition, w') {
          WithInterfaceKeepsSeries(old(processing), acquisition, w, w');
        }
      }
      var e := if md == null then None else md.ecephys;
      out := BuildAndStore(rec, e, bufferMb, useTimes, w, esKey, writeScaled);
    }

    /** Builds the series as by `BuildSeries` against the series already written where it goes
        and, when that succeeds, stores it there. */
    method BuildAndStore(rec: Recording, e: Option<Ecephys>, bufferMb: int, useTimes: bool, w: WriteAs,
                         esKey: Option<string>, writeScaled: bool) returns (out: Outcome)
      requires Valid() && rec.Valid()
      requires !w.Raw? ==> EcephysModule in processing && InterfaceName(w) in processing[EcephysModule].interfaces
      modifies this
      ensures Valid()
      ensures devices == old(devices) && electrodeGroups == old(electrodeGroups)
      ensures hasElectrodeTable == old(hasElectrodeTable) && epochs == old(epochs)
      ensures var built := BuildSeries(rec, electrodes.ids, e, esKey, w, bufferMb, useTimes, writeScaled,
                                       SeriesAt(old(processing), old(acquisition), w).Keys);
        (out.Pass? <==> built.Ok?) && (out.Fail? ==> out.error == built.error)
        && (built.Ok? ==> SeriesAt(processing, acquisition, w) == SeriesAt(old(processing), old(acquisition), w)[built.value.name := built.value])
      ensures forall w' :: w' != w ==> SeriesAt(processing, acquisition, w') == SeriesAt(old(processing), old(acquisition), w')
      ensures processing.Keys == old(processing).Keys
      ensures forall n :: n in processing ==> processing[n].description == old(processing)[n].description
    {
      var built := BuildSeries(rec, electrodes.ids, e, esKey, w, bufferMb, useTimes, writeScaled, SeriesAt(processing, acquisition, w).Keys);
      if built.Err? {
        return Fail(built.error);
      }
      StoreSeries(built.value);
      return Pass;
    }

    /** The electrode step of `add_electrical_series`: `add_electrodes` runs, without
        exclusions, when the electrode table is absent or has no rows; otherwise nothing
        changes. */
    method ElectrodesForSeries(rec: Recording, md: MetadataDict?) returns (out: Outcome)
      requires Valid() && rec.Valid()
      modifies this, electrodes, md
      ensures Valid()
      ensures processing == old(processing) && acquisition == old(acquisition) && epochs == old(epochs)
      ensures GroupsKept(old(electrodeGroups), electrodeGroups) && DevicesKept(old(devices), devices)
      ensures Extends(old(electrodes.columns), electrodes.columns)
      ensures |old(electrodes.ids)| <= |electrodes.ids| && electrodes.ids[..|old(electrodes.ids)|] == old(electrodes.ids)
      ensures Distinct(old(electrodes.ids)) && Distinct(rec.channelIds) ==> Distinct(electrodes.ids)
      ensures old(hasElectrodeTable) && |old(electrodes.ids)| > 0 ==>
        out == Pass && electrodes.ids == old(electrodes.ids) && electrodes.columns == old(electrodes.columns)
        && electrodeGroups == old(electrodeGroups) && devices == old(devices) && EcephysOf(md) == old(EcephysOf(md))
      ensures out.Pass? ==> hasElectrodeTable
    {
      out := Pass;
      if !hasElectrodeTable || |electrodes.ids| == 0 {
        out := AddElectrodes(rec, md, []);
      }
    }

    /** `add_electrical_series`: the buffer must exceed 10 MB; a file whose electrode table is
        absent or empty first gets its electrodes; then the series is checked, built and stored
        as by `WriteSeries`. */
    method AddElectricalSeries(rec: Recording, md: MetadataDict?, bufferMb: int, useTimes: bool, writeAs: string,
                               esKey: Option<string>, writeScaled: bool) returns (out: Outcome)
      requires Valid() && rec.Valid()
      modifies this, electrodes, md
      ensures Valid() && epochs == old(epochs)
      ensures GroupsKept(old(electrodeGroups), electrodeGroups) && DevicesKept(old(devices), devices)
      ensures Extends(old(electrodes.columns), electrodes.columns)
      ensures |old(electrodes.ids)| <= |electrodes.ids| && electrodes.ids[..|old(electrodes.ids)|] == old(electrodes.ids)
      ensures Distinct(old(electrodes.ids)) && Distinct(rec.channelIds) ==> Distinct(electrodes.ids)
      ensures bufferMb <= 10 ==>
        out == Fail(AssertionError("buffer_mb")) && electrodes.ids == old(electrodes.ids)
        && processing == old(processing) && acquisition == old(acquisition)
      ensures old(hasElectrodeTable) && |old(electrodes.ids)| > 0 ==>
        electrodes.ids == old(electrodes.ids) && electrodes.columns == old(electrodes.columns)
        && electrodeGroups == old(electrodeGroups) && devices == old(devices)
      ensures bufferMb > 10 && old(hasElectrodeTable) && |old(electrodes.ids)| > 0 ==>
        out == SeriesOutcome(rec, old(electrodes.ids), old(EcephysOf(md)), esKey, writeAs, bufferMb, useTimes, writeScaled,
                             old(processing), old(acquisition))
      ensures out.Pass? ==>
        hasElectrodeTable
        && SeriesStored(rec, electrodes.ids, EcephysOf(md), esKey, writeAs, bufferMb, useTimes, writeScaled,
                        old(processing), old(acquisition), processing, acquisition)
      ensures forall w :: (ParseWriteAs(writeAs).Err? || w != ParseWriteAs(writeAs).value) ==>
        SeriesAt(processing, acquisition, w) == SeriesAt(old(processing), old(acquisition), w)
      ensures forall n :: n in old(processing) ==> n in processing && processing[n].description == old(processing)[n].description
      ensures EcephysModule !in old(processing) && EcephysModule in processing ==>
        processing[EcephysModule].description == EcephysDescription
    {
      if bufferMb <= 10 {
        return Fail(AssertionError("buffer_mb"));
      }
      out := ElectrodesForSeries(rec, md);
      if out.Fail? {
        return;
      }
      var parsed := ParseWriteAs(writeAs);
      if parsed.Err? {
        return Fail(parsed.error);
      }
      out := WriteSeries(rec, md, bufferMb, useTimes, parsed.value, esKey, writeScaled);
    }

    /** `add_epochs`: every epoch of the recording, in order, is upserted into the epoch table
        by its tag list. */
    method AddEpochs(rec: Recording)
      requires Valid()
      modifies this
      ensures Valid()
      ensures epochs == UpsertAll(old(epochs), rec.epochs)
      ensures devices == old(devices) && electrodeGroups == old(electrodeGroups) && hasElectrodeTable == old(hasElectrodeTable)
      ensures processing == old(processing) && acquisition == old(acquisition)
    {
      var i := 0;
      while i < |rec.epochs|
        modifies this`epochs
        invariant 0 <= i <= |rec.epochs|
        invariant epochs.Valid()
        invariant epochs == UpsertAll(old(epochs), rec.epochs[..i])
      {
        var e := rec.epochs[i];
        UpsertAllStep(old(epochs), rec.epochs, i);
        if !epochs.present {
          epochs := EpochTable(true, [[e.name]], [FrameTime(e.startFrame)], [FrameTime(e.endFrame - 1)]);
        } else if [e.name] in epochs.tags {
          var k := IndexOf(epochs.tags, [e.name]);
          epochs := epochs.(start := epochs.start[k := FrameTime(e.startFrame)], stop := epochs.stop[k := FrameTime(e.endFrame)]);
        } else {
          epochs := epochs.(tags := epochs.tags + [[e.name]], start := epochs.start + [FrameTime(e.startFrame)],
                            stop := epochs.stop + [FrameTime(e.endFrame)]);
        }
        i := i + 1;
      }
      assert rec.epochs[..i] == rec.epochs;
    }

    /** `add_all_to_nwbfile`: devices, electrode groups, electrodes (without exclusions), the
        electrical series and the epochs, in that order, each step's exception ending the call.
        On success the series is stored where its kind goes and every epoch has been upserted. */
    method AddAllToNwbFile(rec: Recording, md: MetadataDict?, bufferMb: int, useTimes: bool, writeAs: string,
                           esKey: Option<string>, writeScaled: bool) returns (out: Outcome)
      requires Valid() && rec.Valid()
      modifies this, electrodes, md
      ensures Valid()
      ensures GroupsKept(old(electrodeGroups), electrodeGroups) && DevicesKept(old(devices), devices)
      ensures Extends(old(electrodes.columns), electrodes.columns)
      ensures |old(electrodes.ids)| <= |electrodes.ids| && electrodes.ids[..|old(electrodes.ids)|] == old(electrodes.ids)
      ensures Distinct(old(electrodes.ids)) && Distinct(rec.channelIds) ==> Distinct(electrodes.ids)
      ensures out.Fail? ==> epochs == old(epochs)
      ensures out.Pass? ==>
        hasElectrodeTable && epochs == UpsertAll(old(epochs), rec.epochs)
        && SeriesStored(rec, electrodes.ids, EcephysOf(md), esKey, writeAs, bufferMb, useTimes, writeScaled,
                        old(processing), old(acquisition), processing, acquisition)
    {
      out := AddSetup(rec, md);
      if out.Fail? {
        return;
      }
      ghost var groups0, devices0, columns0 := electrodeGroups, devices, electrodes.columns;
      out := AddElectricalSeries(rec, md, bufferMb, useTimes, writeAs, esKey, writeScaled);
      GroupsKeptTrans(old(electrodeGroups), groups0, electrodeGroups);
      DevicesKeptTrans(old(devices), devices0, devices);
      ExtendsTrans(old(electrodes.columns), columns0, electrodes.columns);
      if out.Fail? {
        return;
      }
      AddEpochs(rec);
    }

    /** The first three steps of `add_all_to_nwbfile`: devices, electrode groups and electrodes.
        The series and epochs are not touched. */
    method AddSetup(rec: Recording, md: MetadataDict?) returns (out: Outcome)
      requires Valid() && rec.Valid()
      modifies this, electrodes, md
      ensures Valid()
      ensures processing == old(processing) && acquisition == old(acquisition) && epochs == old(epochs)
      ensures GroupsKept(old(electrodeGroups), electrodeGroups) && DevicesKept(old(devices), devices)
      ensures Extends(old(electrodes.columns), electrodes.columns)
      ensures |old(electrodes.ids)| <= |electrodes.ids| && electrodes.ids[..|old(electrodes.ids)|] == old(electrodes.ids)
      ensures Distinct(old(electrodes.ids)) && Distinct(rec.channelIds) ==> Distinct(electrodes.ids)
      ensures out.Pass? ==> hasElectrodeTable
    {
      out := AddDevices(md);
      if out.Fail? {
        return;
      }
      ghost var devices0 := devices;
      out := AddElectrodeGroups(rec, md);
      DevicesKeptTrans(old(devices), devices0, devices);
      if out.Fail? {
        return;
      }
      ghost var groups1, devices1 := electrodeGroups, devices;
      out := AddElectrodes(rec, md, []);
      GroupsKeptTrans(old(electrodeGroups), groups1, electrodeGroups);
      DevicesKeptTrans(old(devices), devices1, devices);
    }
  }
}
