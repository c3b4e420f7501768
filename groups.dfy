/**
  Electrode groups and what `add_electrode_groups` does to them, as functions of the
  recording, the devices and the group entries of the metadata.
 */
module Groups {
  import opened Values
  import opened Recordings
  import opened Metadata
  import opened Devices

  datatype ElectrodeGroup = ElectrodeGroup(description: string, location: string, device: string)

  /** `create_electrode_group(**kwargs)` */
  function GroupOf(kwargs: Fields): ElectrodeGroup {
    ElectrodeGroup(Get(kwargs, "description", ""), Get(kwargs, "location", ""), Get(kwargs, "device", ""))
  }

  /** The group an entry creates links to the device it was looked up with. */
  lemma GroupOfDevice(grp: Fields, d0: Fields)
    ensures GroupOf(d0 + grp).device == EntryDevice(grp, d0)
  {
    if "device" !in grp && "device" !in d0 {
      assert "device" !in d0 + grp;
    }
  }

  /** The name a group entry is looked up and created under, given `defaults[0]`. */
  function EntryName(grp: Fields, d0: Fields): string {
    Get(grp, "name", Get(d0, "name", ""))
  }

  /** The device a group entry links to, given `defaults[0]`. */
  function EntryDevice(grp: Fields, d0: Fields): string {
    Get(grp, "device", Get(d0, "device", ""))
  }

  /** The names of the recording's channel groups, `str(group)` for each. */
  function GroupNames(rec: Recording): set<string> {
    set g | g in rec.channelGroups :: IntToString(g)
  }

  /** The group entries `add_electrode_groups` walks: the metadata's own list when it has one,
      otherwise the defaults derived from the recording (which it also stores in the metadata). */
  function GroupEntries(e: Option<Ecephys>, defaults: seq<Fields>): seq<Fields> {
    if e.Some? && e.value.electrodeGroup.Some? then e.value.electrodeGroup.value else defaults
  }

  /** The loop over the group entries, with `d0` the first default entry: an entry whose name is
      absent creates a group from `d0` overridden by the entry's keys, provided its device
      exists; otherwise the device auto-creation path raises AttributeError (see
      `NwbFiles.NwbFile.AddElectrodeGroups`). An entry whose name is present changes nothing. */
  function CreateGroups(groups: map<string, ElectrodeGroup>, devices: set<string>, entries: seq<Fields>, d0: Fields)
    : (r: Result<map<string, ElectrodeGroup>>)
    decreases |entries|
  {
    if entries == [] then Ok(groups)
    else
      match CreateGroups(groups, devices, entries[..|entries| - 1], d0)
      case Err(e) => Err(e)
      case Ok(prev) => WithGroup(prev, devices, entries[|entries| - 1], d0)
  }

  /** One entry of the loop over the group entries. */
  function WithGroup(groups: map<string, ElectrodeGroup>, devices: set<string>, grp: Fields, d0: Fields)
    : Result<map<string, ElectrodeGroup>>
  {
    var name := EntryName(grp, d0);
    if name in groups then Ok(groups)
    else if EntryDevice(grp, d0) !in devices then Err(AttributeError)
    else Ok(groups[name := GroupOf(d0 + grp)])
  }

  /** Every electrode group of `groups` is still there, unchanged, in `groups'`. */
  predicate GroupsKept(groups: map<string, ElectrodeGroup>, groups': map<string, ElectrodeGroup>) {
    forall n :: n in groups ==> n in groups' && groups'[n] == groups[n]
  }

  lemma GroupsKeptTrans(a: map<string, ElectrodeGroup>, b: map<string, ElectrodeGroup>, c: map<string, ElectrodeGroup>)
    requires GroupsKept(a, b) && GroupsKept(b, c)
    ensures GroupsKept(a, c)
  {
  }

  /** The fallback groups: one per distinct channel group, named after it, without a
      description, at an unknown location, linked to `device`. */
  function FallbackGroups(rec: Recording, device: string): (r: map<string, ElectrodeGroup>)
    ensures r.Keys == GroupNames(rec)
    ensures forall n :: n in r ==> r[n] == ElectrodeGroup("no description", "unknown", device)
  {
    map n | n in GroupNames(rec) :: ElectrodeGroup("no description", "unknown", device)
  }

  /** The fallback groups are determined by their names and their common value. */
  lemma FallbackGroupsUnique(m: map<string, ElectrodeGroup>, rec: Recording, device: string)
    requires m.Keys == GroupNames(rec)
    requires forall n :: n in m ==> m[n] == ElectrodeGroup("no description", "unknown", device)
    ensures m == FallbackGroups(rec, device)
  {
  }

  /** The groups after `add_electrode_groups`, once the devices are non-empty: the entry loop,
      then, if the container still has no group at all, one group per channel group linked to
      the first device. `defaults[0]` raises IndexError for a recording without channels. */
  function GroupsAfter(rec: Recording, reg: Registry, groups: map<string, ElectrodeGroup>, entries: seq<Fields>)
    : (r: Result<map<string, ElectrodeGroup>>)
    requires |reg.order| > 0
  {
    var d := GroupDefaults(rec, reg.order[0]);
    if |entries| > 0 && |d| == 0 then Err(IndexError)
    else
      var created := if |d| == 0 then Ok(groups) else CreateGroups(groups, reg.byName.Keys, entries, d[0]);
      match created
      case Err(e) => Err(e)
      case Ok(g) =>
        if g != map[] then Ok(g)
        else if |d| == 0 then Err(IndexError)
        else Ok(FallbackGroups(rec, reg.order[0]))
  }

  // ---------------------------------------------------------------------------
  // Properties of the entry loop

  /** Groups that exist are never recreated or changed. */
  lemma {:induction false} CreateGroupsKeeps(groups: map<string, ElectrodeGroup>, devices: set<string>, entries: seq<Fields>, d0: Fields)
    requires CreateGroups(groups, devices, entries, d0).Ok?
    ensures forall n :: n in groups ==>
      n in CreateGroups(groups, devices, entries, d0).value && CreateGroups(groups, devices, entries, d0).value[n] == groups[n]
    decreases |entries|
  {
    if entries != [] {
      CreateGroupsKeeps(groups, devices, entries[..|entries| - 1], d0);
    }
  }

  /** Every entry's name is a group afterwards. */
  lemma {:induction false} CreateGroupsCovers(groups: map<string, ElectrodeGroup>, devices: set<string>, entries: seq<Fields>, d0: Fields)
    requires CreateGroups(groups, devices, entries, d0).Ok?
    ensures forall grp :: grp in entries ==> EntryName(grp, d0) in CreateGroups(groups, devices, entries, d0).value
    decreases |entries|
  {
    if entries != [] {
      var init := entries[..|entries| - 1];
      CreateGroupsCovers(groups, devices, init, d0);
      assert forall grp :: grp in entries ==> grp in init || grp == entries[|entries| - 1];
    }
  }

  /** Groups link only to existing devices, if they did before. */
  lemma {:induction false} CreateGroupsLinked(groups: map<string, ElectrodeGroup>, devices: set<string>, entries: seq<Fields>, d0: Fields)
    requires forall n :: n in groups ==> groups[n].device in devices
    requires CreateGroups(groups, devices, entries, d0).Ok?
    ensures forall n :: n in CreateGroups(groups, devices, entries, d0).value ==>
      CreateGroups(groups, devices, entries, d0).value[n].device in devices
    decreases |entries|
  {
    if entries != [] {
      CreateGroupsLinked(groups, devices, entries[..|entries| - 1], d0);
    }
  }

  /** One more entry of the loop: it creates its group exactly when the name is absent and
      the device exists, and raises AttributeError when the name is absent and the device is
      not. */
  lemma CreateGroupsStep(groups: map<string, ElectrodeGroup>, devices: set<string>, entries: seq<Fields>, d0: Fields, i: nat)
    requires i < |entries| && CreateGroups(groups, devices, entries[..i], d0).Ok?
    ensures CreateGroups(groups, devices, entries[..i + 1], d0) ==
      WithGroup(CreateGroups(groups, devices, entries[..i], d0).value, devices, entries[i], d0)
  {
    assert entries[..i + 1][..i] == entries[..i];
  }

  /** Once an entry raises, the loop stops with that error. */
  lemma {:induction false} CreateGroupsErrSticks(groups: map<string, ElectrodeGroup>, devices: set<string>, entries: seq<Fields>, d0: Fields, m: nat)
    requires m <= |entries| && CreateGroups(groups, devices, entries[..m], d0).Err?
    ensures CreateGroups(groups, devices, entries, d0) == CreateGroups(groups, devices, entries[..m], d0)
    decreases |entries| - m
  {
    if m < |entries| {
      var n := |entries| - 1;
      if m < n {
        assert entries[..n][..m] == entries[..m];
        CreateGroupsErrSticks(groups, devices, entries[..n], d0, m);
      } else {
        assert entries[..m] == entries[..n];
      }
    } else {
      assert entries[..m] == entries;
    }
  }

  /** When every entry's device exists, the loop raises nothing. */
  lemma {:induction false} CreateGroupsSucceeds(groups: map<string, ElectrodeGroup>, devices: set<string>, entries: seq<Fields>, d0: Fields)
    requires forall grp :: grp in entries ==> EntryDevice(grp, d0) in devices
    ensures CreateGroups(groups, devices, entries, d0).Ok?
    decreases |entries|
  {
    if entries != [] {
      var init := entries[..|entries| - 1];
      assert forall grp :: grp in init ==> grp in entries;
      CreateGroupsSucceeds(groups, devices, init, d0);
      assert entries[|entries| - 1] in entries;
    }
  }

  // ---------------------------------------------------------------------------
  // Properties of the whole operation

  /** After a successful call the container has at least one electrode group. */
  lemma GroupsAfterNonEmpty(rec: Recording, reg: Registry, groups: map<string, ElectrodeGroup>, entries: seq<Fields>)
    requires |reg.order| > 0
    requires GroupsAfter(rec, reg, groups, entries).Ok?
    ensures GroupsAfter(rec, reg, groups, entries).value != map[]
  {
    var u := Unique(rec.channelGroups);
    if |u| > 0 {
      assert u[0] in rec.channelGroups;
      assert IntToString(u[0]) in GroupNames(rec);
      assert IntToString(u[0]) in FallbackGroups(rec, reg.order[0]);
    }
    assert |GroupDefaults(rec, reg.order[0])| == |u|;
  }

  /** Existing groups are kept as they are: a group is only ever created under an absent name. */
  lemma GroupsAfterKeeps(rec: Recording, reg: Registry, groups: map<string, ElectrodeGroup>, entries: seq<Fields>)
    requires |reg.order| > 0
    requires GroupsAfter(rec, reg, groups, entries).Ok?
    ensures forall n :: n in groups ==>
      n in GroupsAfter(rec, reg, groups, entries).value && GroupsAfter(rec, reg, groups, entries).value[n] == groups[n]
  {
    var d := GroupDefaults(rec, reg.order[0]);
    if |d| > 0 {
      CreateGroupsKeeps(groups, reg.byName.Keys, entries, d[0]);
    }
  }

  /** Every group entry's name is a group afterwards. */
  lemma GroupsAfterCovers(rec: Recording, reg: Registry, groups: map<string, ElectrodeGroup>, entries: seq<Fields>)
    requires |reg.order| > 0
    requires GroupsAfter(rec, reg, groups, entries).Ok?
    ensures forall grp :: grp in entries ==>
      EntryName(grp, GroupDefaults(rec, reg.order[0])[0]) in GroupsAfter(rec, reg, groups, entries).value
  {
    var d := GroupDefaults(rec, reg.order[0]);
    if |d| > 0 {
      CreateGroupsCovers(groups, reg.byName.Keys, entries, d[0]);
      CreateGroupsKeeps(groups, reg.byName.Keys, entries, d[0]);
    }
  }

  /** Every electrode group references an existing device, if that held before. */
  lemma GroupsAfterLinked(rec: Recording, reg: Registry, groups: map<string, ElectrodeGroup>, entries: seq<Fields>)
    requires reg.Valid() && |reg.order| > 0
    requires forall n :: n in groups ==> groups[n].device in reg.byName
    requires GroupsAfter(rec, reg, groups, entries).Ok?
    ensures forall n :: n in GroupsAfter(rec, reg, groups, entries).value ==>
      GroupsAfter(rec, reg, groups, entries).value[n].device in reg.byName
  {
    var d := GroupDefaults(rec, reg.order[0]);
    if |d| > 0 {
      CreateGroupsLinked(groups, reg.byName.Keys, entries, d[0]);
    }
    assert reg.order[0] in reg.byName;
  }

  /** A recording with channels whose group entries all name existing devices never makes the
      call raise. */
  lemma GroupsAfterSucceeds(rec: Recording, reg: Registry, groups: map<string, ElectrodeGroup>, entries: seq<Fields>)
    requires |reg.order| > 0 && |rec.channelGroups| > 0
    requires forall grp :: grp in entries ==> EntryDevice(grp, GroupDefaults(rec, reg.order[0])[0]) in reg.byName
    ensures GroupsAfter(rec, reg, groups, entries).Ok?
  {
    UniqueNonEmpty(rec.channelGroups);
    var d := GroupDefaults(rec, reg.order[0]);
    CreateGroupsSucceeds(groups, reg.byName.Keys, entries, d[0]);
  }

  /** A recording without channels makes the call raise IndexError unless groups already exist
      and there are no group entries to walk. */
  lemma GroupsAfterNoChannels(rec: Recording, reg: Registry, groups: map<string, ElectrodeGroup>, entries: seq<Fields>)
    requires |reg.order| > 0 && rec.channelGroups == []
    ensures GroupsAfter(rec, reg, groups, entries).Ok? <==> entries == [] && groups != map[]
    ensures GroupsAfter(rec, reg, groups, entries).Err? ==> GroupsAfter(rec, reg, groups, entries).error == IndexError
  {
  }

  /** On a container without groups and without group entries, the groups are exactly one per
      channel group, linked to the first device. */
  lemma GroupsAfterFallback(rec: Recording, reg: Registry, entries: seq<Fields>)
    requires |reg.order| > 0 && |rec.channelGroups| > 0 && entries == []
    ensures GroupsAfter(rec, reg, map[], entries).Ok?
    ensures GroupsAfter(rec, reg, map[], entries).value.Keys == GroupNames(rec)
    ensures forall n :: n in GroupNames(rec) ==> GroupsAfter(rec, reg, map[], entries).value[n].device == reg.order[0]
  {
    UniqueNonEmpty(rec.channelGroups);
  }

  /** A single entry for an absent group whose device does not exist always raises
      AttributeError: the auto-device path cannot create the device. */
  lemma MissingDeviceRaises(rec: Recording, reg: Registry, groups: map<string, ElectrodeGroup>, grp: Fields)
    requires |reg.order| > 0 && |rec.channelGroups| > 0
    requires EntryName(grp, GroupDefaults(rec, reg.order[0])[0]) !in groups
    requires EntryDevice(grp, GroupDefaults(rec, reg.order[0])[0]) !in reg.byName
    ensures GroupsAfter(rec, reg, groups, [grp]) == Err(AttributeError)
  {
    UniqueNonEmpty(rec.channelGroups);
    var d := GroupDefaults(rec, reg.order[0]);
    assert [grp][..0] == [];
    assert CreateGroups(groups, reg.byName.Keys, [grp], d[0]) == Err(AttributeError);
  }
}
