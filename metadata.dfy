/**
  The metadata dictionary the helpers read and partly rewrite. Only its `Ecephys` section is
  modelled: the `Device`, `ElectrodeGroup` and `Electrodes` lists, and the other entries,
  one of which may hold keyword overrides for an electrical series.
 */
module Metadata {
  import opened Values
  import opened Recordings

  /** `metadata['Ecephys']['Device']`: normally a list of dictionaries; the auto-device path of
      `add_electrode_groups` stores a single dictionary instead. */
  datatype DeviceSpec = DeviceList(entries: seq<Fields>) | DeviceDict(fields: Fields)

  /** One entry of `metadata['Ecephys']['Electrodes']`. `name`, `description` and `data` are
      the three keys the helpers know about; `otherKeys` are any further keys. */
  datatype ColumnSpec = ColumnSpec(
    name: Option<string>,
    description: Option<string>,
    data: Option<seq<Value>>,
    otherKeys: set<string>)
  {
    /** Exactly the keys `name`, `description` and `data`. */
    predicate WellFormed() {
      name.Some? && description.Some? && data.Some? && otherKeys == {}
    }
  }

  /** `metadata['Ecephys']`; `None` stands for a key that is not there. `series` holds the
      remaining entries (`ElectricalSeries` and the like), each a dictionary of overrides. */
  datatype Ecephys = Ecephys(
    device: Option<DeviceSpec>,
    electrodeGroup: Option<seq<Fields>>,
    electrodes: Option<seq<ColumnSpec>>,
    series: map<string, Fields>)

  /** `dict()` */
  const EmptyEcephys := Ecephys(None, None, None, map[])

  /** The caller's metadata dictionary. The helpers add missing sections to it and pop keys out
      of its column entries, so it is an object; `ecephys` is `None` when the dictionary has
      no `Ecephys` key. */
  class MetadataDict {
    var ecephys: Option<Ecephys>

    constructor (ecephys: Option<Ecephys>)
      ensures this.ecephys == ecephys
    {
      this.ecephys := ecephys;
    }
  }

  /** Keyword arguments of a default electrode group. */
  function GroupFields(name: string, device: string): Fields {
    map["name" := name, "description" := "no description", "location" := "unknown", "device" := device]
  }

  lemma GroupFieldsGet(name: string, device: string)
    ensures Get(GroupFields(name, device), "name", "") == name
    ensures Get(GroupFields(name, device), "device", "") == device
  {
  }

  /** One default electrode group per distinct channel group, in increasing group order,
      all linked to `device`. */
  function GroupDefaults(rec: Recording, device: string): seq<Fields> {
    var groups := Unique(rec.channelGroups);
    seq(|groups|, k requires 0 <= k < |groups| => GroupFields(IntToString(groups[k]), device))
  }

  /** The default groups are named after exactly the recording's channel groups. */
  lemma GroupDefaultsNames(rec: Recording, device: string)
    ensures |GroupDefaults(rec, device)| == |Unique(rec.channelGroups)|
    ensures forall f :: f in GroupDefaults(rec, device) ==> Get(f, "device", "") == device
    ensures forall g :: g in rec.channelGroups <==>
      exists f :: f in GroupDefaults(rec, device) && Get(f, "name", "") == IntToString(g)
  {
    var groups := GroupDefaults(rec, device);
    var u := Unique(rec.channelGroups);
    forall k | 0 <= k < |groups|
      ensures Get(groups[k], "name", "") == IntToString(u[k]) && Get(groups[k], "device", "") == device
    {
      GroupFieldsGet(IntToString(u[k]), device);
    }
    forall g | g in rec.channelGroups
      ensures exists f :: f in groups && Get(f, "name", "") == IntToString(g)
    {
      var k := IndexOf(u, g);
      assert groups[k] in groups;
    }
    forall g | exists f :: f in groups && Get(f, "name", "") == IntToString(g)
      ensures g in rec.channelGroups
    {
      var f :| f in groups && Get(f, "name", "") == IntToString(g);
      var k :| 0 <= k < |groups| && groups[k] == f;
      IntToStringInjective(u[k], g);
    }
  }

  /** `get_nwb_metadata(recording)`, `Ecephys` section: one device called "Device" and one
      electrode group per distinct channel group, named after the group and linked to it. */
  function GetNwbMetadata(rec: Recording): (e: Ecephys)
    ensures e.device.Some? && e.device.value.DeviceList?
    ensures e.device.value.entries == [map["name" := "Device", "description" := "no description"]]
    ensures e.electrodeGroup.Some? && e.electrodes.None?
    ensures |e.electrodeGroup.value| == |Unique(rec.channelGroups)|
    ensures forall f :: f in e.electrodeGroup.value ==> Get(f, "device", "") == "Device"
    ensures forall g :: g in rec.channelGroups <==>
      exists f :: f in e.electrodeGroup.value && Get(f, "name", "") == IntToString(g)
  {
    GroupDefaultsNames(rec, "Device");
    Ecephys(
      Some(DeviceList([map["name" := "Device", "description" := "no description"]])),
      Some(GroupDefaults(rec, "Device")),
      None,
      map[])
  }
}
