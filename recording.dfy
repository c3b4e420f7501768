/**
  The recording extractor as the spike_interface helpers see it: channel ids, the channel
  group of each channel, per-channel property dictionaries, gains, offsets, named epochs, the
  number of frames, whether its traces are a memory map, and the byte size of its sample type.
  The recording is only read, so it is a value.
 */
module Recordings {
  import opened Values

  /** `recording.get_epoch_info(name)`: start and end frame of a named epoch. */
  datatype Epoch = Epoch(name: string, startFrame: int, endFrame: int)

  datatype Recording = Recording(
    channelIds: seq<int>,
    channelGroups: seq<int>,
    properties: seq<map<string, Value>>,
    gains: seq<int>,
    offsets: seq<int>,
    epochs: seq<Epoch>,
    numFrames: nat,
    memmapped: bool,
    itemsize: nat)
  {
    /** The per-channel sequences run parallel to the channel ids. */
    predicate Valid() {
      |channelGroups| == |channelIds| && |properties| == |channelIds|
      && |gains| == |channelIds| && |offsets| == |channelIds|
    }

    function NumChannels(): nat {
      |channelIds|
    }

    /** Some channel carries the property `prop`. */
    ghost predicate HasProperty(prop: string) {
      exists j :: 0 <= j < |properties| && prop in properties[j]
    }
  }

  /** The electrode-table column name of a channel property: `brain_area` becomes
      `location` and `group` becomes `group_name`. */
  function ColumnName(prop: string): string {
    if prop == "brain_area" then "location" else if prop == "group" then "group_name" else prop
  }

  /** No property becomes a column called `group`. */
  lemma NoColumnNamedGroup()
    ensures forall p :: ColumnName(p) != "group"
  {
    forall p ensures ColumnName(p) != "group" {
      if p != "brain_area" && p != "group" {
        assert ColumnName(p) == p;
      }
    }
  }

  /** Channel properties that never become electrode columns of their own. */
  predicate Skipped(prop: string, exclude: seq<string>) {
    prop in ["gain", "offset", "location", "name"] + exclude
  }

  /** The column data that `add_electrodes` builds for one property, channel by channel, as the
      code is written: a channel with the property contributes its value; a channel without it
      contributes "" after a string, NaN after anything else, and nothing at all while the
      column is still empty. */
  function FillAsWritten(props: seq<map<string, Value>>, prop: string): (data: seq<Value>)
    decreases |props|
  {
    if props == [] then []
    else
      var data := FillAsWritten(props[..|props| - 1], prop);
      var last := props[|props| - 1];
      if prop in last then data + [last[prop]]
      else if data == [] then data
      else if data[|data| - 1].Str? then data + [Str("")]
      else data + [Missing]
  }

  /** The index of the first channel that carries `prop`, or the number of channels. */
  function FirstWith(props: seq<map<string, Value>>, prop: string): (k: nat)
    ensures k <= |props|
    ensures k < |props| ==> prop in props[k]
    ensures forall j :: 0 <= j < k ==> prop !in props[j]
    decreases |props|
  {
    if props == [] then 0
    else
      var k := FirstWith(props[..|props| - 1], prop);
      if k < |props| - 1 then k
      else if prop in props[|props| - 1] then |props| - 1
      else |props|
  }

  /** The shape of the filled column: channels before the first one carrying the property are
      dropped, so the column is shorter than the channel list by exactly that many entries;
      from there on entry `j - first` belongs to channel `j` and holds its value, or a filler
      that follows the entry before it: "" after a string, NaN after anything else. */
  lemma {:induction false} FillAsWrittenShape(props: seq<map<string, Value>>, prop: string)
    ensures |FillAsWritten(props, prop)| == |props| - FirstWith(props, prop)
    ensures forall j :: FirstWith(props, prop) <= j < |props| && prop in props[j] ==>
      FillAsWritten(props, prop)[j - FirstWith(props, prop)] == props[j][prop]
    ensures forall j :: FirstWith(props, prop) <= j < |props| && prop !in props[j] ==>
      FillAsWritten(props, prop)[j - FirstWith(props, prop)] in {Str(""), Missing}
    ensures forall j :: FirstWith(props, prop) < j < |props| && prop !in props[j] ==>
      var d := FillAsWritten(props, prop); var k := FirstWith(props, prop);
      d[j - k] == (if d[j - k - 1].Str? then Str("") else Missing)
    decreases |props|
  {
    if props != [] {
      var init := props[..|props| - 1];
      FillAsWrittenShape(init, prop);
      var k := FirstWith(props, prop);
      var data := FillAsWritten(props, prop);
      forall j | k <= j < |props| - 1
        ensures prop in props[j] ==> data[j - k] == props[j][prop]
        ensures prop !in props[j] ==> data[j - k] in {Str(""), Missing}
        ensures k < j && prop !in props[j] ==> data[j - k] == (if data[j - k - 1].Str? then Str("") else Missing)
      {
        assert props[j] == init[j];
      }
    }
  }

  /** When the first channel carries the property, the column is aligned with the channels. */
  lemma FillAsWrittenAligned(props: seq<map<string, Value>>, prop: string)
    requires |props| > 0 && prop in props[0]
    ensures |FillAsWritten(props, prop)| == |props|
    ensures forall j :: 0 <= j < |props| && prop in props[j] ==> FillAsWritten(props, prop)[j] == props[j][prop]
  {
    FillAsWrittenShape(props, prop);
  }

  /** When the first channel lacks the property, the column is shorter than the channel list,
      so reading it at the index of the last channel fails. */
  lemma FillAsWrittenShort(props: seq<map<string, Value>>, prop: string)
    requires |props| > 0 && prop !in props[0]
    ensures |FillAsWritten(props, prop)| < |props|
  {
    FillAsWrittenShape(props, prop);
  }
}
