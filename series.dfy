/**
  The integer and structural decisions of `add_electrical_series` and `write_recording`:
  where the series goes, its default name, the electrode-table region, how gains become
  conversion factors, the chunk buffer size, and how the output file is opened.
 */
module Series {
  import opened Values
  import opened Recordings
  import opened Metadata
  import opened Epochs

  /** The `write_as` choices. */
  datatype WriteAs = Raw | Processed | Lfp

  /** The `write_as in ['raw', 'processed', 'lfp']` assertion. */
  function ParseWriteAs(s: string): (r: Result<WriteAs>)
    ensures r.Ok? <==> s in ["raw", "processed", "lfp"]
    ensures r.Err? ==> r.error == AssertionError("write_as")
    ensures r == Ok(Raw) <==> s == "raw"
    ensures r == Ok(Processed) <==> s == "processed"
    ensures r == Ok(Lfp) <==> s == "lfp"
  {
    if s == "raw" then Ok(Raw)
    else if s == "processed" then Ok(Processed)
    else if s == "lfp" then Ok(Lfp)
    else Err(AssertionError("write_as"))
  }

  /** The series name used unless the metadata overrides it. */
  function DefaultName(w: WriteAs): string {
    match w
    case Raw => "ElectricalSeries_raw"
    case Processed => "ElectricalSeries_processed"
    case Lfp => "ElectricalSeries_lfp"
  }

  /** The data interface of the `ecephys` processing module that holds processed and LFP series. */
  function InterfaceName(w: WriteAs): string
    requires !w.Raw?
  {
    if w.Processed? then "Processed" else "LFP"
  }

  const EcephysModule := "ecephys"
  const EcephysDescription := "Intermediate data from extracellular electrophysiology recordings, e.g., LFP."

  /** `[list(table_ids).index(id) for id in channel_ids]`: the row of each channel in the
      electrode table, or ValueError for a channel that is not a row. */
  function ElectrodeRegion(tableIds: seq<int>, channels: seq<int>): (r: Result<seq<nat>>)
    ensures r.Ok? <==> forall c :: c in channels ==> c in tableIds
    ensures r.Err? ==> r.error == ValueError
    ensures r.Ok? ==> |r.value| == |channels| && forall k :: 0 <= k < |channels| ==>
      r.value[k] < |tableIds| && tableIds[r.value[k]] == channels[k]
      && forall i :: 0 <= i < r.value[k] ==> tableIds[i] != channels[k]
  {
    if forall c :: c in channels ==> c in tableIds then
      Ok(seq(|channels|, k requires 0 <= k < |channels| => IndexOf(tableIds, channels[k])))
    else Err(ValueError)
  }

  /** Every channel's offset is a whole multiple of its gain. */
  predicate Coercible(gains: seq<int>, offsets: seq<int>)
    requires |gains| == |offsets|
  {
    forall k :: 0 <= k < |gains| ==> gains[k] != 0 && offsets[k] % gains[k] == 0
  }

  /** `offset / gain` must be a whole number for every channel, or NotImplementedError: a zero
      gain gives an infinite or NaN quotient, which is not whole either. The whole quotients
      are the per-channel shifts that would make unsigned data signed. */
  function UnsignedCoercion(gains: seq<int>, offsets: seq<int>): (r: Result<seq<int>>)
    requires |gains| == |offsets|
    ensures r.Ok? <==> Coercible(gains, offsets)
    ensures r.Err? ==> r.error == NotImplementedError
    ensures r.Ok? ==> |r.value| == |gains| && forall k :: 0 <= k < |gains| ==> r.value[k] * gains[k] == offsets[k]
  {
    if Coercible(gains, offsets) then
      Ok(seq(|gains|, k requires 0 <= k < |gains| => offsets[k] / gains[k]))
    else Err(NotImplementedError)
  }

  /** How the series' conversion is set, in microvolts per unit: data already scaled (1e-6 V),
      one gain shared by all channels (`gain * 1e-6`), or a conversion of 1e-6 together with a
      per-channel `channel_conversion`. */
  datatype Conversion = Scaled | SharedGain(gain: int) | PerChannel(gains: seq<int>)

  /** The conversion choice of `add_electrical_series`. A single gain is used when the gains
      have exactly one distinct value; a recording without channels has none. */
  function ChooseConversion(writeScaled: bool, gains: seq<int>): (c: Conversion)
    ensures writeScaled <==> c.Scaled?
    ensures c.SharedGain? ==> |gains| > 0 && c.gain == gains[0]
    ensures c.PerChannel? ==> c.gains == gains
  {
    if writeScaled then Scaled
    else if |Unique(gains)| == 1 then
      assert Unique(gains)[0] in gains;
      SharedGain(gains[0])
    else PerChannel(gains)
  }

  /** The factor, in microvolts per stored unit, that the conversion attributes to channel `k`. */
  function ChannelFactor(c: Conversion, k: nat): int {
    match c
    case Scaled => 1
    case SharedGain(g) => g
    case PerChannel(gs) => if k < |gs| then gs[k] else 0
  }

  /** Unscaled data is written with the recording's own gain as the factor of every channel,
      whether the gains were collapsed into one conversion or not. */
  lemma ConversionMatchesGains(gains: seq<int>)
    ensures forall k :: 0 <= k < |gains| ==> ChannelFactor(ChooseConversion(false, gains), k) == gains[k]
  {
    var u := Unique(gains);
    if |u| == 1 {
      forall k | 0 <= k < |gains| ensures gains[k] == gains[0] {
        assert gains[k] in u && gains[0] in u;
        assert forall y :: y in u ==> y == u[0];
      }
    }
  }

  /** All channels share one gain exactly when the gains have one distinct value. */
  lemma SharedGainIffEqual(gains: seq<int>)
    ensures ChooseConversion(false, gains).SharedGain? <==>
      |gains| > 0 && forall k :: 0 <= k < |gains| ==> gains[k] == gains[0]
  {
    var u := Unique(gains);
    if |gains| > 0 && forall k :: 0 <= k < |gains| ==> gains[k] == gains[0] {
      assert gains[0] in u;
      assert u[0] in gains && u[|u| - 1] in gains;
      assert u[0] == gains[0] && u[|u| - 1] == gains[0];
    }
    if |u| == 1 {
      ConversionMatchesGains(gains);
    }
  }

  /** `int(buffer_mb * 1e6) // (num_channels * itemsize)`: how many frames fit in the buffer. */
  function BufferSize(bufferMb: int, numChannels: nat, itemsize: nat): (r: Result<int>)
    ensures r.Err? <==> numChannels * itemsize == 0
    ensures r.Err? ==> r.error == ZeroDivisionError
    ensures r.Ok? ==> r.value * (numChannels * itemsize) <= bufferMb * 1000000 < (r.value + 1) * (numChannels * itemsize)
  {
    if numChannels * itemsize == 0 then Err(ZeroDivisionError)
    else Ok((bufferMb * 1000000) / (numChannels * itemsize))
  }

  /** How the traces are handed to the writer: as one memory-mapped block read in chunks of
      `bufferSize` frames, or channel by channel, shifted by the unsigned coercion unless the
      data is written scaled. */
  datatype Traces = Chunked(bufferSize: int) | ByChannel(shift: Option<seq<int>>)

  /** The series' clock: a starting time with the sampling rate, or one timestamp per frame. */
  datatype Timing = Rate(start: Time) | Timestamps(times: seq<Time>)

  /** What `add_electrical_series` writes: the series name and kind, the electrode-table rows
      it refers to, its conversion, its traces and its clock. */
  datatype ElectricalSeries = ElectricalSeries(
    name: string,
    writeAs: WriteAs,
    region: seq<nat>,
    conversion: Conversion,
    traces: Traces,
    timing: Timing)

  /** The series name: the default for its kind, unless the metadata has an `Ecephys` section
      and `es_key` names an entry of it with a `name`. */
  function SeriesName(e: Option<Ecephys>, esKey: Option<string>, w: WriteAs): string {
    if e.Some? && esKey.Some? && esKey.value in e.value.series
    then Get(e.value.series[esKey.value], "name", DefaultName(w))
    else DefaultName(w)
  }

  /** `metadata['Ecephys']` exists and an `es_key` is given, but the section has no such key. */
  predicate KeyMissing(e: Option<Ecephys>, esKey: Option<string>) {
    e.Some? && esKey.Some? && esKey.value !in e.value.series
  }

  /** The traces are read in chunks when they are a memory map and no channel has an offset. */
  predicate ReadsChunked(rec: Recording) {
    rec.memmapped && forall k :: 0 <= k < |rec.offsets| ==> rec.offsets[k] == 0
  }

  /** The clock of the series: `frame_to_time(0)` and the rate, or `frame_to_time` of every frame. */
  function SeriesTiming(rec: Recording, useTimes: bool): (t: Timing)
    ensures t.Timestamps? <==> useTimes
    ensures t.Rate? ==> t.start == FrameTime(0)
    ensures t.Timestamps? ==> |t.times| == rec.numFrames && forall i :: 0 <= i < rec.numFrames ==> t.times[i] == FrameTime(i)
  {
    if useTimes then Timestamps(seq(rec.numFrames, i => FrameTime(i))) else Rate(FrameTime(0))
  }

  /** The series `add_electrical_series` builds once its destination is known, checked in the
      order of the code: the `es_key` assertion, the duplicate-name assertion, the electrode-table
      region, the unsigned coercion and the chunk buffer size. `existing` holds the names already
      written where the series goes. */
  function BuildSeries(rec: Recording, tableIds: seq<int>, e: Option<Ecephys>, esKey: Option<string>, w: WriteAs,
                       bufferMb: int, useTimes: bool, writeScaled: bool, existing: set<string>): (r: Result<ElectricalSeries>)
    requires rec.Valid()
    ensures r == Err(AssertionError("es_key")) <==> KeyMissing(e, esKey)
    ensures r == Err(AssertionError("series name")) <==> !KeyMissing(e, esKey) && SeriesName(e, esKey, w) in existing
    ensures r == Err(ValueError) <==>
      (!KeyMissing(e, esKey) && SeriesName(e, esKey, w) !in existing && exists c :: c in rec.channelIds && c !in tableIds)
    ensures r == Err(NotImplementedError) <==>
      (!KeyMissing(e, esKey) && SeriesName(e, esKey, w) !in existing
       && (forall c :: c in rec.channelIds ==> c in tableIds) && !Coercible(rec.gains, rec.offsets))
    ensures r == Err(ZeroDivisionError) <==>
      (!KeyMissing(e, esKey) && SeriesName(e, esKey, w) !in existing
       && (forall c :: c in rec.channelIds ==> c in tableIds) && Coercible(rec.gains, rec.offsets)
       && ReadsChunked(rec) && rec.NumChannels() * rec.itemsize == 0)
    ensures r.Err? ==> r.error in {AssertionError("es_key"), AssertionError("series name"), ValueError, NotImplementedError, ZeroDivisionError}
    ensures r.Ok? ==> r.value.name == SeriesName(e, esKey, w) && r.value.name !in existing && r.value.writeAs == w
    ensures r.Ok? ==>
      |r.value.region| == rec.NumChannels()
      && forall k :: 0 <= k < rec.NumChannels() ==> r.value.region[k] < |tableIds| && tableIds[r.value.region[k]] == rec.channelIds[k]
    ensures r.Ok? ==>
      (writeScaled <==> r.value.conversion.Scaled?)
      && (!writeScaled ==> forall k :: 0 <= k < rec.NumChannels() ==> ChannelFactor(r.value.conversion, k) == rec.gains[k])
    ensures r.Ok? ==> (r.value.traces.Chunked? <==> ReadsChunked(rec))
    ensures r.Ok? && r.value.traces.Chunked? ==>
      r.value.traces.bufferSize * (rec.NumChannels() * rec.itemsize) <= bufferMb * 1000000
      < (r.value.traces.bufferSize + 1) * (rec.NumChannels() * rec.itemsize)
    ensures r.Ok? && r.value.traces.ByChannel? ==>
      (writeScaled <==> r.value.traces.shift.None?)
      && (!writeScaled ==>
            |r.value.traces.shift.value| == rec.NumChannels()
            && forall k :: 0 <= k < rec.NumChannels() ==> r.value.traces.shift.value[k] * rec.gains[k] == rec.offsets[k])
    ensures r.Ok? ==> r.value.timing == SeriesTiming(rec, useTimes)
  {
    var name := SeriesName(e, esKey, w);
    if KeyMissing(e, esKey) then Err(AssertionError("es_key"))
    else if name in existing then Err(AssertionError("series name"))
    else
      match ElectrodeRegion(tableIds, rec.channelIds)
      case Err(err) => Err(err)
      case Ok(region) =>
        match UnsignedCoercion(rec.gains, rec.offsets)
        case Err(err) => Err(err)
        case Ok(shift) =>
          var conversion := ChooseConversion(writeScaled, rec.gains);
          ConversionMatchesGains(rec.gains);
          var traces :=
            if ReadsChunked(rec) then
              match BufferSize(bufferMb, rec.NumChannels(), rec.itemsize)
              case Err(err) => Err(err)
              case Ok(size) => Ok(Chunked(size))
            else Ok(ByChannel(if writeScaled then None else Some(shift)));
          match traces
          case Err(err) => Err(err)
          case Ok(t) => Ok(ElectricalSeries(name, w, region, conversion, t, SeriesTiming(rec, useTimes)))
  }

  /** The mode the output file is opened in: `r+` to append to it, `w` to create it afresh. */
  datatype OpenMode = Append | Create

  /** Where `write_recording` writes: into the container it was given, or into a file. */
  datatype Target = InMemory | OnDisk(mode: OpenMode)

  /** The choice of `write_recording`: a path and a container together fail the assertion; with
      neither, `Path(None)` raises TypeError; a path is appended to exactly when a file is
      there and `overwrite` is off. */
  function ChooseTarget(savePathGiven: bool, nwbfileGiven: bool, fileExists: bool, overwrite: bool): (r: Result<Target>)
    ensures r.Err? <==> savePathGiven == nwbfileGiven
    ensures r == Err(AssertionError("save_path or nwbfile")) <==> savePathGiven && nwbfileGiven
    ensures r == Err(TypeError) <==> !savePathGiven && !nwbfileGiven
    ensures r == Ok(InMemory) <==> nwbfileGiven && !savePathGiven
    ensures r == Ok(OnDisk(Append)) <==> savePathGiven && !nwbfileGiven && fileExists && !overwrite
    ensures r == Ok(OnDisk(Create)) <==> savePathGiven && !nwbfileGiven && !(fileExists && !overwrite)
  {
    if savePathGiven && nwbfileGiven then Err(AssertionError("save_path or nwbfile"))
    else if nwbfileGiven then Ok(InMemory)
    else if !savePathGiven then Err(TypeError)
    else if fileExists && !overwrite then Ok(OnDisk(Append))
    else Ok(OnDisk(Create))
  }
}
