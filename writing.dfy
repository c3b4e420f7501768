/** `write_recording`, outside the container it fills. */
module Writing {
  import opened Values
  import opened Recordings
  import opened Metadata
  import opened Epochs
  import opened Series
  import opened NwbFiles

  /** `write_recording`: a path and a container together are refused; without metadata the
      recording's own (`get_nwb_metadata`) is used; with a container it is filled in memory;
      with a path the file is read and appended to when it exists and `overwrite` is off,
      otherwise a new, empty container is filled (and written afresh); with neither, the path
      conversion raises TypeError. `target` is the container that was filled. `stored` stands
      for the container read from an existing file and `fileExists` for whether the path names
      a file. */
  method WriteRecording(rec: Recording, savePath: Option<string>, overwrite: bool, nwbfile: NwbFile?,
                        fileExists: bool, stored: NwbFile, md: MetadataDict?, bufferMb: int, useTimes: bool,
                        writeAs: string, esKey: Option<string>, writeScaled: bool)
    returns (out: Outcome, target: NwbFile?)
    requires rec.Valid() && stored.Valid()
    requires nwbfile != null ==> nwbfile.Valid()
    modifies if nwbfile != null then {nwbfile, nwbfile.electrodes} else {}, stored, stored.electrodes, md
    ensures var choice := ChooseTarget(savePath.Some?, nwbfile != null, fileExists, overwrite);
      (choice.Err? ==> out == Fail(choice.error) && target == null)
      && (choice == Ok(InMemory) ==> target == nwbfile)
      && (choice == Ok(OnDisk(Append)) ==> target == stored)
      && (choice == Ok(OnDisk(Create)) ==> target != null && fresh(target))
    ensures target != null ==> target.Valid() && (out.Pass? ==> target.hasElectrodeTable)
    ensures target != null && target == nwbfile && out.Pass? ==> nwbfile.epochs == UpsertAll(old(nwbfile.epochs), rec.epochs)
    ensures target == stored && out.Pass? ==> stored.epochs == UpsertAll(old(stored.epochs), rec.epochs)
    ensures target != null && fresh(target) && out.Pass? ==> target.epochs == UpsertAll(NoEpochs, rec.epochs)
  {
    var choice := ChooseTarget(savePath.Some?, nwbfile != null, fileExists, overwrite);
    if choice.Err? {
      return Fail(choice.error), null;
    }
    var metadata := md;
    if metadata == null {
      metadata := new MetadataDict(Some(GetNwbMetadata(rec)));
    }
    if choice.value == InMemory {
      target := nwbfile;
    } else if choice.value == OnDisk(Append) {
      target := stored;
    } else {
      target := new NwbFile();
    }
    out := target.AddAllToNwbFile(rec, metadata, bufferMb, useTimes, writeAs, esKey, writeScaled);
  }
}
