/**
  The column bookkeeping of `add_electrodes`: which channel properties become electrode
  columns and with what data, how the metadata's column entries are merged in, and the cells
  of one new electrode row.
 */
module Electrodes {
  import opened Values
  import opened Recordings
  import opened Metadata

  /** An entry of the column dictionary: its description and, when known, its data. */
  datatype ColumnData = ColumnData(description: string, data: Option<seq<Value>>)

  /** The cells every new electrode row starts from. These are also the columns the electrode
      table always has, so no column is added for them. */
  const ElectrodeDefaults: map<string, Value> := map[
    "x" := Missing, "y" := Missing, "z" := Missing, "imp" := Num(-1),
    "location" := Str("unknown"), "filtering" := Str("none"), "group_name" := Str("0")]

  /** The name every channel's group column has. */
  const GroupColumn := "group_name"

  /** `cols` has one column per property of some channel that is not skipped, under its
      column name, described by that name and holding the filled property data. */
  ghost predicate PropertyColumnsOf(rec: Recording, exclude: seq<string>, cols: map<string, ColumnData>) {
    (forall c :: c in cols <==> exists p :: rec.HasProperty(p) && !Skipped(p, exclude) && ColumnName(p) == c)
    && forall c :: c in cols ==> exists p ::
      rec.HasProperty(p) && !Skipped(p, exclude) && ColumnName(p) == c && cols[c] == ColumnData(c, Some(FillAsWritten(rec.properties, p)))
  }

  /** The union of the property names of all channels. */
  method PropertyNames(rec: Recording) returns (names: set<string>)
    ensures forall p :: p in names <==> exists j :: 0 <= j < |rec.properties| && p in rec.properties[j]
  {
    names := {};
    var j := 0;
    while j < |rec.properties|
      invariant 0 <= j <= |rec.properties|
      invariant forall p :: p in names <==> exists j' :: 0 <= j' < j && p in rec.properties[j']
    {
      names := names + rec.properties[j].Keys;
      j := j + 1;
    }
  }

  /** The data of the column for property `prop`, built channel by channel. */
  method FillColumn(rec: Recording, prop: string) returns (data: seq<Value>)
    ensures data == FillAsWritten(rec.properties, prop)
  {
    var props := rec.properties;
    data := [];
    var j := 0;
    while j < |props|
      invariant 0 <= j <= |props|
      invariant data == FillAsWritten(props[..j], prop)
    {
      assert props[..j + 1][..j] == props[..j];
      if prop in props[j] {
        data := data + [props[j][prop]];
      } else if |data| > 0 && data[|data| - 1].Str? {
        data := data + [Str("")];
      } else if |data| > 0 {
        data := data + [Missing];
      }
      j := j + 1;
    }
    assert props[..j] == props;
  }

  /** The columns made from channel properties: one per property that is not skipped, under its
      column name, described by that name, holding the filled property data. Two properties
      with the same column name (`group` and `group_name`) leave one of them, whichever is
      visited last. */
  method PropertyColumns(rec: Recording, exclude: seq<string>) returns (cols: map<string, ColumnData>)
    ensures PropertyColumnsOf(rec, exclude, cols)
  {
    var names := PropertyNames(rec);
    cols := map[];
    var todo := names;
    while todo != {}
      invariant todo <= names
      invariant forall c :: c in cols <==> exists p :: p in names - todo && !Skipped(p, exclude) && ColumnName(p) == c
      invariant forall c :: c in cols ==> exists p ::
        p in names - todo && !Skipped(p, exclude) && ColumnName(p) == c && cols[c] == ColumnData(c, Some(FillAsWritten(rec.properties, p)))
      decreases todo
    {
      var p :| p in todo;
      if !Skipped(p, exclude) {
        var data := FillColumn(rec, p);
        cols := cols[ColumnName(p) := ColumnData(ColumnName(p), Some(data))];
      }
      todo := todo - {p};
    }
  }

  /** `metadata['Ecephys']`, for a dictionary that may be absent. */
  ghost function EcephysOf(md: MetadataDict?): Option<Ecephys>
    reads md
  {
    if md == null then None else md.ecephys
  }

  /** The column entries of `metadata['Ecephys']['Electrodes']`, none when absent. */
  function SpecsIn(e: Option<Ecephys>): seq<ColumnSpec> {
    if e.Some? && e.value.electrodes.Some? then e.value.electrodes.value else []
  }

  /** `metadata['Ecephys']` once `add_electrodes` has filled in its missing sections. */
  function WithColumns(e: Option<Ecephys>): Ecephys {
    e.GetOr(EmptyEcephys).(electrodes := Some(SpecsIn(e)))
  }

  /** `metadata['Ecephys']` once the merge loop of `add_electrodes` has popped the names of its
      first `m` column entries. */
  function WithPoppedColumns(e: Option<Ecephys>, m: nat): Ecephys
    requires m <= |SpecsIn(e)|
  {
    e.GetOr(EmptyEcephys).(electrodes := Some(PopUpTo(SpecsIn(e), m)))
  }

  /** The column entries of the metadata after `pop('name')` on each of the first `m` of them:
      those have no name any more, the others are untouched. */
  function PopUpTo(specs: seq<ColumnSpec>, m: nat): (r: seq<ColumnSpec>)
    requires m <= |specs|
    ensures |r| == |specs|
    ensures forall k :: 0 <= k < m ==> r[k] == specs[k].(name := None)
    ensures forall k :: m <= k < |specs| ==> r[k] == specs[k]
  {
    seq(|specs|, k requires 0 <= k < |specs| => if k < m then specs[k].(name := None) else specs[k])
  }

  /** The column entries of the metadata once every name is popped: none of them has a name any
      more. */
  function PopNames(specs: seq<ColumnSpec>): (r: seq<ColumnSpec>)
    ensures |r| == |specs|
    ensures forall k :: 0 <= k < |specs| ==> r[k] == specs[k].(name := None)
  {
    PopUpTo(specs, |specs|)
  }

  /** `any(x.get('name', '') == 'group_name' for x in specs)` */
  predicate GroupNameGiven(specs: seq<ColumnSpec>) {
    exists x :: x in specs && x.name == Some(GroupColumn)
  }

  /** Once the names are popped, no entry claims the group column, so the recording's own
      channel groups always decide which group an electrode is linked to. */
  lemma PoppedNamesGone(specs: seq<ColumnSpec>)
    ensures !GroupNameGiven(PopNames(specs))
  {
    var r := PopNames(specs);
    forall x | x in r ensures x.name != Some(GroupColumn) {
      var k :| 0 <= k < |r| && r[k] == x;
    }
  }

  /** Every column entry has exactly the keys `name`, `description` and `data`. */
  predicate AllWellFormed(specs: seq<ColumnSpec>) {
    forall k :: 0 <= k < |specs| ==> specs[k].WellFormed()
  }

  /** Every column entry's data has one value per channel. */
  predicate DataLengthsMatch(specs: seq<ColumnSpec>, numChannels: nat)
    requires AllWellFormed(specs)
  {
    forall k :: 0 <= k < |specs| ==> |specs[k].data.value| == numChannels
  }

  /** Some entry claims the column `group`, which is refused. */
  predicate NamesGroup(specs: seq<ColumnSpec>)
    requires AllWellFormed(specs)
  {
    exists k :: 0 <= k < |specs| && specs[k].name.value == "group"
  }

  /** The column names the metadata's entries give. */
  function SpecNames(specs: seq<ColumnSpec>): set<string>
    requires AllWellFormed(specs)
  {
    set k | 0 <= k < |specs| :: specs[k].name.value
  }

  /** The merge of the metadata's column entries into the property columns, in order: an
      entry's description and data replace those of the column with its name, creating it if
      needed. */
  function Merge(cols: map<string, ColumnData>, specs: seq<ColumnSpec>): map<string, ColumnData>
    requires AllWellFormed(specs)
    decreases |specs|
  {
    if specs == [] then cols
    else
      var x := specs[|specs| - 1];
      Merge(cols, specs[..|specs| - 1])[x.name.value := ColumnData(x.description.value, x.data)]
  }

  /** The merged columns are the property columns and the entries' names. */
  lemma {:induction false} MergeKeys(cols: map<string, ColumnData>, specs: seq<ColumnSpec>)
    requires AllWellFormed(specs)
    ensures Merge(cols, specs).Keys == cols.Keys + SpecNames(specs)
    decreases |specs|
  {
    if specs != [] {
      var init := specs[..|specs| - 1];
      MergeKeys(cols, init);
      assert SpecNames(specs) == SpecNames(init) + {specs[|specs| - 1].name.value};
    }
  }

  /** A property column that no entry names is kept as it is. */
  lemma {:induction false} MergeUntouched(cols: map<string, ColumnData>, specs: seq<ColumnSpec>, c: string)
    requires AllWellFormed(specs)
    requires c in cols && c !in SpecNames(specs)
    ensures c in Merge(cols, specs) && Merge(cols, specs)[c] == cols[c]
    decreases |specs|
  {
    if specs != [] {
      var init := specs[..|specs| - 1];
      assert SpecNames(init) <= SpecNames(specs);
      MergeUntouched(cols, init, c);
    }
  }

  /** Of several entries with one name, the last one decides the column. */
  lemma {:induction false} MergeLastWins(cols: map<string, ColumnData>, specs: seq<ColumnSpec>, k: nat)
    requires AllWellFormed(specs)
    requires k < |specs| && forall k' :: k < k' < |specs| ==> specs[k'].name != specs[k].name
    ensures specs[k].name.value in Merge(cols, specs)
    ensures Merge(cols, specs)[specs[k].name.value] == ColumnData(specs[k].description.value, specs[k].data)
    decreases |specs|
  {
    var n := |specs| - 1;
    if k < n {
      var init := specs[..n];
      assert init[k] == specs[k];
      MergeLastWins(cols, init, k);
      assert specs[n].name.value != specs[k].name.value;
    }
  }

  /** Every merged column has data when every property column has: the check for a column
      without data can never raise. */
  lemma {:induction false} MergeHasData(cols: map<string, ColumnData>, specs: seq<ColumnSpec>)
    requires AllWellFormed(specs)
    requires forall c :: c in cols ==> cols[c].data.Some?
    ensures forall c :: c in Merge(cols, specs) ==> Merge(cols, specs)[c].data.Some?
    decreases |specs|
  {
    if specs != [] {
      MergeHasData(cols, specs[..|specs| - 1]);
      assert specs[|specs| - 1].WellFormed();
    }
  }

  /** The index of the first entry whose data does not hold one value per channel, or the
      number of entries when every entry's does. */
  function FirstBadLength(specs: seq<ColumnSpec>, numChannels: nat): (k: nat)
    requires AllWellFormed(specs)
    ensures k <= |specs|
    ensures k < |specs| ==> |specs[k].data.value| != numChannels
    ensures forall j :: 0 <= j < k ==> |specs[j].data.value| == numChannels
    decreases |specs|
  {
    if specs == [] then 0
    else
      var init := specs[..|specs| - 1];
      assert forall j :: 0 <= j < |init| ==> init[j] == specs[j];
      var k := FirstBadLength(init, numChannels);
      if k < |init| then k
      else if |specs[|init|].data.value| != numChannels then |init|
      else |specs|
  }

  /** How many entries the merge loop pops a name from: it pops each entry before checking it,
      so it stops right after the first entry of the wrong length, or pops them all. */
  function PoppedCount(specs: seq<ColumnSpec>, numChannels: nat): (m: nat)
    requires AllWellFormed(specs)
    ensures m <= |specs|
    ensures DataLengthsMatch(specs, numChannels) ==> m == |specs|
    ensures !DataLengthsMatch(specs, numChannels) ==>
      0 < m && |specs[m - 1].data.value| != numChannels
      && forall j :: 0 <= j < m - 1 ==> |specs[j].data.value| == numChannels
  {
    var k := FirstBadLength(specs, numChannels);
    if k < |specs| then k + 1 else |specs|
  }

  /** The merge loop of `add_electrodes`. Each entry's name is popped as the entry is reached,
      and the data of every entry must have one value per channel, or the assertion fails; the
      entries after a failing one keep their names. */
  method MergeSpecs(cols: map<string, ColumnData>, specs: seq<ColumnSpec>, numChannels: nat)
    returns (r: Result<map<string, ColumnData>>, popped: seq<ColumnSpec>)
    requires AllWellFormed(specs)
    ensures r.Ok? <==> DataLengthsMatch(specs, numChannels)
    ensures r.Err? ==> r.error == AssertionError("electrode data length")
    ensures r.Ok? ==> r.value == Merge(cols, specs)
    ensures popped == PopUpTo(specs, PoppedCount(specs, numChannels))
  {
    var merged := cols;
    popped := specs;
    var i := 0;
    while i < |specs|
      invariant 0 <= i <= |specs|
      invariant forall k :: 0 <= k < i ==> |specs[k].data.value| == numChannels
      invariant merged == Merge(cols, specs[..i])
      invariant popped == PopUpTo(specs, i)
    {
      assert specs[..i + 1][..i] == specs[..i];
      var x := specs[i];
      var name := x.name.value;
      popped := popped[i := x.(name := None)];
      assert popped == PopUpTo(specs, i + 1);
      var entry := if name in merged then merged[name] else ColumnData(name, None);
      entry := entry.(description := x.description.value);
      if |x.data.value| != numChannels {
        assert FirstBadLength(specs, numChannels) == i;
        return Err(AssertionError("electrode data length")), popped;
      }
      entry := entry.(data := x.data);
      merged := merged[name := entry];
      i := i + 1;
    }
    assert specs[..i] == specs;
    return Ok(merged), popped;
  }

  /** The columns whose data a row takes its cell from; the group column is handled apart. */
  function DataColumns(cols: map<string, ColumnData>): set<string> {
    set c | c in cols && c != GroupColumn && cols[c].data.Some?
  }

  /** The cells of the row for channel `j`, before its group is linked: the defaults, replaced
      by the `j`-th entry of every data column. A data column too short to have a `j`-th entry
      raises IndexError. */
  function RowValues(cols: map<string, ColumnData>, j: nat): (r: Result<map<string, Value>>)
    ensures r.Err? <==> exists c :: c in DataColumns(cols) && |cols[c].data.value| <= j
    ensures r.Err? ==> r.error == IndexError
    ensures r.Ok? ==> r.value.Keys == ElectrodeDefaults.Keys + DataColumns(cols)
    ensures r.Ok? ==> forall c :: c in DataColumns(cols) ==> r.value[c] == cols[c].data.value[j]
    ensures r.Ok? ==> forall c :: c in ElectrodeDefaults && c !in DataColumns(cols) ==> r.value[c] == ElectrodeDefaults[c]
  {
    if exists c :: c in DataColumns(cols) && |cols[c].data.value| <= j then Err(IndexError)
    else Ok(map c | c in ElectrodeDefaults.Keys + DataColumns(cols) ::
      if c in DataColumns(cols) then cols[c].data.value[j] else ElectrodeDefaults[c])
  }

  /** The walk over the columns for channel `j`, in any order. */
  method RowCells(cols: map<string, ColumnData>, j: nat) returns (r: Result<map<string, Value>>)
    ensures r == RowValues(cols, j)
  {
    var row := ElectrodeDefaults;
    var todo := cols.Keys;
    while todo != {}
      invariant todo <= cols.Keys
      invariant forall c :: c in DataColumns(cols) && c !in todo ==> |cols[c].data.value| > j
      invariant row.Keys == ElectrodeDefaults.Keys + (DataColumns(cols) - todo)
      invariant forall c :: c in DataColumns(cols) - todo ==> row[c] == cols[c].data.value[j]
      invariant forall c :: c in ElectrodeDefaults && c !in DataColumns(cols) - todo ==> row[c] == ElectrodeDefaults[c]
      decreases todo
    {
      var c :| c in todo;
      if c != GroupColumn && cols[c].data.Some? {
        if |cols[c].data.value| <= j {
          return Err(IndexError);
        }
        row := row[c := cols[c].data.value[j]];
      }
      todo := todo - {c};
    }
    assert DataColumns(cols) - todo == DataColumns(cols);
    assert row == RowValues(cols, j).value;
    return Ok(row);
  }

  /** `m` holds the property columns with the entries merged in: see the three parts below. */
  ghost predicate MergedColumnsOf(rec: Recording, exclude: seq<string>, specs: seq<ColumnSpec>, m: map<string, ColumnData>)
    requires AllWellFormed(specs)
  {
    MergedNames(rec, exclude, specs, m) && EntriesWin(specs, m) && PropertiesKept(rec, exclude, specs, m)
  }

  /** The columns are the entries' names and the property columns; every column has data, and
      none is called `group`. */
  ghost predicate MergedNames(rec: Recording, exclude: seq<string>, specs: seq<ColumnSpec>, m: map<string, ColumnData>)
    requires AllWellFormed(specs)
  {
    "group" !in m && (forall c :: c in m ==> m[c].data.Some?)
    && forall c :: c in m <==>
      c in SpecNames(specs) || exists p :: rec.HasProperty(p) && !Skipped(p, exclude) && ColumnName(p) == c
  }

  /** A column named by entries has the description and data of the last entry with that name. */
  ghost predicate EntriesWin(specs: seq<ColumnSpec>, m: map<string, ColumnData>)
    requires AllWellFormed(specs)
  {
    forall k :: 0 <= k < |specs| && (forall k' :: k < k' < |specs| ==> specs[k'].name != specs[k].name) ==>
      specs[k].name.value in m && m[specs[k].name.value] == ColumnData(specs[k].description.value, specs[k].data)
  }

  /** A column no entry names is the property column. */
  ghost predicate PropertiesKept(rec: Recording, exclude: seq<string>, specs: seq<ColumnSpec>, m: map<string, ColumnData>)
    requires AllWellFormed(specs)
  {
    forall c :: c in m && c !in SpecNames(specs) ==> exists p ::
      rec.HasProperty(p) && !Skipped(p, exclude) && ColumnName(p) == c && m[c] == ColumnData(c, Some(FillAsWritten(rec.properties, p)))
  }

  lemma MergedNamesOf(rec: Recording, exclude: seq<string>, specs: seq<ColumnSpec>, cols: map<string, ColumnData>)
    requires AllWellFormed(specs) && !NamesGroup(specs) && PropertyColumnsOf(rec, exclude, cols)
    ensures MergedNames(rec, exclude, specs, Merge(cols, specs))
  {
    var m := Merge(cols, specs);
    MergeKeys(cols, specs);
    MergeHasData(cols, specs);
    forall c
      ensures c in m <==> c in SpecNames(specs) || exists p :: rec.HasProperty(p) && !Skipped(p, exclude) && ColumnName(p) == c
    {
      assert c in m <==> c in cols || c in SpecNames(specs);
    }
    NoColumnNamedGroup();
    assert "group" !in cols;
  }

  lemma MergeEntriesWin(specs: seq<ColumnSpec>, cols: map<string, ColumnData>)
    requires AllWellFormed(specs)
    ensures EntriesWin(specs, Merge(cols, specs))
  {
    forall k | 0 <= k < |specs| && (forall k' :: k < k' < |specs| ==> specs[k'].name != specs[k].name)
      ensures specs[k].name.value in Merge(cols, specs)
      ensures Merge(cols, specs)[specs[k].name.value] == ColumnData(specs[k].description.value, specs[k].data)
    {
      MergeLastWins(cols, specs, k);
    }
  }

  lemma MergePropertiesKept(rec: Recording, exclude: seq<string>, specs: seq<ColumnSpec>, cols: map<string, ColumnData>)
    requires AllWellFormed(specs) && PropertyColumnsOf(rec, exclude, cols)
    ensures PropertiesKept(rec, exclude, specs, Merge(cols, specs))
  {
    var m := Merge(cols, specs);
    MergeKeys(cols, specs);
    forall c | c in m && c !in SpecNames(specs)
      ensures exists p ::
        rec.HasProperty(p) && !Skipped(p, exclude) && ColumnName(p) == c && m[c] == ColumnData(c, Some(FillAsWritten(rec.properties, p)))
    {
      MergeUntouched(cols, specs, c);
    }
  }

  /** Merging entries that do not claim `group` into the property columns gives the merged
      columns. */
  lemma MergeOfPropertyColumns(rec: Recording, exclude: seq<string>, specs: seq<ColumnSpec>, cols: map<string, ColumnData>)
    requires AllWellFormed(specs) && !NamesGroup(specs) && PropertyColumnsOf(rec, exclude, cols)
    ensures MergedColumnsOf(rec, exclude, specs, Merge(cols, specs))
  {
    MergedNamesOf(rec, exclude, specs, cols);
    MergeEntriesWin(specs, cols);
    MergePropertiesKept(rec, exclude, specs, cols);
  }

  /** The column preparation of `add_electrodes`: the metadata gets an empty `Ecephys` section
      and an empty `Electrodes` list where they are missing, the entries must each have exactly
      the keys `name`, `description` and `data` and none may claim the column `group`;
      then the property columns are built and the entries are merged in one by one, each
      losing its name as it is reached and each entry's data holding one value per channel. */
  method PrepareColumns(rec: Recording, md: MetadataDict?, exclude: seq<string>)
    returns (r: Result<map<string, ColumnData>>)
    requires rec.Valid()
    modifies md
    ensures var specs := SpecsIn(old(EcephysOf(md)));
      (r == Err(AssertionError("electrode entries")) <==> !AllWellFormed(specs))
      && (r == Err(AssertionError("group column")) <==> AllWellFormed(specs) && NamesGroup(specs))
      && (r == Err(AssertionError("electrode data length")) <==>
            AllWellFormed(specs) && !NamesGroup(specs) && !DataLengthsMatch(specs, rec.NumChannels()))
      && (r.Ok? <==> AllWellFormed(specs) && !NamesGroup(specs) && DataLengthsMatch(specs, rec.NumChannels()))
    ensures md != null ==> md.ecephys == Some(
      var specs := SpecsIn(old(md.ecephys));
      if AllWellFormed(specs) && !NamesGroup(specs)
      then WithPoppedColumns(old(md.ecephys), PoppedCount(specs, rec.NumChannels()))
      else WithColumns(old(md.ecephys)))
    ensures r.Ok? ==> MergedColumnsOf(rec, exclude, SpecsIn(old(EcephysOf(md))), r.value)
  {
    var given := if md == null then None else md.ecephys;
    var specs := SpecsIn(given);
    if md != null {
      md.ecephys := Some(WithColumns(given));
    }
    if !AllWellFormed(specs) {
      return Err(AssertionError("electrode entries"));
    }
    if NamesGroup(specs) {
      return Err(AssertionError("group column"));
    }
    var cols := PropertyColumns(rec, exclude);
    var popped;
    r, popped := MergeSpecs(cols, specs, rec.NumChannels());
    if md != null {
      md.ecephys := Some(WithColumns(given).(electrodes := Some(popped)));
    }
    if r.Ok? {
      MergeOfPropertyColumns(rec, exclude, specs, cols);
    }
  }
}
