/**
  The rows `add_electrodes` appends to the electrode table: which channel each new row is for,
  what its cells hold, and why the ids stay distinct.
 */
module Rows {
  import opened Values
  import opened Recordings
  import opened Tables
  import opened Groups
  import opened Electrodes

  /** Row `k` of the table with `columns` was added for channel `j`: the channel's group is an
      electrode group of `groups`, the row's `group_name` and `group` cells name that group,
      and every data column of `cols` gave the row its `j`-th entry. */
  ghost predicate NewRow(rec: Recording, cols: map<string, ColumnData>, columns: map<string, Column>,
                         groups: map<string, ElectrodeGroup>, k: nat, j: nat)
  {
    j < |rec.channelGroups| && IntToString(rec.channelGroups[j]) in groups
    && CellIs(columns, GroupColumn, k, Str(IntToString(rec.channelGroups[j])))
    && CellIs(columns, "group", k, Str(IntToString(rec.channelGroups[j])))
    && forall c :: c in DataColumns(cols) ==>
      j < |cols[c].data.value| && CellIs(columns, c, k, cols[c].data.value[j])
  }

  /** A row stays as it was while the table only grows and groups are only added. */
  lemma NewRowKept(rec: Recording, cols: map<string, ColumnData>, columns: map<string, Column>, columns': map<string, Column>,
                   groups: map<string, ElectrodeGroup>, groups': map<string, ElectrodeGroup>, k: nat, j: nat)
    requires NewRow(rec, cols, columns, groups, k, j)
    requires Extends(columns, columns') && GroupsKept(groups, groups')
    ensures NewRow(rec, cols, columns', groups', k, j)
  {
    var g := Str(IntToString(rec.channelGroups[j]));
    CellKept(columns, columns', GroupColumn, k, g);
    CellKept(columns, columns', "group", k, g);
    forall c | c in DataColumns(cols)
      ensures CellIs(columns', c, k, cols[c].data.value[j])
    {
      CellKept(columns, columns', c, k, cols[c].data.value[j]);
    }
  }

  /** The table `ids` is `before` followed by one row per channel of `rows`, in increasing
      channel order and all before channel `bound`; each such channel was not a row of
      `before`, and its row is a `NewRow`. */
  ghost predicate RowsFor(rec: Recording, cols: map<string, ColumnData>, before: seq<int>, ids: seq<int>,
                          columns: map<string, Column>, groups: map<string, ElectrodeGroup>, rows: seq<nat>, bound: nat)
  {
    |ids| == |before| + |rows| && ids[..|before|] == before
    && (forall r :: 0 <= r < |rows| ==>
          rows[r] < bound && rows[r] < |rec.channelIds| && ids[|before| + r] == rec.channelIds[rows[r]]
          && rec.channelIds[rows[r]] !in before && NewRow(rec, cols, columns, groups, |before| + r, rows[r]))
    && forall r1, r2 :: 0 <= r1 < r2 < |rows| ==> rows[r1] < rows[r2]
  }

  lemma RowsForKept(rec: Recording, cols: map<string, ColumnData>, before: seq<int>, ids: seq<int>,
                    columns: map<string, Column>, columns': map<string, Column>,
                    groups: map<string, ElectrodeGroup>, groups': map<string, ElectrodeGroup>, rows: seq<nat>,
                    bound: nat, bound': nat)
    requires RowsFor(rec, cols, before, ids, columns, groups, rows, bound) && bound <= bound'
    requires Extends(columns, columns') && GroupsKept(groups, groups')
    ensures RowsFor(rec, cols, before, ids, columns', groups', rows, bound')
  {
    forall r | 0 <= r < |rows|
      ensures NewRow(rec, cols, columns', groups', |before| + r, rows[r])
    {
      NewRowKept(rec, cols, columns, columns', groups, groups', |before| + r, rows[r]);
    }
  }

  lemma RowsForAppend(rec: Recording, cols: map<string, ColumnData>, before: seq<int>, ids: seq<int>,
                      columns: map<string, Column>, groups: map<string, ElectrodeGroup>, rows: seq<nat>, j: nat)
    requires RowsFor(rec, cols, before, ids, columns, groups, rows, j)
    requires j < |rec.channelIds| && rec.channelIds[j] !in before
    requires NewRow(rec, cols, columns, groups, |ids|, j)
    ensures RowsFor(rec, cols, before, ids + [rec.channelIds[j]], columns, groups, rows + [j], j + 1)
  {
    var ids' := ids + [rec.channelIds[j]];
    assert ids'[..|before|] == ids[..|before|];
  }

  /** What the row loop leaves behind, without the bookkeeping: the old rows are a prefix, and
      every new row is a `NewRow` for a channel whose id was not a row before. */
  ghost predicate RowsAppended(rec: Recording, cols: map<string, ColumnData>, before: seq<int>, ids: seq<int>,
                               columns: map<string, Column>, groups: map<string, ElectrodeGroup>)
  {
    |before| <= |ids| && ids[..|before|] == before
    && forall k :: |before| <= k < |ids| ==>
      ids[k] !in before && exists j: nat :: j < |rec.channelIds| && ids[k] == rec.channelIds[j] && NewRow(rec, cols, columns, groups, k, j)
  }

  lemma RowsForAppended(rec: Recording, cols: map<string, ColumnData>, before: seq<int>, ids: seq<int>,
                        columns: map<string, Column>, groups: map<string, ElectrodeGroup>, rows: seq<nat>, bound: nat)
    requires RowsFor(rec, cols, before, ids, columns, groups, rows, bound)
    ensures RowsAppended(rec, cols, before, ids, columns, groups)
  {
    forall k | |before| <= k < |ids|
      ensures ids[k] !in before
      ensures exists j: nat :: j < |rec.channelIds| && ids[k] == rec.channelIds[j] && NewRow(rec, cols, columns, groups, k, j)
    {
      var r := k - |before|;
      assert ids[|before| + r] == rec.channelIds[rows[r]];
    }
  }

  /** Rows are added for distinct channels in increasing order, so distinct channel ids keep
      the table's ids distinct. */
  lemma {:induction false} RowsForDistinct(rec: Recording, cols: map<string, ColumnData>, before: seq<int>, ids: seq<int>,
                                           columns: map<string, Column>, groups: map<string, ElectrodeGroup>, rows: seq<nat>, bound: nat)
    requires RowsFor(rec, cols, before, ids, columns, groups, rows, bound)
    requires Distinct(before) && Distinct(rec.channelIds)
    ensures Distinct(ids)
  {
    forall a, b | 0 <= a < b < |ids|
      ensures ids[a] != ids[b]
    {
      if b < |before| {
        assert ids[a] == before[a] && ids[b] == before[b];
      } else if a < |before| {
        assert ids[a] == before[a] && ids[a] in before;
        assert ids[b] == rec.channelIds[rows[b - |before|]];
      } else {
        assert rows[a - |before|] < rows[b - |before|];
      }
    }
  }

  lemma RowsForDistinctIfDistinct(rec: Recording, cols: map<string, ColumnData>, before: seq<int>, ids: seq<int>,
                                  columns: map<string, Column>, groups: map<string, ElectrodeGroup>, rows: seq<nat>, bound: nat)
    requires RowsFor(rec, cols, before, ids, columns, groups, rows, bound)
    ensures Distinct(before) && Distinct(rec.channelIds) ==> Distinct(ids)
  {
    if Distinct(before) && Distinct(rec.channelIds) {
      RowsForDistinct(rec, cols, before, ids, columns, groups, rows, bound);
    }
  }

  /** The channels before `j` that were not rows of `before`: each had all its data-column
      entries, and each whose group was among `groups` is now a row of `ids`. */
  ghost predicate Visited(rec: Recording, cols: map<string, ColumnData>, before: seq<int>, ids: seq<int>,
                          groups: map<string, ElectrodeGroup>, j: nat)
    requires rec.Valid() && j <= rec.NumChannels()
  {
    forall j' :: 0 <= j' < j && rec.channelIds[j'] !in before ==>
      RowValues(cols, j').Ok? && (IntToString(rec.channelGroups[j']) in groups ==> rec.channelIds[j'] in ids)
  }

  lemma VisitedNext(rec: Recording, cols: map<string, ColumnData>, before: seq<int>, ids: seq<int>, ids': seq<int>,
                    groups: map<string, ElectrodeGroup>, j: nat)
    requires rec.Valid() && j < rec.NumChannels()
    requires Visited(rec, cols, before, ids, groups, j)
    requires |ids| <= |ids'| && ids'[..|ids|] == ids
    requires rec.channelIds[j] !in before ==> RowValues(cols, j).Ok?
    requires rec.channelIds[j] !in before && IntToString(rec.channelGroups[j]) in groups ==> rec.channelIds[j] in ids'
    ensures Visited(rec, cols, before, ids', groups, j + 1)
  {
    forall j' | 0 <= j' < j && rec.channelIds[j'] !in before && IntToString(rec.channelGroups[j']) in groups
      ensures rec.channelIds[j'] in ids'
    {
      var k :| 0 <= k < |ids| && ids[k] == rec.channelIds[j'];
      assert ids'[k] == ids[k];
    }
  }
}
