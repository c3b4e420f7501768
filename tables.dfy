/**
  A dynamic table of the container (the electrode table is one): integer row ids and named
  columns, each column one cell per row. `SetProperty` is `set_dynamic_table_property`;
  `AddColumn` and `AddRow` stand for the container's own `add_electrode_column` and
  `add_electrode`, which the helpers call.
 */
module Tables {
  import opened Values

  /** A column: its description, its cells, and whether it was added as a ragged
      (`index=True`) column, whose cells are not tied to the row count. */
  datatype Column = Column(description: string, data: seq<Value>, ragged: bool)

  /** `base` after writing `values[j]` into the cell of row `rowIds[j]`, for j in order;
      a row id names the position of its first occurrence in `ids`. */
  function Scatter(ids: seq<int>, rowIds: seq<int>, values: seq<Value>, base: seq<Value>): (r: seq<Value>)
    requires |rowIds| == |values| && |base| == |ids|
    requires forall r :: r in rowIds ==> r in ids
    ensures |r| == |ids|
    decreases |rowIds|
  {
    if rowIds == [] then base
    else
      var n := |rowIds| - 1;
      Scatter(ids, rowIds[..n], values[..n], base)[IndexOf(ids, rowIds[n]) := values[n]]
  }

  /** Cells of rows that are not named keep their old value. */
  lemma {:induction false} ScatterUntouched(ids: seq<int>, rowIds: seq<int>, values: seq<Value>, base: seq<Value>, k: nat)
    requires |rowIds| == |values| && |base| == |ids|
    requires forall r :: r in rowIds ==> r in ids
    requires k < |ids| && ids[k] !in rowIds
    ensures Scatter(ids, rowIds, values, base)[k] == base[k]
    decreases |rowIds|
  {
    if rowIds != [] {
      var n := |rowIds| - 1;
      assert rowIds[n] in rowIds;
      ScatterUntouched(ids, rowIds[..n], values[..n], base, k);
    }
  }

  /** The cell of a named row holds the value given with its last mention. */
  lemma {:induction false} ScatterLastWins(ids: seq<int>, rowIds: seq<int>, values: seq<Value>, base: seq<Value>, j: nat)
    requires |rowIds| == |values| && |base| == |ids|
    requires forall r :: r in rowIds ==> r in ids
    requires j < |rowIds| && forall j' :: j < j' < |rowIds| ==> rowIds[j'] != rowIds[j]
    ensures Scatter(ids, rowIds, values, base)[IndexOf(ids, rowIds[j])] == values[j]
    decreases |rowIds|
  {
    var n := |rowIds| - 1;
    if j < n {
      assert rowIds[j] in rowIds && rowIds[n] in rowIds;
      IndexOfInjective(ids, rowIds[j], rowIds[n]);
      ScatterLastWins(ids, rowIds[..n], values[..n], base, j);
    }
  }

  /** Cell `p` of column `c` holds `v`; the cells of a ragged column are not tracked. */
  predicate CellIs(cols: map<string, Column>, c: string, p: nat, v: Value) {
    c in cols && (!cols[c].ragged ==> p < |cols[c].data| && cols[c].data[p] == v)
  }

  /** `after` keeps every column of `before`, as ragged or not as it was, with the old cells
      as a prefix of its cells. */
  predicate Extends(before: map<string, Column>, after: map<string, Column>) {
    forall c :: c in before ==> c in after && after[c].ragged == before[c].ragged && before[c].data <= after[c].data
  }

  /** Extending a table never changes a cell that is already there. */
  lemma CellKept(before: map<string, Column>, after: map<string, Column>, c: string, p: nat, v: Value)
    requires CellIs(before, c, p, v) && Extends(before, after)
    ensures CellIs(after, c, p, v)
  {
  }

  lemma ExtendsTrans(a: map<string, Column>, b: map<string, Column>, c: map<string, Column>)
    requires Extends(a, b) && Extends(b, c)
    ensures Extends(a, c)
  {
  }

  /** Adding columns only, with the old ones untouched, extends a table. */
  lemma ExtendsFromKept(a: map<string, Column>, b: map<string, Column>)
    requires forall c :: c in a ==> c in b && b[c] == a[c]
    ensures Extends(a, b)
  {
  }

  class DynamicTable {
    var ids: seq<int>
    var columns: map<string, Column>

    /** Every column that is not ragged has one cell per row. */
    ghost predicate Valid()
      reads this
    {
      forall c :: c in columns && !columns[c].ragged ==> |columns[c].data| == |ids|
    }

    constructor ()
      ensures Valid() && ids == [] && columns == map[]
    {
      ids := [];
      columns := map[];
    }

    /** `set_dynamic_table_property(table, row_ids, name, values, index, default_value,
        description=description)`. Writing element-wise into an existing ragged column is
        not modelled (see README). */
    method SetProperty(rowIds: seq<int>, name: string, values: seq<Value>, index: bool, default: Value, description: string)
      returns (out: Outcome)
      requires Valid()
      requires name in columns && !index ==> !columns[name].ragged
      modifies this
      ensures Valid() && ids == old(ids)
      ensures out == Fail(ValueError) <==>
        (exists r :: r in rowIds && r !in ids) || (!index && |rowIds| != |values|)
      ensures out == Fail(NotImplementedError) <==>
        (forall r :: r in rowIds ==> r in ids) && index && name in old(columns)
      ensures out.Fail? ==> columns == old(columns)
      ensures out.Pass? && !index && name in old(columns) ==>
        columns == old(columns)[name := old(columns)[name].(data := Scatter(ids, rowIds, values, old(columns)[name].data))]
      ensures out.Pass? && !index && name !in old(columns) ==>
        columns == old(columns)[name := Column(description, Scatter(ids, rowIds, values, seq(|ids|, _ => default)), false)]
      ensures out.Pass? && index ==> columns == old(columns)[name := Column(description, values, true)]
    {
      if exists r :: r in rowIds && r !in ids {
        return Fail(ValueError);
      }
      if |rowIds| != |values| && !index {
        return Fail(ValueError);
      }
      if !index {
        if name in columns {
          var i := 0;
          while i < |rowIds|
            invariant 0 <= i <= |rowIds|
            invariant ids == old(ids) && forall r :: r in rowIds ==> r in ids
            invariant columns == old(columns)[name := old(columns)[name].(data := Scatter(ids, rowIds[..i], values[..i], old(columns)[name].data))]
          {
            assert rowIds[..i + 1][..i] == rowIds[..i] && values[..i + 1][..i] == values[..i];
            var col := columns[name];
            columns := columns[name := col.(data := col.data[IndexOf(ids, rowIds[i]) := values[i]])];
            i := i + 1;
          }
          assert rowIds[..i] == rowIds && values[..i] == values;
        } else {
          var colData := seq(|ids|, _ => default);
          var i := 0;
          while i < |rowIds|
            invariant 0 <= i <= |rowIds|
            invariant colData == Scatter(ids, rowIds[..i], values[..i], seq(|ids|, _ => default))
          {
            assert rowIds[..i + 1][..i] == rowIds[..i] && values[..i + 1][..i] == values[..i];
            colData := colData[IndexOf(ids, rowIds[i]) := values[i]];
            i := i + 1;
          }
          assert rowIds[..i] == rowIds && values[..i] == values;
          columns := columns[name := Column(description, colData, false)];
        }
      } else {
        if name in columns {
          return Fail(NotImplementedError);
        }
        columns := columns[name := Column(description, values, true)];
      }
      return Pass;
    }

    /** `add_electrode_column(name, description)`: a new column gets a missing value in every
        existing row; a column that already exists is left as it is. */
    method AddColumn(name: string, description: string)
      requires Valid()
      modifies this
      ensures Valid() && ids == old(ids)
      ensures name in old(columns) ==> columns == old(columns)
      ensures name !in old(columns) ==> columns == old(columns)[name := Column(description, seq(|ids|, _ => Missing), false)]
    {
      if name !in columns {
        columns := columns[name := Column(description, seq(|ids|, _ => Missing), false)];
      }
    }

    /** `add_electrode(id=id, **row)`: appends one row. Every existing column receives the row's
        value for it, or a missing value; a key of the row with no column yet becomes a column
        that is missing in all earlier rows. */
    method AddRow(id: int, row: map<string, Value>)
      requires Valid()
      modifies this
      ensures Valid() && ids == old(ids) + [id]
      ensures columns.Keys == old(columns).Keys + row.Keys
      ensures Extends(old(columns), columns)
      ensures forall c :: c in old(columns) ==>
        columns[c] == old(columns)[c].(data := old(columns)[c].data + [if c in row then row[c] else Missing])
      ensures forall c :: c in row && c !in old(columns) ==>
        columns[c] == Column(c, seq(|old(ids)|, _ => Missing) + [row[c]], false)
    {
      columns := map c | c in columns.Keys + row.Keys ::
        if c in columns then columns[c].(data := columns[c].data + [if c in row then row[c] else Missing])
        else Column(c, seq(|ids|, _ => Missing) + [row[c]], false);
      ids := ids + [id];
    }
  }
}
