/** Column removal (`remove_column`) by the rebuild idiom: the current column
    names are read, the first one whose stripped form is the column to drop is
    popped, and the table is rebuilt with the remaining names and the values
    of those columns copied across, row by row. */
module Schema {
  import opened Wrappers
  import opened Text

  /** A value stored in a table cell. */
  datatype Value = Null | Integer(i: int) | Decimal(d: real) | Str(s: string)

  /** `np.char.strip(col_names)`: every column name stripped of surrounding
      whitespace. */
  function StrippedNames(cols: seq<string>): (names: seq<string>)
    ensures |names| == |cols|
  {
    seq(|cols|, k requires 0 <= k < |cols| => Strip(cols[k]))
  }

  /** `np.where(names == drop)[0][0]`: the first position holding `drop`;
      `None` where numpy's empty index array would raise an index error. */
  function FirstIndexOf(names: seq<string>, drop: string): (r: Option<nat>)
    ensures r.None? <==> drop !in names
    ensures r.Some? ==>
      && r.value < |names| && names[r.value] == drop
      && drop !in names[..r.value]
    decreases |names|
  {
    if |names| == 0 then None
    else if names[0] == drop then Some(0)
    else match FirstIndexOf(names[1..], drop)
      case None => None
      case Some(k) =>
        assert names[..k + 1] == [names[0]] + names[1..][..k];
        Some(k + 1)
  }

  /** The position `remove_column` pops: the first column whose name, once
      stripped, is `drop`. */
  function FirstMatch(cols: seq<string>, drop: string): (r: Option<nat>)
    ensures r.None? <==> forall k :: 0 <= k < |cols| ==> Strip(cols[k]) != drop
    ensures r.Some? ==>
      && r.value < |cols| && Strip(cols[r.value]) == drop
      && forall k :: 0 <= k < r.value ==> Strip(cols[k]) != drop
  {
    var names := StrippedNames(cols);
    var r := FirstIndexOf(names, drop);
    assert forall k :: 0 <= k < |cols| ==> names[k] == Strip(cols[k]);
    assert r.Some? ==> forall k :: 0 <= k < r.value ==> names[..r.value][k] == names[k];
    r
  }

  /** `s.pop(k)` on a list, as the value left behind: one element shorter,
      with the elements before `k` in place and those after it moved down by
      one. */
  function RemoveAt<T>(s: seq<T>, k: nat): (r: seq<T>)
    requires k < |s|
    ensures |r| == |s| - 1
    ensures forall j :: 0 <= j < |r| ==> r[j] == s[if j < k then j else j + 1]
  {
    s[..k] + s[k + 1..]
  }

  /** Removing position `k` removes exactly one occurrence of `s[k]` and
      nothing else. */
  lemma RemoveAtSpec<T>(s: seq<T>, k: nat)
    requires k < |s|
    ensures multiset(RemoveAt(s, k)) + multiset{s[k]} == multiset(s)
  {
    assert s == s[..k] + [s[k]] + s[k + 1..];
  }

  /** The column list `remove_column` rebuilds the table with, or `None` (the
      index error) when no name strips to `drop`. An absent column is an
      error, not a no-op; otherwise exactly one name goes, the first that
      strips to `drop`, the rest keep their order, and when it was the only
      name that strips to `drop` no surviving name does. */
  function SurvivingColumns(cols: seq<string>, drop: string): (r: Option<seq<string>>)
    ensures r.None? <==> forall k :: 0 <= k < |cols| ==> Strip(cols[k]) != drop
    ensures r.Some? ==>
      var k := FirstMatch(cols, drop).value;
      && |r.value| == |cols| - 1
      && Strip(cols[k]) == drop
      && (forall j :: 0 <= j < |r.value| ==> r.value[j] == cols[if j < k then j else j + 1])
      && ((forall j :: 0 <= j < |cols| && j != k ==> Strip(cols[j]) != drop) ==>
            forall j :: 0 <= j < |r.value| ==> Strip(r.value[j]) != drop)
  {
    match FirstMatch(cols, drop)
    case None => None
    case Some(k) => Some(RemoveAt(cols, k))
  }

  /** How `remove_column` ends: the column is gone, or the pop raised because
      no column matched, or the rebuild script failed because no column was
      left to create the table with. */
  datatype RemoveOutcome = Removed | NoSuchColumn | NoColumnLeft

  /** A table as its column names and its rows of cell values. */
  class Table {
    var columns: seq<string>
    var rows: seq<seq<Value>>

    /** Every row has one value per column. */
    ghost predicate Valid()
      reads this
    {
      forall i :: 0 <= i < |rows| ==> |rows[i]| == |columns|
    }

    constructor (columns: seq<string>)
      ensures Valid() && this.columns == columns && rows == []
    {
      this.columns := columns;
      rows := [];
    }

    /** `remove_column(db_name, table_name, drop)`. With no matching column
        the pop raises before anything is changed. When the matching column is
        the only one, the rebuild script's `CREATE TABLE` has no columns: the
        script raises before its `COMMIT`, so the rename is never committed
        and the table stays as it was. Otherwise the table is rebuilt with the surviving columns, each
        row keeping its values for them. */
    method RemoveColumn(drop: string) returns (outcome: RemoveOutcome)
      requires Valid()
      modifies this
      ensures Valid()
      ensures outcome == NoSuchColumn <==> FirstMatch(old(columns), drop).None?
      ensures outcome == NoColumnLeft <==> FirstMatch(old(columns), drop).Some? && |old(columns)| == 1
      ensures outcome != Removed ==> columns == old(columns) && rows == old(rows)
      ensures outcome == Removed ==>
        var k := FirstMatch(old(columns), drop).value;
        && columns == RemoveAt(old(columns), k)
        && |rows| == |old(rows)|
        && forall i :: 0 <= i < |rows| ==> rows[i] == RemoveAt(old(rows)[i], k)
    {
      var colNames := columns;
      var found := FirstMatch(colNames, drop);
      if found.None? {
        return NoSuchColumn;
      }
      var k := found.value;
      colNames := RemoveAt(colNames, k);
      if |colNames| == 0 {
        return NoColumnLeft;
      }
      // Rename to a temporary table, create the table anew with `colNames`,
      // copy those columns across and drop the temporary table.
      var old_rows := rows;
      rows := seq(|old_rows|, i requires 0 <= i < |old_rows| => RemoveAt(old_rows[i], k));
      columns := colNames;
      return Removed;
    }
  }
}
