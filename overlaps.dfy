/** The overlaps table and its deduplication (`remove_duplicates`): a row is
    deleted when another row records the same ordered pair of files with a
    smaller `overlap_id`. The statement's condition is evaluated against the
    table as it was before the delete. */
module Overlaps {
  import opened Wrappers

  /** A row of `overlaps(overlap_id, file1_id, file2_id, background1, background2)`. */
  datatype Overlap = Overlap(overlapId: int, file1Id: int, file2Id: int,
                             background1: Option<real>, background2: Option<real>)

  /** Two rows record the same ordered pair of files. */
  predicate SamePair(a: Overlap, b: Overlap)
  {
    a.file1Id == b.file1Id && a.file2Id == b.file2Id
  }

  /** The `WHERE EXISTS` condition: some row of `table` has the same pair and
      a smaller id. */
  predicate Superseded(x: Overlap, table: seq<Overlap>)
  {
    exists y :: y in table && SamePair(x, y) && y.overlapId < x.overlapId
  }

  /** The rows of `rows`, in order, that are not superseded in `table`. */
  function KeepUnsuperseded(rows: seq<Overlap>, table: seq<Overlap>): (kept: seq<Overlap>)
    ensures forall x :: x in kept <==> x in rows && !Superseded(x, table)
    ensures |kept| <= |rows|
    decreases |rows|
  {
    if |rows| == 0 then []
    else
      var rest := KeepUnsuperseded(rows[1..], table);
      assert forall x :: x in rows <==> x == rows[0] || x in rows[1..] by {
        assert rows == [rows[0]] + rows[1..];
      }
      if Superseded(rows[0], table) then rest else [rows[0]] + rest
  }

  /** The table left by `remove_duplicates`: only rows of the table, no more
      of them, and no row left is superseded by another row left. */
  function RemoveDuplicates(table: seq<Overlap>): (after: seq<Overlap>)
    ensures |after| <= |table|
    ensures forall x :: x in after ==> x in table
    ensures forall x :: x in after ==> !Superseded(x, after)
  {
    var after := KeepUnsuperseded(table, table);
    assert forall y :: y in after ==> y in table;
    after
  }

  /** A row survives exactly when no row of its pair has a smaller id, so the
      survivors of each pair hold the minimum id of that pair. */
  lemma RemoveDuplicatesKeepsMinimum(table: seq<Overlap>, x: Overlap)
    ensures x in RemoveDuplicates(table) <==>
      x in table && forall y :: y in table && SamePair(x, y) ==> x.overlapId <= y.overlapId
  {
  }

  /** A row of the pair of `y` with the smallest id. */
  lemma {:induction false} MinimumOfPair(table: seq<Overlap>, y: Overlap) returns (m: Overlap)
    requires y in table
    ensures m in table && SamePair(m, y)
    ensures forall z :: z in table && SamePair(z, y) ==> m.overlapId <= z.overlapId
    decreases |table|
  {
    assert table == [table[0]] + table[1..];
    if z :| z in table[1..] && SamePair(z, y) {
      var rest := MinimumOfPair(table[1..], z);
      if SamePair(table[0], y) && table[0].overlapId < rest.overlapId {
        m := table[0];
      } else {
        m := rest;
      }
    } else {
      m := table[0];
    }
  }

  /** Every pair present before the delete is still present after it. */
  lemma RemoveDuplicatesKeepsPairs(table: seq<Overlap>, y: Overlap)
    requires y in table
    ensures exists x :: x in RemoveDuplicates(table) && SamePair(x, y) && x.overlapId <= y.overlapId
  {
    var m := MinimumOfPair(table, y);
    RemoveDuplicatesKeepsMinimum(table, m);
    assert m in RemoveDuplicates(table);
  }

  /** `overlap_id` is the primary key: no two rows share it. */
  ghost predicate DistinctIds(table: seq<Overlap>)
  {
    forall i, j :: 0 <= i < |table| && 0 <= j < |table| && i != j ==> table[i].overlapId != table[j].overlapId
  }

  /** With distinct ids, exactly one row of each pair survives. */
  lemma RemoveDuplicatesOnePerPair(table: seq<Overlap>, x: Overlap, x': Overlap)
    requires DistinctIds(table)
    requires x in RemoveDuplicates(table) && x' in RemoveDuplicates(table)
    requires SamePair(x, x')
    ensures x == x'
  {
    RemoveDuplicatesKeepsMinimum(table, x);
    RemoveDuplicatesKeepsMinimum(table, x');
    var i :| 0 <= i < |table| && table[i] == x;
    var j :| 0 <= j < |table| && table[j] == x';
  }

  /** Rows that nothing supersedes are all kept, in order. */
  lemma {:induction false} KeepUnsupersededAll(rows: seq<Overlap>, table: seq<Overlap>)
    requires forall x :: x in rows ==> !Superseded(x, table)
    ensures KeepUnsuperseded(rows, table) == rows
    decreases |rows|
  {
    if |rows| > 0 {
      assert rows[0] in rows;
      forall x | x in rows[1..] ensures !Superseded(x, table) {
        assert x in rows;
      }
      KeepUnsupersededAll(rows[1..], table);
      assert rows == [rows[0]] + rows[1..];
    }
  }

  /** Running `remove_duplicates` a second time deletes nothing. */
  lemma RemoveDuplicatesIdempotent(table: seq<Overlap>)
    ensures RemoveDuplicates(RemoveDuplicates(table)) == RemoveDuplicates(table)
  {
    var once := RemoveDuplicates(table);
    assert forall y :: y in once ==> y in table;
    assert forall x :: x in once ==> !Superseded(x, once);
    KeepUnsupersededAll(once, once);
  }

  /** The delete keeps the surviving rows in table order: the survivors of a
      concatenation are the survivors of each part. */
  lemma {:induction false} KeepUnsupersededAppend(a: seq<Overlap>, b: seq<Overlap>, table: seq<Overlap>)
    ensures KeepUnsuperseded(a + b, table) == KeepUnsuperseded(a, table) + KeepUnsuperseded(b, table)
    decreases |a|
  {
    if |a| == 0 {
      assert a + b == b;
    } else {
      assert (a + b)[1..] == a[1..] + b;
      assert (a + b)[0] == a[0];
      KeepUnsupersededAppend(a[1..], b, table);
    }
  }
}
