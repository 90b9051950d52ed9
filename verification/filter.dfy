/**
 The row filter of the clinician mart (`transform_filter`): keep the rows whose
 value in one column is among a list of values, or, in exclusive mode, the
 rows whose value is not.
 */
module Filter {
  import opened Tables
  import opened Selection

  /** pandas `isin`: the cell holds one of `values`; a missing cell never does. */
  predicate IsIn(v: Option<string>, values: seq<string>)
  {
    v.Some? && v.value in values
  }

  /** Whether row `r` survives the filter on `field`. */
  predicate Passes(r: Row, field: string, values: seq<string>, inclusive: bool)
  {
    IsIn(Cell(r, field), values) == inclusive
  }

  /** The `isin` mask over `field`, negated in exclusive mode. */
  function FilterMask(rows: seq<Row>, field: string, values: seq<string>, inclusive: bool): seq<bool>
  {
    var isin := seq(|rows|, i requires 0 <= i < |rows| => IsIn(Cell(rows[i], field), values));
    if inclusive then isin else Not(isin)
  }

  /**
   The filtered copy of `t`. Selecting a column the frame lacks is an error;
   otherwise the header is kept and only passing rows of `t` remain.
   */
  function TransformFilter(t: Table, field: string, values: seq<string>, inclusive: bool): (r: Result<Table>)
    ensures r.Ok? <==> field in t.columns
    ensures r.Err? ==> r.error == ColumnNotFound(field)
    ensures r.Ok? ==> r.value.columns == t.columns && |r.value.rows| <= |t.rows|
    ensures r.Ok? ==> forall x | x in r.value.rows :: x in t.rows && Passes(x, field, values, inclusive)
  {
    if field !in t.columns then Err(ColumnNotFound(field))
    else
      var mask := FilterMask(t.rows, field, values, inclusive);
      var out := Loc(t.rows, mask);
      assert forall x | x in out :: x in t.rows && Passes(x, field, values, inclusive) by {
        forall x | x in out
          ensures x in t.rows && Passes(x, field, values, inclusive)
        {
          LocMember(t.rows, mask, x);
        }
      }
      Ok(Table(t.columns, out))
  }

  /**
   The filter keeps exactly the passing rows: the result lists, in their
   original order, the rows of `t` at precisely the positions whose row passes.
   */
  lemma FilterSelectsPassing(t: Table, field: string, values: seq<string>, inclusive: bool)
    requires field in t.columns
    ensures var out := TransformFilter(t, field, values, inclusive).value.rows;
      exists idx :: Picks(out, t.rows, idx)
        && forall i | 0 <= i < |t.rows| :: i in idx <==> Passes(t.rows[i], field, values, inclusive)
  {
    var mask := FilterMask(t.rows, field, values, inclusive);
    LocPicks(t.rows, mask);
    var idx := TrueIndices(mask);
    assert forall i | 0 <= i < |t.rows| :: i in idx <==> mask[i];
  }

  /** A passing row is never dropped. */
  lemma FilterKeepsPassing(t: Table, field: string, values: seq<string>, inclusive: bool, i: int)
    requires field in t.columns
    requires 0 <= i < |t.rows| && Passes(t.rows[i], field, values, inclusive)
    ensures t.rows[i] in TransformFilter(t, field, values, inclusive).value.rows
  {
    var out := TransformFilter(t, field, values, inclusive).value.rows;
    FilterSelectsPassing(t, field, values, inclusive);
    var idx :| Picks(out, t.rows, idx)
      && forall i' | 0 <= i' < |t.rows| :: i' in idx <==> Passes(t.rows[i'], field, values, inclusive);
    assert i in idx;
    var j :| 0 <= j < |idx| && idx[j] == i;
    assert out[j] == t.rows[i];
  }

  /**
   The inclusive and the exclusive filter on the same values partition the
   rows: every input position is kept by exactly one of them, and their
   lengths add up to the input's.
   */
  lemma FilterPartition(t: Table, field: string, values: seq<string>)
    requires field in t.columns
    ensures var keep := TransformFilter(t, field, values, true).value.rows;
      var drop := TransformFilter(t, field, values, false).value.rows;
      && |keep| + |drop| == |t.rows|
      && exists inIdx, outIdx :: Picks(keep, t.rows, inIdx) && Picks(drop, t.rows, outIdx)
           && forall i | 0 <= i < |t.rows| :: i in inIdx <==> i !in outIdx
  {
    var isin := FilterMask(t.rows, field, values, true);
    LocPartition(t.rows, isin);
    LocPicks(t.rows, isin);
    LocPicks(t.rows, Not(isin));
    var inIdx, outIdx := TrueIndices(isin), TrueIndices(Not(isin));
    assert forall i | 0 <= i < |t.rows| :: i in inIdx <==> i !in outIdx;
  }

  /** Filtering a filtered frame again with the same arguments changes nothing. */
  lemma FilterIdempotent(t: Table, field: string, values: seq<string>, inclusive: bool)
    requires field in t.columns
    ensures var once := TransformFilter(t, field, values, inclusive);
      TransformFilter(once.value, field, values, inclusive) == once
  {
    var once := TransformFilter(t, field, values, inclusive).value;
    var mask := FilterMask(once.rows, field, values, inclusive);
    forall i | 0 <= i < |mask|
      ensures mask[i]
    {
      assert once.rows[i] in once.rows;
    }
    LocAll(once.rows, mask);
  }

  /** When every row passes, the filter returns the frame unchanged. */
  lemma FilterAllPass(t: Table, field: string, values: seq<string>, inclusive: bool)
    requires field in t.columns
    requires forall i | 0 <= i < |t.rows| :: Passes(t.rows[i], field, values, inclusive)
    ensures TransformFilter(t, field, values, inclusive) == Ok(t)
  {
    LocAll(t.rows, FilterMask(t.rows, field, values, inclusive));
  }

  /** An inclusive filter with no values keeps no row. */
  lemma FilterNoValues(t: Table, field: string)
    requires field in t.columns
    ensures TransformFilter(t, field, [], true).value.rows == []
  {
    LocNone(t.rows, FilterMask(t.rows, field, [], true));
  }

  /** The filter keeps the columns of every surviving row, so well-formedness survives it. */
  lemma FilterWellFormed(t: Table, field: string, values: seq<string>, inclusive: bool)
    requires WellFormed(t) && field in t.columns
    ensures WellFormed(TransformFilter(t, field, values, inclusive).value)
  {
    var out := TransformFilter(t, field, values, inclusive).value;
    forall j | 0 <= j < |out.rows|
      ensures out.rows[j].Keys == set c | c in out.columns
    {
      assert out.rows[j] in out.rows;
      var i :| 0 <= i < |t.rows| && t.rows[i] == out.rows[j];
    }
  }
}
