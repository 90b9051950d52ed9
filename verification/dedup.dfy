/**
 The deduplicator of the clinician mart (`transform_dedup`): drop every row
 that pandas' `duplicated(subset=fields, keep=...)` flags, so that one row per
 key survives, the last occurrence by default or the first on request.
 */
module Dedup {
  import opened Tables
  import opened Selection

  /** Which occurrence of a repeated key survives. */
  datatype Keep = First | Last

  /** The key of a row: its cells in the key columns, in the order the columns are listed. */
  function Key(r: Row, fields: seq<string>): seq<Option<string>>
  {
    seq(|fields|, k requires 0 <= k < |fields| => Cell(r, fields[k]))
  }

  /**
   pandas `duplicated`: the row at `i` shares its key with an earlier row
   (keep first) or with a later one (keep last).
   */
  predicate Duplicated(rows: seq<Row>, fields: seq<string>, keep: Keep, i: int)
    requires 0 <= i < |rows|
  {
    match keep
    case First => exists j | 0 <= j < i :: Key(rows[j], fields) == Key(rows[i], fields)
    case Last => exists j | i < j < |rows| :: Key(rows[j], fields) == Key(rows[i], fields)
  }

  /** The negated `duplicated` mask. */
  function DedupMask(rows: seq<Row>, fields: seq<string>, keep: Keep): seq<bool>
  {
    seq(|rows|, i requires 0 <= i < |rows| => !Duplicated(rows, fields, keep, i))
  }

  /** The first of `fields` that is not a column of the frame, if any. */
  function FirstMissing(fields: seq<string>, columns: seq<string>): (r: Option<string>)
    ensures r.None? <==> forall f | f in fields :: f in columns
    ensures r.Some? ==> r.value in fields && r.value !in columns
  {
    if |fields| == 0 then None
    else if fields[0] !in columns then Some(fields[0])
    else FirstMissing(fields[1..], columns)
  }

  /** The frame has the row at `i` as the last one carrying its key. */
  ghost predicate LastOfKey(rows: seq<Row>, fields: seq<string>, i: int)
    requires 0 <= i < |rows|
  {
    forall j | i < j < |rows| :: Key(rows[j], fields) != Key(rows[i], fields)
  }

  /** The frame has the row at `i` as the first one carrying its key. */
  ghost predicate FirstOfKey(rows: seq<Row>, fields: seq<string>, i: int)
    requires 0 <= i < |rows|
  {
    forall j | 0 <= j < i :: Key(rows[j], fields) != Key(rows[i], fields)
  }

  /** No two rows of `rows` share a key. */
  ghost predicate UniqueKeys(rows: seq<Row>, fields: seq<string>)
  {
    forall a, b | 0 <= a < b < |rows| :: Key(rows[a], fields) != Key(rows[b], fields)
  }

  /**
   The deduplicated copy of `t`. An empty frame comes back as it is before
   the key columns are looked at; otherwise a key column the frame lacks, or
   an empty list of key columns, is an error. A result never has more rows.
   */
  function TransformDedup(t: Table, fields: seq<string>, keep: Keep): (r: Result<Table>)
    ensures r.Ok? <==> |t.rows| == 0 || (|fields| > 0 && forall f | f in fields :: f in t.columns)
    ensures r.Err? ==> r.error == EmptyKey || (r.error.ColumnNotFound? && r.error.column in fields
                                                && r.error.column !in t.columns)
    ensures r.Err? ==> (r.error == EmptyKey <==> |fields| == 0)
    ensures r.Ok? ==> r.value.columns == t.columns && |r.value.rows| <= |t.rows|
  {
    if |t.rows| == 0 then Ok(t)
    else match FirstMissing(fields, t.columns)
      case Some(c) => Err(ColumnNotFound(c))
      case None =>
        if |fields| == 0 then Err(EmptyKey)
        else Ok(Table(t.columns, Loc(t.rows, DedupMask(t.rows, fields, keep))))
  }

  /** After deduplication no two rows share a key. */
  lemma DedupUnique(t: Table, fields: seq<string>, keep: Keep)
    requires TransformDedup(t, fields, keep).Ok?
    ensures UniqueKeys(TransformDedup(t, fields, keep).value.rows, fields)
  {
    if |t.rows| > 0 {
      var mask := DedupMask(t.rows, fields, keep);
      var out, idx := Loc(t.rows, mask), TrueIndices(mask);
      LocPicks(t.rows, mask);
      forall a, b | 0 <= a < b < |out|
        ensures Key(out[a], fields) != Key(out[b], fields)
      {
        assert idx[a] < idx[b];
        assert mask[idx[a]] && mask[idx[b]];
      }
    }
  }

  /** The last row carrying the key of the row at `i`. */
  lemma {:induction false} LastOccurrence(rows: seq<Row>, fields: seq<string>, i: int) returns (j: int)
    requires 0 <= i < |rows|
    ensures i <= j < |rows| && Key(rows[j], fields) == Key(rows[i], fields)
    ensures LastOfKey(rows, fields, j)
    decreases |rows| - i
  {
    if Duplicated(rows, fields, Last, i) {
      var k :| i < k < |rows| && Key(rows[k], fields) == Key(rows[i], fields);
      j := LastOccurrence(rows, fields, k);
    } else {
      j := i;
    }
  }

  /** The first row carrying the key of the row at `i`. */
  lemma {:induction false} FirstOccurrence(rows: seq<Row>, fields: seq<string>, i: int) returns (j: int)
    requires 0 <= i < |rows|
    ensures 0 <= j <= i && Key(rows[j], fields) == Key(rows[i], fields)
    ensures FirstOfKey(rows, fields, j)
    decreases i
  {
    if Duplicated(rows, fields, First, i) {
      var k :| 0 <= k < i && Key(rows[k], fields) == Key(rows[i], fields);
      j := FirstOccurrence(rows, fields, k);
    } else {
      j := i;
    }
  }

  /** A row survives exactly when it is the occurrence of its key the policy keeps. */
  lemma DedupMaskKeeps(rows: seq<Row>, fields: seq<string>, keep: Keep, i: int)
    requires 0 <= i < |rows|
    ensures DedupMask(rows, fields, keep)[i]
        <==> (if keep == Last then LastOfKey(rows, fields, i) else FirstOfKey(rows, fields, i))
  {
  }

  /**
   The `duplicated` mask leaves exactly one row of every key unflagged: the
   highest-indexed row carrying it under keep last, the lowest under keep first.
   */
  lemma DedupMaskSurvivor(rows: seq<Row>, fields: seq<string>, keep: Keep, i: int)
    requires 0 <= i < |rows|
    ensures var mask := DedupMask(rows, fields, keep);
      exists j | 0 <= j < |rows| ::
        && mask[j] && Key(rows[j], fields) == Key(rows[i], fields)
        && (forall j' | 0 <= j' < |rows| && mask[j'] && Key(rows[j'], fields) == Key(rows[i], fields) :: j' == j)
        && (forall k | 0 <= k < |rows| && Key(rows[k], fields) == Key(rows[i], fields) ::
              if keep == Last then k <= j else j <= k)
  {
    var mask := DedupMask(rows, fields, keep);
    var j;
    if keep == Last {
      j := LastOccurrence(rows, fields, i);
    } else {
      j := FirstOccurrence(rows, fields, i);
    }
    DedupMaskKeeps(rows, fields, keep, j);
    forall j' | 0 <= j' < |rows| && mask[j'] && Key(rows[j'], fields) == Key(rows[i], fields)
      ensures j' == j
    {
      DedupMaskKeeps(rows, fields, keep, j');
    }
  }

  /**
   With keep last, the result lists, in order, exactly the rows that are the
   highest-indexed occurrence of their key.
   */
  lemma DedupKeepsLast(t: Table, fields: seq<string>)
    requires TransformDedup(t, fields, Last).Ok?
    ensures var out := TransformDedup(t, fields, Last).value.rows;
      exists idx :: Picks(out, t.rows, idx)
        && forall i | 0 <= i < |t.rows| :: i in idx <==> LastOfKey(t.rows, fields, i)
  {
    if |t.rows| == 0 {
      assert Picks(t.rows, t.rows, []);
    } else {
      var mask := DedupMask(t.rows, fields, Last);
      LocPicks(t.rows, mask);
      var idx := TrueIndices(mask);
      forall i | 0 <= i < |t.rows|
        ensures i in idx <==> LastOfKey(t.rows, fields, i)
      {
        DedupMaskKeeps(t.rows, fields, Last, i);
      }
    }
  }

  /** With keep last, every surviving row is the last occurrence of its key in the input. */
  lemma DedupRowsAreLast(t: Table, fields: seq<string>)
    requires TransformDedup(t, fields, Last).Ok?
    ensures forall x | x in TransformDedup(t, fields, Last).value.rows ::
      exists q | 0 <= q < |t.rows| :: t.rows[q] == x && LastOfKey(t.rows, fields, q)
  {
    var out := TransformDedup(t, fields, Last).value.rows;
    DedupKeepsLast(t, fields);
    var idx :| Picks(out, t.rows, idx)
      && forall i | 0 <= i < |t.rows| :: i in idx <==> LastOfKey(t.rows, fields, i);
    forall x | x in out
      ensures exists q | 0 <= q < |t.rows| :: t.rows[q] == x && LastOfKey(t.rows, fields, q)
    {
      var j :| 0 <= j < |out| && out[j] == x;
      assert idx[j] in idx;
    }
  }

  /** With keep last, every input row that is the last occurrence of its key survives. */
  lemma DedupKeepsEveryLast(t: Table, fields: seq<string>)
    requires TransformDedup(t, fields, Last).Ok?
    ensures forall q | 0 <= q < |t.rows| && LastOfKey(t.rows, fields, q) ::
      t.rows[q] in TransformDedup(t, fields, Last).value.rows
  {
    var out := TransformDedup(t, fields, Last).value.rows;
    DedupKeepsLast(t, fields);
    var idx :| Picks(out, t.rows, idx)
      && forall i | 0 <= i < |t.rows| :: i in idx <==> LastOfKey(t.rows, fields, i);
    forall q | 0 <= q < |t.rows| && LastOfKey(t.rows, fields, q)
      ensures t.rows[q] in out
    {
      assert q in idx;
      var j :| 0 <= j < |idx| && idx[j] == q;
      assert out[j] == t.rows[q];
    }
  }

  /**
   With keep first, the result lists, in order, exactly the rows that are the
   lowest-indexed occurrence of their key.
   */
  lemma DedupKeepsFirst(t: Table, fields: seq<string>)
    requires TransformDedup(t, fields, First).Ok?
    ensures var out := TransformDedup(t, fields, First).value.rows;
      exists idx :: Picks(out, t.rows, idx)
        && forall i | 0 <= i < |t.rows| :: i in idx <==> FirstOfKey(t.rows, fields, i)
  {
    if |t.rows| == 0 {
      assert Picks(t.rows, t.rows, []);
    } else {
      var mask := DedupMask(t.rows, fields, First);
      LocPicks(t.rows, mask);
      var idx := TrueIndices(mask);
      forall i | 0 <= i < |t.rows|
        ensures i in idx <==> FirstOfKey(t.rows, fields, i)
      {
        DedupMaskKeeps(t.rows, fields, First, i);
      }
    }
  }

  /** Every key of the input is the key of some row of the result. */
  lemma DedupCoversKeys(t: Table, fields: seq<string>, keep: Keep)
    requires TransformDedup(t, fields, keep).Ok?
    ensures var out := TransformDedup(t, fields, keep).value.rows;
      forall i | 0 <= i < |t.rows| :: exists p | 0 <= p < |out| :: Key(out[p], fields) == Key(t.rows[i], fields)
  {
    if |t.rows| > 0 {
      var mask := DedupMask(t.rows, fields, keep);
      var out, idx := Loc(t.rows, mask), TrueIndices(mask);
      LocPicks(t.rows, mask);
      forall i | 0 <= i < |t.rows|
        ensures exists p | 0 <= p < |out| :: Key(out[p], fields) == Key(t.rows[i], fields)
      {
        var j;
        if keep == Last {
          j := LastOccurrence(t.rows, fields, i);
        } else {
          j := FirstOccurrence(t.rows, fields, i);
        }
        DedupMaskKeeps(t.rows, fields, keep, j);
        assert j in idx;
        var p :| 0 <= p < |idx| && idx[p] == j;
        assert out[p] == t.rows[j];
      }
    }
  }

  /** A frame whose keys are already unique comes back unchanged. */
  lemma DedupIdentity(t: Table, fields: seq<string>, keep: Keep)
    requires TransformDedup(t, fields, keep).Ok?
    requires UniqueKeys(t.rows, fields)
    ensures TransformDedup(t, fields, keep).value == t
  {
    if |t.rows| > 0 {
      var mask := DedupMask(t.rows, fields, keep);
      forall i | 0 <= i < |mask|
        ensures mask[i]
      {
        DedupMaskKeeps(t.rows, fields, keep, i);
      }
      LocAll(t.rows, mask);
    }
  }

  /** Deduplication keeps whole rows and the header, so well-formedness survives it. */
  lemma DedupWellFormed(t: Table, fields: seq<string>, keep: Keep)
    requires WellFormed(t) && TransformDedup(t, fields, keep).Ok?
    ensures WellFormed(TransformDedup(t, fields, keep).value)
  {
    if |t.rows| > 0 {
      var mask := DedupMask(t.rows, fields, keep);
      var out, idx := Loc(t.rows, mask), TrueIndices(mask);
      LocPicks(t.rows, mask);
      forall j | 0 <= j < |out|
        ensures out[j].Keys == set c | c in t.columns
      {
        assert out[j] == t.rows[idx[j]];
      }
    }
  }
}
