/**
 Boolean-mask row selection, the `frame.loc[mask, :]` step with which both the
 filter and the deduplicator finish: the rows whose mask entry is true, in
 their original order.
 */
module Selection {

  /** The rows of `rows` whose entry in `mask` is true, in order. */
  function Loc<T>(rows: seq<T>, mask: seq<bool>): (r: seq<T>)
    requires |mask| == |rows|
    ensures |r| <= |rows|
    decreases |rows|
  {
    if |rows| == 0 then []
    else
      var n := |rows| - 1;
      Loc(rows[..n], mask[..n]) + (if mask[n] then [rows[n]] else [])
  }

  /** The positions at which `mask` is true, in ascending order. */
  function TrueIndices(mask: seq<bool>): (r: seq<nat>)
    ensures forall j | 0 <= j < |r| :: r[j] < |mask| && mask[r[j]]
    ensures forall j, k | 0 <= j < k < |r| :: r[j] < r[k]
    ensures forall i | 0 <= i < |mask| && mask[i] :: i in r
    decreases |mask|
  {
    if |mask| == 0 then []
    else
      var n := |mask| - 1;
      TrueIndices(mask[..n]) + (if mask[n] then [n] else [])
  }

  /** The mask that selects exactly the rows `mask` leaves out. */
  function Not(mask: seq<bool>): (r: seq<bool>)
    ensures |r| == |mask|
    ensures forall i | 0 <= i < |mask| :: r[i] != mask[i]
  {
    seq(|mask|, i requires 0 <= i < |mask| => !mask[i])
  }

  /** `out` lists the rows of `rows` at the strictly increasing positions `idx`. */
  ghost predicate Picks<T>(out: seq<T>, rows: seq<T>, idx: seq<nat>)
  {
    && |idx| == |out|
    && (forall j | 0 <= j < |idx| :: idx[j] < |rows| && out[j] == rows[idx[j]])
    && (forall j, k | 0 <= j < k < |idx| :: idx[j] < idx[k])
  }

  /** `Loc` keeps precisely the rows at the positions where the mask is true, in order. */
  lemma {:induction false} LocPicks<T>(rows: seq<T>, mask: seq<bool>)
    requires |mask| == |rows|
    ensures Picks(Loc(rows, mask), rows, TrueIndices(mask))
    decreases |rows|
  {
    if |rows| > 0 {
      var n := |rows| - 1;
      LocPicks(rows[..n], mask[..n]);
      var out0, idx0 := Loc(rows[..n], mask[..n]), TrueIndices(mask[..n]);
      var out, idx := Loc(rows, mask), TrueIndices(mask);
      assert out == out0 + (if mask[n] then [rows[n]] else []);
      assert idx == idx0 + (if mask[n] then [n] else []);
      assert |idx| == |out|;
      forall j | 0 <= j < |idx|
        ensures idx[j] < |rows| && out[j] == rows[idx[j]]
      {
        if j < |idx0| {
          assert idx[j] == idx0[j] && out[j] == out0[j];
          assert rows[..n][idx0[j]] == rows[idx0[j]];
        }
      }
    }
  }

  /** A row survives exactly when some position carrying it is selected. */
  lemma LocMember<T>(rows: seq<T>, mask: seq<bool>, x: T)
    requires |mask| == |rows|
    ensures x in Loc(rows, mask) <==> exists i | 0 <= i < |rows| :: mask[i] && rows[i] == x
  {
    var out, idx := Loc(rows, mask), TrueIndices(mask);
    LocPicks(rows, mask);
    if x in out {
      var j :| 0 <= j < |out| && out[j] == x;
      assert mask[idx[j]] && rows[idx[j]] == x;
    }
    if exists i | 0 <= i < |rows| :: mask[i] && rows[i] == x {
      var i :| 0 <= i < |rows| && mask[i] && rows[i] == x;
      var j :| 0 <= j < |idx| && idx[j] == i;
      assert out[j] == x;
    }
  }

  /** A mask that selects every row selects the whole sequence. */
  lemma {:induction false} LocAll<T>(rows: seq<T>, mask: seq<bool>)
    requires |mask| == |rows|
    requires forall i | 0 <= i < |mask| :: mask[i]
    ensures Loc(rows, mask) == rows
    decreases |rows|
  {
    if |rows| > 0 {
      var n := |rows| - 1;
      LocAll(rows[..n], mask[..n]);
      assert rows[..n] + [rows[n]] == rows;
    }
  }

  /** A mask that selects no row selects nothing. */
  lemma {:induction false} LocNone<T>(rows: seq<T>, mask: seq<bool>)
    requires |mask| == |rows|
    requires forall i | 0 <= i < |mask| :: !mask[i]
    ensures Loc(rows, mask) == []
    decreases |rows|
  {
    if |rows| > 0 {
      var n := |rows| - 1;
      LocNone(rows[..n], mask[..n]);
    }
  }

  /**
   A mask and its complement split the rows: the two selections together
   have as many rows as the input.
   */
  lemma {:induction false} LocPartition<T>(rows: seq<T>, mask: seq<bool>)
    requires |mask| == |rows|
    ensures |Loc(rows, mask)| + |Loc(rows, Not(mask))| == |rows|
    decreases |rows|
  {
    if |rows| > 0 {
      var n := |rows| - 1;
      LocPartition(rows[..n], mask[..n]);
      LocNotStep(rows, mask);
      assert Loc(rows, mask) == Loc(rows[..n], mask[..n]) + (if mask[n] then [rows[n]] else []);
    }
  }

  /** Unfolds `Loc` of a complement mask by one row. */
  lemma LocNotStep<T>(rows: seq<T>, mask: seq<bool>)
    requires 0 < |mask| == |rows|
    ensures Loc(rows, Not(mask))
      == Loc(rows[..|rows| - 1], Not(mask[..|rows| - 1]))
         + (if mask[|rows| - 1] then [] else [rows[|rows| - 1]])
  {
    var n := |rows| - 1;
    assert Not(mask)[..n] == Not(mask[..n]);
  }
}
