/**
 Column unification of the clinician mart: the clinician rows and then the
 provider rows are stacked into one frame whose columns are the mapping's
 target names, one `frame[target] = concat(...)` assignment per mapping entry.
 */
module Unification {
  import opened Tables

  /** A mapping entry: the target column and the source column it is read from in each dataset. */
  datatype ColumnMap = ColumnMap(target: string, clinicianCol: string, providerCol: string)

  /** The mapping the clinician mart is built with. */
  const MapList: seq<ColumnMap> := [
    ColumnMap("given_name", "provider first", "first name"),
    ColumnMap("sur_name", "provider last", "last_name"),
    ColumnMap("email_address", "email address", "email"),
    ColumnMap("gender", "Sex", "gender"),
    ColumnMap("care_center_name", "Care Center Name", "Care Center"),
    ColumnMap("languages", "primary language", "languages"),
    ColumnMap("NPI", "NPI", "NPI"),
    ColumnMap("title", "title", "title")
  ]

  /** Both source columns of `m` exist in their datasets. */
  predicate Resolves(c: Table, p: Table, m: ColumnMap)
  {
    m.clinicianCol in c.columns && m.providerCol in p.columns
  }

  /** The error raised for an entry that does not resolve: the clinician column is read first. */
  function MissingError(c: Table, p: Table, m: ColumnMap): Error
  {
    if m.clinicianCol !in c.columns then SourceColumnNotFound(Clinicians, m.clinicianCol)
    else SourceColumnNotFound(Providers, m.providerCol)
  }

  /** No later entry of `ms` assigns the target of entry `k` again. */
  ghost predicate LastWith(ms: seq<ColumnMap>, k: int)
    requires 0 <= k < |ms|
  {
    forall k' | k < k' < |ms| :: ms[k'].target != ms[k].target
  }

  /** `pd.concat` of the clinicians' and the providers' source column for `m`. */
  function Stack(c: Table, p: Table, m: ColumnMap): (r: seq<Option<string>>)
    ensures |r| == |c.rows| + |p.rows|
    ensures forall i | 0 <= i < |c.rows| :: r[i] == Cell(c.rows[i], m.clinicianCol)
    ensures forall i | |c.rows| <= i < |r| :: r[i] == Cell(p.rows[i - |c.rows|], m.providerCol)
  {
    seq(|c.rows|, i requires 0 <= i < |c.rows| => Cell(c.rows[i], m.clinicianCol))
      + seq(|p.rows|, i requires 0 <= i < |p.rows| => Cell(p.rows[i], m.providerCol))
  }

  /** The header after assigning column `name`: a new name joins the end. */
  function AddName(columns: seq<string>, name: string): seq<string>
  {
    if name in columns then columns else columns + [name]
  }

  /** The header of the unified frame: each target once, in order of first assignment. */
  function Targets(ms: seq<ColumnMap>): (r: seq<string>)
    ensures DistinctColumns(r)
    ensures forall col :: col in r <==> exists k | 0 <= k < |ms| :: ms[k].target == col
    decreases |ms|
  {
    if |ms| == 0 then []
    else
      var n := |ms| - 1;
      var r := AddName(Targets(ms[..n]), ms[n].target);
      assert forall col :: col in r <==> exists k | 0 <= k < |ms| :: ms[k].target == col by {
        forall col
          ensures col in r <==> exists k | 0 <= k < |ms| :: ms[k].target == col
        {
          if col in r && col != ms[n].target {
            var k :| 0 <= k < n && ms[..n][k].target == col;
            assert ms[k].target == col;
          }
          if exists k | 0 <= k < |ms| :: ms[k].target == col {
            var k :| 0 <= k < |ms| && ms[k].target == col;
            if k < n {
              assert ms[..n][k].target == col;
            }
          }
        }
      }
      r
  }

  /**
   `frame[name] = values`: the column `name` of every row is set to the
   matching value and nothing else in the row changes; a new name joins the
   end of the header. On the fresh empty frame the values also create the rows.
   */
  function SetColumn(t: Table, name: string, values: seq<Option<string>>): (r: Table)
    requires (|t.columns| == 0 && |t.rows| == 0) || |values| == |t.rows|
    ensures |r.rows| == |values|
    ensures r.columns == AddName(t.columns, name)
    ensures forall i | 0 <= i < |r.rows| :: Cell(r.rows[i], name) == values[i]
    ensures forall i, col | 0 <= i < |t.rows| && col != name :: Cell(r.rows[i], col) == Cell(t.rows[i], col)
  {
    var cols := AddName(t.columns, name);
    if |t.columns| == 0 && |t.rows| == 0 then
      Table(cols, seq(|values|, i requires 0 <= i < |values| => map[name := values[i]]))
    else
      Table(cols, seq(|t.rows|, i requires 0 <= i < |t.rows| => t.rows[i][name := values[i]]))
  }

  /** The columns of each row after `SetColumn`: those it had, plus `name`. */
  lemma SetColumnKeys(t: Table, name: string, values: seq<Option<string>>, i: int)
    requires (|t.columns| == 0 && |t.rows| == 0) || |values| == |t.rows|
    requires 0 <= i < |values|
    ensures SetColumn(t, name, values).rows[i].Keys == (if i < |t.rows| then t.rows[i].Keys else {}) + {name}
  {
  }

  /** Assigning a column that has rows already leaves a column of another name as it was. */
  lemma SetColumnKeepsOther(t: Table, name: string, values: seq<Option<string>>, col: string, vs: seq<Option<string>>)
    requires |values| == |t.rows| == |vs| && col != name
    requires forall i | 0 <= i < |t.rows| :: Cell(t.rows[i], col) == vs[i]
    ensures var r := SetColumn(t, name, values);
      forall i | 0 <= i < |r.rows| :: Cell(r.rows[i], col) == vs[i]
  {
  }

  /**
   The unified frame. It exists exactly when every mapped source column
   exists; its header is the targets, and unless the mapping is empty there
   is one row per clinician row and per provider row.
   */
  function Unify(c: Table, p: Table, ms: seq<ColumnMap>): (r: Result<Table>)
    ensures r.Ok? <==> forall k | 0 <= k < |ms| :: Resolves(c, p, ms[k])
    ensures r.Ok? ==> r.value.columns == Targets(ms)
    ensures r.Ok? && |ms| == 0 ==> r.value == Table([], [])
    ensures r.Ok? && |ms| > 0 ==> |r.value.rows| == |c.rows| + |p.rows|
    decreases |ms|
  {
    if |ms| == 0 then Ok(Table([], []))
    else
      var n := |ms| - 1;
      var t :- Unify(c, p, ms[..n]);
      var m := ms[n];
      if !Resolves(c, p, m) then Err(MissingError(c, p, m))
      else Ok(SetColumn(t, m.target, Stack(c, p, m)))
  }

  /**
   The entries are assigned in order, so a failing unification reports the
   first entry whose source column is missing, the clinician column first.
   */
  lemma {:induction false} UnifyError(c: Table, p: Table, ms: seq<ColumnMap>)
    requires Unify(c, p, ms).Err?
    ensures exists k | 0 <= k < |ms| ::
      && !Resolves(c, p, ms[k])
      && (forall k' | 0 <= k' < k :: Resolves(c, p, ms[k']))
      && Unify(c, p, ms).error == MissingError(c, p, ms[k])
    decreases |ms|
  {
    var n := |ms| - 1;
    var prefix := ms[..n];
    if Unify(c, p, prefix).Err? {
      UnifyError(c, p, prefix);
      var k :| 0 <= k < n && !Resolves(c, p, prefix[k])
        && (forall k' | 0 <= k' < k :: Resolves(c, p, prefix[k']))
        && Unify(c, p, prefix).error == MissingError(c, p, prefix[k]);
      assert forall k' | 0 <= k' <= k :: prefix[k'] == ms[k'];
    } else {
      assert forall k' | 0 <= k' < n :: Resolves(c, p, prefix[k']);
      assert forall k' | 0 <= k' < n :: prefix[k'] == ms[k'];
    }
  }

  /** A successful unification is the one of the mapping without its last entry, plus that entry's column. */
  lemma UnifyStep(c: Table, p: Table, ms: seq<ColumnMap>)
    requires Unify(c, p, ms).Ok? && |ms| > 0
    ensures Unify(c, p, ms[..|ms| - 1]).Ok?
    ensures var n := |ms| - 1;
      Unify(c, p, ms).value == SetColumn(Unify(c, p, ms[..n]).value, ms[n].target, Stack(c, p, ms[n]))
  {
    var n := |ms| - 1;
    assert forall k' | 0 <= k' < n :: ms[..n][k'] == ms[k'];
  }

  /**
   The column assigned by entry `k`, when no later entry overwrites it, holds
   the stacked source column of that entry.
   */
  lemma {:induction false} UnifyColumn(c: Table, p: Table, ms: seq<ColumnMap>, k: int)
    requires Unify(c, p, ms).Ok?
    requires 0 <= k < |ms| && LastWith(ms, k)
    ensures var u := Unify(c, p, ms).value;
      forall i | 0 <= i < |u.rows| :: Cell(u.rows[i], ms[k].target) == Stack(c, p, ms[k])[i]
    decreases |ms|
  {
    var n := |ms| - 1;
    if k < n {
      LastWithPrefix(ms, k);
      UnifyStep(c, p, ms);
      UnifyColumn(c, p, ms[..n], k);
      UnifyColumnStep(c, p, ms, k);
    } else {
      UnifyStep(c, p, ms);
    }
  }

  /** An entry not overwritten in `ms` is not overwritten in `ms` without its last entry either. */
  lemma LastWithPrefix(ms: seq<ColumnMap>, k: int)
    requires 0 <= k < |ms| - 1 && LastWith(ms, k)
    ensures LastWith(ms[..|ms| - 1], k)
  {
    var prefix := ms[..|ms| - 1];
    assert forall k' | k <= k' < |prefix| :: prefix[k'] == ms[k'];
  }

  /**
   If the column of entry `k` holds its stacked values before the last entry
   is assigned, and the last entry names another target, it still does after.
   */
  lemma UnifyColumnStep(c: Table, p: Table, ms: seq<ColumnMap>, k: int)
    requires Unify(c, p, ms).Ok?
    requires 0 <= k < |ms| - 1 && LastWith(ms, k)
    requires Unify(c, p, ms[..|ms| - 1]).Ok?
    requires var t := Unify(c, p, ms[..|ms| - 1]).value;
      forall i | 0 <= i < |t.rows| :: Cell(t.rows[i], ms[k].target) == Stack(c, p, ms[k])[i]
    ensures var u := Unify(c, p, ms).value;
      forall i | 0 <= i < |u.rows| :: Cell(u.rows[i], ms[k].target) == Stack(c, p, ms[k])[i]
  {
    var n := |ms| - 1;
    UnifyStep(c, p, ms);
    assert ms[..n][k] == ms[k];
    SetColumnKeepsOther(Unify(c, p, ms[..n]).value, ms[n].target, Stack(c, p, ms[n]), ms[k].target, Stack(c, p, ms[k]));
  }

  /**
   Unification is a row-wise union: row `i` of the unified frame takes the
   target of entry `k` from clinician row `i` when `i` is below the clinician
   count, and from provider row `i - |c.rows|` otherwise, and there is no
   other row. Only the last entry
   naming a target decides it, since a later assignment overwrites an earlier one.
   */
  lemma UnifyRowOrigin(c: Table, p: Table, ms: seq<ColumnMap>, k: int)
    requires Unify(c, p, ms).Ok?
    requires 0 <= k < |ms| && LastWith(ms, k)
    ensures var u := Unify(c, p, ms).value;
      forall i | 0 <= i < |c.rows| ::
        i < |u.rows| && Cell(u.rows[i], ms[k].target) == Cell(c.rows[i], ms[k].clinicianCol)
    ensures var u := Unify(c, p, ms).value;
      |u.rows| == |c.rows| + |p.rows|
      && forall i | |c.rows| <= i < |u.rows| ::
           Cell(u.rows[i], ms[k].target) == Cell(p.rows[i - |c.rows|], ms[k].providerCol)
  {
    UnifyColumn(c, p, ms, k);
  }

  /**
   Every unified row takes the target of entry `k` from a single source row:
   a clinician row's clinician column or a provider row's provider column.
   */
  lemma UnifyCellOrigin(c: Table, p: Table, ms: seq<ColumnMap>, k: int)
    requires Unify(c, p, ms).Ok?
    requires 0 <= k < |ms| && LastWith(ms, k)
    ensures forall x | x in Unify(c, p, ms).value.rows ::
      || (exists y | y in c.rows :: Cell(x, ms[k].target) == Cell(y, ms[k].clinicianCol))
      || (exists y | y in p.rows :: Cell(x, ms[k].target) == Cell(y, ms[k].providerCol))
  {
    UnifyRowOrigin(c, p, ms, k);
    var u, e := Unify(c, p, ms).value, ms[k];
    forall x | x in u.rows
      ensures || (exists y | y in c.rows :: Cell(x, e.target) == Cell(y, e.clinicianCol))
              || (exists y | y in p.rows :: Cell(x, e.target) == Cell(y, e.providerCol))
    {
      var i :| 0 <= i < |u.rows| && u.rows[i] == x;
      if i < |c.rows| {
        assert c.rows[i] in c.rows;
      } else {
        assert p.rows[i - |c.rows|] in p.rows;
      }
    }
  }

  /** The unified frame is well-formed: every row carries exactly the header's columns. */
  lemma {:induction false} UnifyWellFormed(c: Table, p: Table, ms: seq<ColumnMap>)
    requires Unify(c, p, ms).Ok?
    ensures WellFormed(Unify(c, p, ms).value)
    decreases |ms|
  {
    if |ms| > 0 {
      var n := |ms| - 1;
      var m, prefix := ms[n], ms[..n];
      UnifyStep(c, p, ms);
      UnifyWellFormed(c, p, prefix);
      var t, u := Unify(c, p, prefix).value, Unify(c, p, ms).value;
      forall i | 0 <= i < |u.rows|
        ensures u.rows[i].Keys == set col | col in u.columns
      {
        SetColumnKeys(t, m.target, Stack(c, p, m), i);
      }
    }
  }

  /** The mart's mapping names every target once. */
  lemma MapListTargetsDistinct()
    ensures forall k | 0 <= k < |MapList| :: LastWith(MapList, k)
  {
  }

  /** The NPI and title entries of the mart's mapping, neither overwritten later. */
  lemma MapListKeyEntries()
    ensures MapList[6] == ColumnMap("NPI", "NPI", "NPI") && LastWith(MapList, 6)
    ensures MapList[7] == ColumnMap("title", "title", "title") && LastWith(MapList, 7)
  {
  }
}
