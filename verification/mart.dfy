/**
 The clinician mart pipeline: unify the clinician and provider frames under a
 column mapping, keep the rows titled "Dr", normalise the NPI column and drop
 all but the last row of every NPI. The mart itself runs it with `MapList`.
 */
module Mart {
  import opened Tables
  import opened Unification
  import opened Filter
  import opened Npi
  import opened Dedup

  /** The titles the mart keeps. */
  const Titles: seq<string> := ["Dr"]

  /**
   The pipeline under mapping `ms`. It fails when unification does, and
   otherwise when the mapping provides no "title" or no "NPI" column.
   */
  function BuildMart(c: Table, p: Table, ms: seq<ColumnMap>): (r: Result<Table>)
    ensures r.Ok? <==> && (forall k | 0 <= k < |ms| :: Resolves(c, p, ms[k]))
                       && "title" in Targets(ms) && "NPI" in Targets(ms)
  {
    var unified :- Unify(c, p, ms);
    var filtered :- TransformFilter(unified, "title", Titles, true);
    var split :- ApplyNpiSplit(filtered, "NPI");
    TransformDedup(split, ["NPI"], Last)
  }

  /** The clinician mart: the pipeline under the mart's own mapping. */
  function ClinicianMart(c: Table, p: Table): (r: Result<Table>)
    ensures r.Ok? <==> forall k | 0 <= k < |MapList| :: Resolves(c, p, MapList[k])
    ensures r.Err? ==> r == Unify(c, p, MapList)
  {
    MapListKeyEntries();
    BuildMart(c, p, MapList)
  }

  /** The unified frame of a successful run. */
  function Unified(c: Table, p: Table, ms: seq<ColumnMap>): Table
    requires BuildMart(c, p, ms).Ok?
  {
    Unify(c, p, ms).value
  }

  /** The frame after the title filter. */
  function Filtered(c: Table, p: Table, ms: seq<ColumnMap>): Table
    requires BuildMart(c, p, ms).Ok?
  {
    TransformFilter(Unified(c, p, ms), "title", Titles, true).value
  }

  /** The frame after NPI normalisation, the one that is deduplicated. */
  function Split(c: Table, p: Table, ms: seq<ColumnMap>): Table
    requires BuildMart(c, p, ms).Ok?
  {
    ApplyNpiSplit(Filtered(c, p, ms), "NPI").value
  }

  /** The NPI key of a row, as the deduplicator compares it. */
  lemma NpiKey(r: Row)
    ensures Key(r, ["NPI"]) == [Cell(r, "NPI")]
  {
  }

  /** A successful run is the deduplication, on NPI keeping the last, of the normalised frame. */
  lemma MartIsDedupOfSplit(c: Table, p: Table, ms: seq<ColumnMap>)
    requires BuildMart(c, p, ms).Ok?
    ensures BuildMart(c, p, ms) == TransformDedup(Split(c, p, ms), ["NPI"], Last)
  {
  }

  /** Every row of the result is a row of the normalised frame. */
  lemma MartFromSplit(c: Table, p: Table, ms: seq<ColumnMap>)
    requires BuildMart(c, p, ms).Ok?
    ensures forall x | x in BuildMart(c, p, ms).value.rows :: x in Split(c, p, ms).rows
  {
    DedupKeepsLast(Split(c, p, ms), ["NPI"]);
  }

  /** Every row of the result is titled "Dr". */
  lemma MartTitles(c: Table, p: Table, ms: seq<ColumnMap>)
    requires BuildMart(c, p, ms).Ok?
    ensures forall x | x in BuildMart(c, p, ms).value.rows :: Cell(x, "title") == Some("Dr")
  {
    MartFromSplit(c, p, ms);
    var f, s := Filtered(c, p, ms), Split(c, p, ms);
    forall x | x in BuildMart(c, p, ms).value.rows
      ensures Cell(x, "title") == Some("Dr")
    {
      var i :| 0 <= i < |s.rows| && s.rows[i] == x;
      assert f.rows[i] in f.rows;
    }
  }

  /** No two rows of the result share an NPI. */
  lemma MartNpiUnique(c: Table, p: Table, ms: seq<ColumnMap>)
    requires BuildMart(c, p, ms).Ok?
    ensures var out := BuildMart(c, p, ms).value.rows;
      forall a, b | 0 <= a < b < |out| :: Cell(out[a], "NPI") != Cell(out[b], "NPI")
  {
    var out := BuildMart(c, p, ms).value.rows;
    DedupUnique(Split(c, p, ms), ["NPI"], Last);
    forall a, b | 0 <= a < b < |out|
      ensures Cell(out[a], "NPI") != Cell(out[b], "NPI")
    {
      NpiKey(out[a]);
      NpiKey(out[b]);
    }
  }

  /** The result never has more rows than the two sources together. */
  lemma MartRowBound(c: Table, p: Table, ms: seq<ColumnMap>)
    requires BuildMart(c, p, ms).Ok?
    ensures |BuildMart(c, p, ms).value.rows| <= |c.rows| + |p.rows|
  {
  }

  /**
   Every NPI of the result is the normalised value of the NPI source column
   of a clinician or a provider row, the source columns being those of the
   mapping entry `k` that assigns "NPI" last.
   */
  lemma MartNpiOrigin(c: Table, p: Table, ms: seq<ColumnMap>, k: int)
    requires BuildMart(c, p, ms).Ok?
    requires 0 <= k < |ms| && ms[k].target == "NPI" && LastWith(ms, k)
    ensures forall x | x in BuildMart(c, p, ms).value.rows ::
      || (exists y | y in c.rows :: Cell(x, "NPI") == Some(NpiSplit(Cell(y, ms[k].clinicianCol))))
      || (exists y | y in p.rows :: Cell(x, "NPI") == Some(NpiSplit(Cell(y, ms[k].providerCol))))
  {
    MartFromSplit(c, p, ms);
    UnifyCellOrigin(c, p, ms, k);
    var f, s := Filtered(c, p, ms), Split(c, p, ms);
    var e := ms[k];
    forall x | x in BuildMart(c, p, ms).value.rows
      ensures || (exists y | y in c.rows :: Cell(x, "NPI") == Some(NpiSplit(Cell(y, e.clinicianCol))))
              || (exists y | y in p.rows :: Cell(x, "NPI") == Some(NpiSplit(Cell(y, e.providerCol))))
    {
      var q :| 0 <= q < |s.rows| && s.rows[q] == x;
      var v := f.rows[q];
      assert Cell(x, "NPI") == Some(NpiSplit(Cell(v, "NPI")));
      assert v in f.rows;
      if y :| y in c.rows && Cell(v, "NPI") == Cell(y, e.clinicianCol) {
      } else {
        var y :| y in p.rows && Cell(v, "NPI") == Cell(y, e.providerCol);
      }
    }
  }

  /**
   Of the rows sharing a normalised NPI, the result keeps exactly the last one
   in unified order, so a provider row wins over a clinician row with the same
   NPI: every kept row is last of its key, and every row last of its key is
   kept. The key on `["NPI"]` is the row's NPI cell (`NpiKey`).
   */
  lemma MartKeepsLastOfNpi(c: Table, p: Table, ms: seq<ColumnMap>)
    requires BuildMart(c, p, ms).Ok?
    ensures var s := Split(c, p, ms);
      forall x | x in BuildMart(c, p, ms).value.rows :: exists q | 0 <= q < |s.rows| ::
        s.rows[q] == x && LastOfKey(s.rows, ["NPI"], q)
    ensures var s := Split(c, p, ms);
      forall q | 0 <= q < |s.rows| && LastOfKey(s.rows, ["NPI"], q) :: s.rows[q] in BuildMart(c, p, ms).value.rows
  {
    var s := Split(c, p, ms);
    MartIsDedupOfSplit(c, p, ms);
    DedupRowsAreLast(s, ["NPI"]);
    DedupKeepsEveryLast(s, ["NPI"]);
  }

  /** Every normalised NPI that reaches deduplication is the NPI of some row of the result. */
  lemma MartCoversNpis(c: Table, p: Table, ms: seq<ColumnMap>)
    requires BuildMart(c, p, ms).Ok?
    ensures var s := Split(c, p, ms);
      forall q | 0 <= q < |s.rows| :: exists x | x in BuildMart(c, p, ms).value.rows ::
        Cell(x, "NPI") == Cell(s.rows[q], "NPI")
  {
    var s := Split(c, p, ms);
    var out := BuildMart(c, p, ms).value.rows;
    MartIsDedupOfSplit(c, p, ms);
    DedupCoversKeys(s, ["NPI"], Last);
    forall q | 0 <= q < |s.rows|
      ensures exists x | x in out :: Cell(x, "NPI") == Cell(s.rows[q], "NPI")
    {
      var j :| 0 <= j < |out| && Key(out[j], ["NPI"]) == Key(s.rows[q], ["NPI"]);
      NpiKey(out[j]);
      NpiKey(s.rows[q]);
      assert out[j] in out;
    }
  }

  /** A unified row titled "Dr" leaves its normalised NPI in the result. */
  lemma MartKeepsTitledRow(c: Table, p: Table, ms: seq<ColumnMap>, i: int)
    requires BuildMart(c, p, ms).Ok?
    requires 0 <= i < |Unified(c, p, ms).rows|
    requires Cell(Unified(c, p, ms).rows[i], "title") == Some("Dr")
    ensures exists x | x in BuildMart(c, p, ms).value.rows ::
      Cell(x, "NPI") == Some(NpiSplit(Cell(Unified(c, p, ms).rows[i], "NPI")))
  {
    var u, f, s := Unified(c, p, ms), Filtered(c, p, ms), Split(c, p, ms);
    FilterKeepsPassing(u, "title", Titles, true, i);
    var q :| 0 <= q < |f.rows| && f.rows[q] == u.rows[i];
    assert Cell(s.rows[q], "NPI") == Some(NpiSplit(Cell(f.rows[q], "NPI")));
    MartCoversNpis(c, p, ms);
  }

  /**
   Every clinician and every provider titled "Dr" has its normalised NPI in the
   result, read through the mapping entries that assign "title" and "NPI" last.
   */
  lemma MartKeepsTitledNpis(c: Table, p: Table, ms: seq<ColumnMap>, kTitle: int, kNpi: int)
    requires BuildMart(c, p, ms).Ok?
    requires 0 <= kTitle < |ms| && ms[kTitle].target == "title" && LastWith(ms, kTitle)
    requires 0 <= kNpi < |ms| && ms[kNpi].target == "NPI" && LastWith(ms, kNpi)
    ensures forall y | y in c.rows && Cell(y, ms[kTitle].clinicianCol) == Some("Dr") ::
      exists x | x in BuildMart(c, p, ms).value.rows :: Cell(x, "NPI") == Some(NpiSplit(Cell(y, ms[kNpi].clinicianCol)))
    ensures forall y | y in p.rows && Cell(y, ms[kTitle].providerCol) == Some("Dr") ::
      exists x | x in BuildMart(c, p, ms).value.rows :: Cell(x, "NPI") == Some(NpiSplit(Cell(y, ms[kNpi].providerCol)))
  {
    forall y | y in c.rows && Cell(y, ms[kTitle].clinicianCol) == Some("Dr")
      ensures exists x | x in BuildMart(c, p, ms).value.rows :: Cell(x, "NPI") == Some(NpiSplit(Cell(y, ms[kNpi].clinicianCol)))
    {
      var i :| 0 <= i < |c.rows| && c.rows[i] == y;
      MartKeepsTitledSourceRow(c, p, ms, kTitle, kNpi, i);
    }
    forall y | y in p.rows && Cell(y, ms[kTitle].providerCol) == Some("Dr")
      ensures exists x | x in BuildMart(c, p, ms).value.rows :: Cell(x, "NPI") == Some(NpiSplit(Cell(y, ms[kNpi].providerCol)))
    {
      var j :| 0 <= j < |p.rows| && p.rows[j] == y;
      MartKeepsTitledSourceRow(c, p, ms, kTitle, kNpi, |c.rows| + j);
    }
  }

  /**
   Source row `i`, counting the clinicians first and then the providers, when
   titled "Dr" leaves its normalised NPI in the result.
   */
  lemma MartKeepsTitledSourceRow(c: Table, p: Table, ms: seq<ColumnMap>, kTitle: int, kNpi: int, i: int)
    requires BuildMart(c, p, ms).Ok?
    requires 0 <= kTitle < |ms| && ms[kTitle].target == "title" && LastWith(ms, kTitle)
    requires 0 <= kNpi < |ms| && ms[kNpi].target == "NPI" && LastWith(ms, kNpi)
    requires 0 <= i < |c.rows| + |p.rows|
    requires i < |c.rows| ==> Cell(c.rows[i], ms[kTitle].clinicianCol) == Some("Dr")
    requires |c.rows| <= i ==> Cell(p.rows[i - |c.rows|], ms[kTitle].providerCol) == Some("Dr")
    ensures exists x | x in BuildMart(c, p, ms).value.rows ::
      Cell(x, "NPI") == Some(NpiSplit(
        if i < |c.rows| then Cell(c.rows[i], ms[kNpi].clinicianCol)
        else Cell(p.rows[i - |c.rows|], ms[kNpi].providerCol)))
  {
    UnifyRowOrigin(c, p, ms, kTitle);
    UnifyRowOrigin(c, p, ms, kNpi);
    MartKeepsTitledRow(c, p, ms, i);
  }

  /** The result is well-formed and its header is the mapping's targets. */
  lemma MartWellFormed(c: Table, p: Table, ms: seq<ColumnMap>)
    requires BuildMart(c, p, ms).Ok?
    ensures WellFormed(BuildMart(c, p, ms).value)
    ensures BuildMart(c, p, ms).value.columns == Targets(ms)
  {
    UnifyWellFormed(c, p, ms);
    FilterWellFormed(Unified(c, p, ms), "title", Titles, true);
    ApplyNpiSplitWellFormed(Filtered(c, p, ms), "NPI");
    DedupWellFormed(Split(c, p, ms), ["NPI"], Last);
  }

  /** When every source row is titled "Dr", the title filter keeps the whole unified frame. */
  lemma AllTitledKeepsUnified(c: Table, p: Table, ms: seq<ColumnMap>, k: int)
    requires BuildMart(c, p, ms).Ok?
    requires 0 <= k < |ms| && ms[k].target == "title" && LastWith(ms, k)
    requires forall y | y in c.rows :: Cell(y, ms[k].clinicianCol) == Some("Dr")
    requires forall y | y in p.rows :: Cell(y, ms[k].providerCol) == Some("Dr")
    ensures Filtered(c, p, ms) == Unified(c, p, ms)
  {
    UnifyRowOrigin(c, p, ms, k);
    var u := Unified(c, p, ms);
    forall i | 0 <= i < |u.rows|
      ensures Passes(u.rows[i], "title", Titles, true)
    {
      if i < |c.rows| {
        assert c.rows[i] in c.rows;
      } else {
        assert p.rows[i - |c.rows|] in p.rows;
      }
    }
    FilterAllPass(u, "title", Titles, true);
  }

  /**
   The normalised NPI source values in unified order: those of the clinicians
   and then those of the providers, read from the source columns of entry `e`.
   */
  function SplitNpis(c: Table, p: Table, e: ColumnMap): seq<string>
  {
    var stacked := Stack(c, p, e);
    seq(|stacked|, i requires 0 <= i < |stacked| => NpiSplit(stacked[i]))
  }

  /** The NPI column of the unified frame, normalised, is `SplitNpis` of its mapping entry. */
  lemma UnifiedSplitNpis(c: Table, p: Table, ms: seq<ColumnMap>, k: int)
    requires BuildMart(c, p, ms).Ok?
    requires 0 <= k < |ms| && ms[k].target == "NPI" && LastWith(ms, k)
    ensures var u := Unified(c, p, ms);
      |u.rows| == |SplitNpis(c, p, ms[k])|
      && forall i | 0 <= i < |u.rows| :: NpiSplit(Cell(u.rows[i], "NPI")) == SplitNpis(c, p, ms[k])[i]
  {
    UnifyColumn(c, p, ms, k);
  }

  /**
   When every source row is titled "Dr", the normalised frame has one row per
   source row, and its NPI column is `SplitNpis` of the NPI mapping entry.
   */
  lemma AllTitledSplitNpis(c: Table, p: Table, ms: seq<ColumnMap>, kTitle: int, kNpi: int)
    requires BuildMart(c, p, ms).Ok?
    requires 0 <= kTitle < |ms| && ms[kTitle].target == "title" && LastWith(ms, kTitle)
    requires 0 <= kNpi < |ms| && ms[kNpi].target == "NPI" && LastWith(ms, kNpi)
    requires forall y | y in c.rows :: Cell(y, ms[kTitle].clinicianCol) == Some("Dr")
    requires forall y | y in p.rows :: Cell(y, ms[kTitle].providerCol) == Some("Dr")
    ensures var s, npis := Split(c, p, ms), SplitNpis(c, p, ms[kNpi]);
      && |s.rows| == |npis| == |c.rows| + |p.rows|
      && forall i | 0 <= i < |s.rows| :: Cell(s.rows[i], "NPI") == Some(npis[i])
  {
    AllTitledKeepsUnified(c, p, ms, kTitle);
    UnifiedSplitNpis(c, p, ms, kNpi);
  }

  /**
   When every source row is titled "Dr" and the normalised NPIs are pairwise
   distinct, no row is dropped: the result has one row per source row.
   */
  lemma MartKeepsEveryRow(c: Table, p: Table, ms: seq<ColumnMap>, kTitle: int, kNpi: int)
    requires BuildMart(c, p, ms).Ok?
    requires 0 <= kTitle < |ms| && ms[kTitle].target == "title" && LastWith(ms, kTitle)
    requires 0 <= kNpi < |ms| && ms[kNpi].target == "NPI" && LastWith(ms, kNpi)
    requires forall y | y in c.rows :: Cell(y, ms[kTitle].clinicianCol) == Some("Dr")
    requires forall y | y in p.rows :: Cell(y, ms[kTitle].providerCol) == Some("Dr")
    requires var npis := SplitNpis(c, p, ms[kNpi]); forall a, b | 0 <= a < b < |npis| :: npis[a] != npis[b]
    ensures |BuildMart(c, p, ms).value.rows| == |c.rows| + |p.rows|
  {
    AllTitledSplitNpis(c, p, ms, kTitle, kNpi);
    MartIsDedupOfSplit(c, p, ms);
    DistinctNpisKeepAll(Split(c, p, ms), SplitNpis(c, p, ms[kNpi]));
  }

  /** Deduplicating on an NPI column whose values are pairwise distinct keeps the frame. */
  lemma DistinctNpisKeepAll(s: Table, npis: seq<string>)
    requires "NPI" in s.columns
    requires |s.rows| == |npis|
    requires forall i | 0 <= i < |s.rows| :: Cell(s.rows[i], "NPI") == Some(npis[i])
    requires forall a, b | 0 <= a < b < |npis| :: npis[a] != npis[b]
    ensures TransformDedup(s, ["NPI"], Last) == Ok(s)
  {
    forall a, b | 0 <= a < b < |s.rows|
      ensures Key(s.rows[a], ["NPI"]) != Key(s.rows[b], ["NPI"])
    {
      NpiKey(s.rows[a]);
      NpiKey(s.rows[b]);
    }
    DedupIdentity(s, ["NPI"], Last);
  }

  /**
   The clinician mart's end-to-end guarantees: every row is titled "Dr", no
   two rows share an NPI, every NPI is a normalised source NPI, there are at
   most as many rows as source rows, and the normalised NPI of every source
   row titled "Dr" is in the result.
   */
  lemma ClinicianMartGuarantees(c: Table, p: Table)
    requires ClinicianMart(c, p).Ok?
    ensures var out := ClinicianMart(c, p).value.rows;
      && (forall x | x in out :: Cell(x, "title") == Some("Dr"))
      && (forall a, b | 0 <= a < b < |out| :: Cell(out[a], "NPI") != Cell(out[b], "NPI"))
      && (forall x | x in out ::
            || (exists y | y in c.rows :: Cell(x, "NPI") == Some(NpiSplit(Cell(y, "NPI"))))
            || (exists y | y in p.rows :: Cell(x, "NPI") == Some(NpiSplit(Cell(y, "NPI")))))
      && |out| <= |c.rows| + |p.rows|
    ensures var out := ClinicianMart(c, p).value.rows;
      && (forall y | y in c.rows && Cell(y, "title") == Some("Dr") ::
            exists x | x in out :: Cell(x, "NPI") == Some(NpiSplit(Cell(y, "NPI"))))
      && (forall y | y in p.rows && Cell(y, "title") == Some("Dr") ::
            exists x | x in out :: Cell(x, "NPI") == Some(NpiSplit(Cell(y, "NPI"))))
  {
    MapListKeyEntries();
    MartTitles(c, p, MapList);
    MartNpiUnique(c, p, MapList);
    MartNpiOrigin(c, p, MapList, 6);
    MartKeepsTitledNpis(c, p, MapList, 7, 6);
  }

  /**
   When every clinician and provider is titled "Dr" and their normalised NPIs
   are pairwise distinct, the clinician mart has one row per source row.
   */
  lemma ClinicianMartKeepsEveryRow(c: Table, p: Table)
    requires ClinicianMart(c, p).Ok?
    requires forall y | y in c.rows :: Cell(y, "title") == Some("Dr")
    requires forall y | y in p.rows :: Cell(y, "title") == Some("Dr")
    requires var npis := SplitNpis(c, p, ColumnMap("NPI", "NPI", "NPI"));
      forall a, b | 0 <= a < b < |npis| :: npis[a] != npis[b]
    ensures |ClinicianMart(c, p).value.rows| == |c.rows| + |p.rows|
  {
    MapListKeyEntries();
    MartKeepsEveryRow(c, p, MapList, 7, 6);
  }
}
