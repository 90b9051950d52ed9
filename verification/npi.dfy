/**
 The NPI normaliser of the clinician mart (`transform_npi_split`): a hyphenated
 identifier is cut down to what follows its first hyphen.
 */
module Npi {
  import opened Tables

  /**
   Python's `str.find` for a single character: the position of the first
   occurrence of `c` in `s`, or -1 when `c` does not occur.
   */
  function Find(s: string, c: char): (r: int)
    ensures -1 <= r < |s|
    ensures r == -1 <==> c !in s
    ensures 0 <= r ==> s[r] == c && c !in s[..r]
    decreases |s|
  {
    if |s| == 0 then -1
    else if s[0] == c then 0
    else
      var k := Find(s[1..], c);
      if k == -1 then -1
      else
        assert s[..k + 1] == [s[0]] + s[1..][..k];
        k + 1
  }

  /** `t` is a trailing part of `s`. */
  ghost predicate IsSuffix(t: string, s: string)
  {
    |t| <= |s| && s[|s| - |t|..] == t
  }

  /**
   The normalised NPI: a missing value becomes the empty string, and a present
   one is sliced from just past its first hyphen, which leaves a hyphen-free
   value as it is.
   */
  function NpiSplit(x: Option<string>): (r: string)
    ensures x.None? ==> r == ""
    ensures x.Some? ==> IsSuffix(r, x.value)
    ensures x.Some? && '-' !in x.value ==> r == x.value
    ensures x.Some? && '-' in x.value ==> |r| < |x.value|
  {
    match x
    case None => ""
    case Some(s) => s[Find(s, '-') + 1..]
  }

  /**
   `frame[col] = frame[col].apply(transform_npi_split)`: selecting a column the
   frame lacks is an error; otherwise column `col` of every row is replaced by
   its normalised value and nothing else changes.
   */
  function ApplyNpiSplit(t: Table, col: string): (r: Result<Table>)
    ensures r.Ok? <==> col in t.columns
    ensures r.Err? ==> r.error == ColumnNotFound(col)
    ensures r.Ok? ==> r.value.columns == t.columns && |r.value.rows| == |t.rows|
    ensures r.Ok? ==> forall i | 0 <= i < |t.rows| ::
      Cell(r.value.rows[i], col) == Some(NpiSplit(Cell(t.rows[i], col)))
    ensures r.Ok? ==> forall i, c | 0 <= i < |t.rows| && c != col ::
      Cell(r.value.rows[i], c) == Cell(t.rows[i], c)
    ensures r.Ok? ==> forall i | 0 <= i < |t.rows| :: r.value.rows[i].Keys == t.rows[i].Keys + {col}
  {
    if col !in t.columns then Err(ColumnNotFound(col))
    else
      Ok(Table(t.columns, seq(|t.rows|, i requires 0 <= i < |t.rows| =>
        t.rows[i][col := Some(NpiSplit(Cell(t.rows[i], col)))])))
  }

  /** Normalising a column of a well-formed frame keeps it well-formed. */
  lemma ApplyNpiSplitWellFormed(t: Table, col: string)
    requires WellFormed(t) && col in t.columns
    ensures WellFormed(ApplyNpiSplit(t, col).value)
  {
  }

  /**
   Whenever a value splits as `head + "-" + tail` with no hyphen in `head`,
   that hyphen is the first one and the result is exactly `tail`.
   */
  lemma NpiSplitAfterFirstHyphen(head: string, tail: string)
    requires '-' !in head
    ensures NpiSplit(Some(head + "-" + tail)) == tail
  {
    var s := head + "-" + tail;
    var k := Find(s, '-');
    assert s[|head|] == '-';
    assert s[|head| + 1..] == tail;
  }

  /**
   Conversely, every value containing a hyphen splits as `head + "-" + r`
   around its first hyphen, where `r` is the normalised value.
   */
  lemma NpiSplitDecomposes(s: string)
    requires '-' in s
    ensures exists head :: '-' !in head && s == head + "-" + NpiSplit(Some(s))
  {
    var k := Find(s, '-');
    var head := s[..k];
    assert s == head + "-" + s[k + 1..];
  }

  /** The normaliser on identifiers without a hyphen, and on a missing value. */
  lemma NpiSplitPlainExamples()
    ensures NpiSplit(Some("1234567")) == "1234567"
    ensures NpiSplit(None) == ""
  {
    assert '-' !in "1234567";
  }

  /** A hyphenated identifier keeps what follows its hyphen. */
  lemma NpiSplitHyphenExample()
    ensures NpiSplit(Some("12-123456")) == "123456"
  {
    NpiSplitAfterFirstHyphen("12", "123456");
    assert "12" + "-" + "123456" == "12-123456";
  }

  /** A leading hyphen leaves everything after it. */
  lemma NpiSplitLeadingHyphenExample()
    ensures NpiSplit(Some("-9999999")) == "9999999"
  {
    NpiSplitAfterFirstHyphen("", "9999999");
    assert "" + "-" + "9999999" == "-9999999";
  }

  /** A trailing hyphen leaves the empty string. */
  lemma NpiSplitTrailingHyphenExample()
    ensures NpiSplit(Some("9999999-")) == ""
  {
    NpiSplitAfterFirstHyphen("9999999", "");
    assert "9999999" + "-" + "" == "9999999-";
  }

  /** Only the first hyphen is consumed; later ones stay in the result. */
  lemma NpiSplitFirstHyphenExample()
    ensures NpiSplit(Some("1-23-456")) == "23-456"
  {
    NpiSplitAfterFirstHyphen("1", "23-456");
    assert "1" + "-" + "23-456" == "1-23-456";
  }

  /** A run of hyphens loses exactly one. */
  lemma NpiSplitHyphenRunExample()
    ensures NpiSplit(Some("----")) == "---"
  {
    NpiSplitAfterFirstHyphen("", "---");
    assert "" + "-" + "---" == "----";
  }
}
