# Clinician mart transformations in Dafny

This project models the transformation core of the clinician mart script
`py/build_clinician_mart.py`. The script reads a clinician dataset and a
provider dataset and renames and stacks their columns into one frame under a
fixed mapping. It then keeps only the rows titled "Dr", normalises every NPI
to the part after its first hyphen, and deduplicates on NPI, keeping the last
row of each NPI.

The pandas frames are modelled as `Tables.Table`: a header (`columns`) plus a
sequence of rows. Each row is a map from column name to `Option<string>`, so
a missing value is `None`. The header is kept because selecting a column the
frame lacks raises a `KeyError` in the script. That failure is modelled as a
`Result` error rather than excluded by a precondition.

Modules, in pipeline order:

- `Tables`: rows, frames, the `Result`/`Option` wrappers and the errors.
- `Selection`: boolean-mask row selection, `.loc[mask, :]`. It is shared by the filter and the deduplicator.
- `Unification`: the mapping `MapList` and the column-stacking loop.
- `Filter`: `transform_filter`.
- `Npi`: `transform_npi_split` and its column-wide `apply`.
- `Dedup`: `transform_dedup`, i.e. pandas `duplicated(subset, keep)` negated and used as a mask.
- `Mart`: the pipeline. `BuildMart` runs it under any mapping; `ClinicianMart` runs it under `MapList`.

## Model

| member | source | states |
|---|---|---|
| Selection.Loc | py/build_clinician_mart.py:37 | `.loc[mask, :]` never yields more rows than the frame has; what it yields is stated by `Selection.LocPicks` |
| Selection.LocPicks | py/build_clinician_mart.py:37 | `.loc` with a mask returns the rows at the mask's true positions, in their original order and unaltered |
| Selection.LocMember | py/build_clinician_mart.py:37 | a row is in a `.loc` selection exactly when it sits at some position whose mask entry is true |
| Selection.LocPartition | py/build_clinician_mart.py:37-39 | selecting with a mask and with its negation yields as many rows together as the input has |
| Filter.TransformFilter | py/build_clinician_mart.py:26-39 | the filter fails with the field's name exactly when the field is not a column; otherwise it keeps the header, never grows, and every surviving row is an input row that passes the membership test (or fails it, in exclusive mode) |
| Filter.FilterSelectsPassing | py/build_clinician_mart.py:36-39 | the filter's output is the order-preserving subsequence of the input at exactly the positions whose row passes |
| Filter.FilterKeepsPassing | py/build_clinician_mart.py:36-37 | a row that passes the membership test is in the filter's output |
| Filter.FilterPartition | py/build_clinician_mart.py:36-39 | the inclusive and exclusive filters on the same values split the input: each position is kept by exactly one of them, and their lengths add up to the input's |
| Filter.FilterIdempotent | py/build_clinician_mart.py:36-39 | filtering a filtered frame again with the same arguments returns it unchanged |
| Filter.FilterAllPass | py/build_clinician_mart.py:36-39 | when every row passes, the filter returns the frame unchanged |
| Filter.FilterNoValues | py/build_clinician_mart.py:36-37 | an inclusive filter on an empty value list keeps no row |
| Filter.FilterWellFormed | py/build_clinician_mart.py:36-39 | every surviving row still carries exactly the header's columns |
| Npi.Find | py/build_clinician_mart.py:67 | `str.find`: -1 exactly when the character is absent, otherwise the position of its first occurrence |
| Npi.NpiSplit | py/build_clinician_mart.py:54-69 | `None` gives the empty string; otherwise the result is a suffix of the input, the input itself when it has no hyphen, and strictly shorter when it has one |
| Npi.NpiSplitAfterFirstHyphen | py/build_clinician_mart.py:62-67 | for a hyphen-free prefix `head`, the normaliser maps `head + "-" + tail` to exactly `tail` |
| Npi.NpiSplitDecomposes | py/build_clinician_mart.py:67 | a hyphenated input is a hyphen-free prefix, the first hyphen, and the normaliser's result |
| Npi.NpiSplitPlainExamples | py/build_clinician_mart.py:62-67 | "1234567" is returned unchanged and a missing value becomes "" |
| Npi.NpiSplitHyphenExample | py/build_clinician_mart.py:67 | "12-123456" becomes "123456" |
| Npi.NpiSplitLeadingHyphenExample | py/build_clinician_mart.py:67 | "-9999999" becomes "9999999" |
| Npi.NpiSplitTrailingHyphenExample | py/build_clinician_mart.py:58 | "9999999-" becomes "", as the doc comment promises |
| Npi.NpiSplitFirstHyphenExample | py/build_clinician_mart.py:56 | "1-23-456" becomes "23-456": only the first hyphen is consumed |
| Npi.NpiSplitHyphenRunExample | py/build_clinician_mart.py:67 | "----" becomes "---" |
| Npi.ApplyNpiSplit | py/build_clinician_mart.py:121 | applying the normaliser to a column fails exactly when the column is absent; otherwise it keeps header and length, replaces that column's cell by the normalised value, and leaves every other cell alone |
| Npi.ApplyNpiSplitWellFormed | py/build_clinician_mart.py:121 | the column-wide normalisation keeps every row's columns equal to the header |
| Dedup.FirstMissing | py/build_clinician_mart.py:51 | the key-column lookup inside `duplicated`: no column is reported exactly when every key column exists, and a reported column is a key column the frame lacks |
| Dedup.DedupMaskSurvivor | py/build_clinician_mart.py:42-51 | the `keep` policy of `duplicated`: of the rows sharing a key exactly one is left unflagged, and it is the highest-indexed of them under keep last and the lowest-indexed under keep first |
| Dedup.TransformDedup | py/build_clinician_mart.py:42-51 | deduplication succeeds exactly when the frame is empty or the key is non-empty and all key columns exist; a failure is the empty-key error exactly when the key list is empty, and otherwise names a key column the frame lacks; on success it keeps the header and never grows |
| Dedup.LastOccurrence | py/build_clinician_mart.py:51 | every row's key has a last occurrence at or after it |
| Dedup.FirstOccurrence | py/build_clinician_mart.py:51 | every row's key has a first occurrence at or before it |
| Dedup.DedupUnique | py/build_clinician_mart.py:42-51 | no two surviving rows share a key |
| Dedup.DedupKeepsLast | py/build_clinician_mart.py:42-51 | with `keep='last'`, the output is the order-preserving subsequence at exactly the positions that are the last of their key |
| Dedup.DedupRowsAreLast | py/build_clinician_mart.py:42-51 | with `keep='last'`, every surviving row is an input row that no later input row shares a key with |
| Dedup.DedupKeepsEveryLast | py/build_clinician_mart.py:42-51 | with `keep='last'`, every input row that is the last occurrence of its key survives |
| Dedup.DedupKeepsFirst | py/build_clinician_mart.py:51 | with `keep='first'`, the output is the order-preserving subsequence at exactly the positions that are the first of their key |
| Dedup.DedupCoversKeys | py/build_clinician_mart.py:42-51 | every key present in the input is present in the output |
| Dedup.DedupIdentity | py/build_clinician_mart.py:42-51 | on a frame whose keys are already unique, deduplication returns the frame unchanged |
| Dedup.DedupWellFormed | py/build_clinician_mart.py:51 | surviving rows keep exactly the header's columns |
| Unification.Stack | py/build_clinician_mart.py:115 | `pd.concat` of the two source columns: the clinician values, then the provider values, position by position |
| Unification.Targets | py/build_clinician_mart.py:111-115 | the unified header names each target once, and exactly the mapping's targets |
| Unification.SetColumn | py/build_clinician_mart.py:115 | assigning a column sets its value in every row, appends its name to the header if new, and leaves every other cell unchanged; on an empty frame the assignment creates the rows |
| Unification.SetColumnKeys | py/build_clinician_mart.py:115 | after the assignment each row has the columns it had plus the assigned one |
| Unification.Unify | py/build_clinician_mart.py:99-115 | unification succeeds exactly when every entry's source columns exist; the header is the targets; an empty mapping gives an empty frame, and any other has one row per clinician and provider |
| Unification.UnifyError | py/build_clinician_mart.py:114-115 | a failed unification reports the first entry, in mapping order, whose source column is missing, naming the clinician column first |
| Unification.UnifyColumn | py/build_clinician_mart.py:114-115 | the column of an entry not overwritten later holds exactly that entry's stacked source values |
| Unification.UnifyColumnStep | py/build_clinician_mart.py:114-115 | assigning the last entry of the mapping keeps an earlier entry's column when the targets differ |
| Unification.UnifyRowOrigin | py/build_clinician_mart.py:111-115 | row `i` takes the target from clinician row `i` for `i` below the clinician count, and from provider row `i` minus that count otherwise |
| Unification.UnifyCellOrigin | py/build_clinician_mart.py:111-115 | each unified row takes an entry's target from one clinician row's clinician column or one provider row's provider column |
| Unification.UnifyWellFormed | py/build_clinician_mart.py:111-115 | every unified row carries exactly the header's columns |
| Unification.MapListTargetsDistinct | py/build_clinician_mart.py:99-108 | the mart's mapping assigns every target exactly once |
| Unification.MapListKeyEntries | py/build_clinician_mart.py:106-107 | the mapping reads "NPI" and "title" from same-named columns of both datasets, and never overwrites them |
| Mart.BuildMart | py/build_clinician_mart.py:113-124 | the pipeline succeeds exactly when every mapped source column exists and the mapping provides "title" and "NPI" |
| Mart.ClinicianMart | py/build_clinician_mart.py:99-124 | the clinician mart succeeds exactly when every mapped source column exists, and otherwise fails with the unification's error |
| Mart.MartTitles | py/build_clinician_mart.py:118 | every row of the result is titled "Dr" |
| Mart.MartNpiUnique | py/build_clinician_mart.py:124 | no two rows of the result share an NPI |
| Mart.MartNpiOrigin | py/build_clinician_mart.py:114-124 | every NPI of the result is the normalised NPI of some clinician or provider row |
| Mart.MartKeepsLastOfNpi | py/build_clinician_mart.py:121-124 | in the normalised frame, a row is kept if and only if it is the last row carrying its NPI key: every kept row is last of its key and every row last of its key is kept |
| Mart.MartCoversNpis | py/build_clinician_mart.py:121-124 | every NPI of the normalised frame is the NPI of some row of the result |
| Mart.MartKeepsTitledRow | py/build_clinician_mart.py:117-124 | a unified row titled "Dr" has its normalised NPI in the result |
| Mart.MartKeepsTitledSourceRow | py/build_clinician_mart.py:114-124 | a clinician or provider row whose mapped title is "Dr" has its normalised mapped NPI in the result |
| Mart.MartKeepsTitledNpis | py/build_clinician_mart.py:114-124 | every clinician and every provider titled "Dr" has its normalised NPI in the result |
| Mart.MartRowBound | py/build_clinician_mart.py:117-124 | the result has at most as many rows as the two sources together |
| Mart.AllTitledKeepsUnified | py/build_clinician_mart.py:118 | when every source row is titled "Dr", the title filter keeps the whole unified frame |
| Mart.UnifiedSplitNpis | py/build_clinician_mart.py:115-121 | the normalised NPI column equals the normalised stacked NPI source values |
| Mart.AllTitledSplitNpis | py/build_clinician_mart.py:117-121 | with every title "Dr", the normalised frame has one row per source row and row `i` carries the `i`-th normalised stacked NPI |
| Mart.DistinctNpisKeepAll | py/build_clinician_mart.py:124 | deduplicating a frame whose NPIs are pairwise distinct returns it unchanged |
| Mart.MartKeepsEveryRow | py/build_clinician_mart.py:117-124 | with every title "Dr" and distinct normalised NPIs, the result has one row per source row |
| Mart.MartWellFormed | py/build_clinician_mart.py:111-124 | the result is well-formed and its header is the mapping's targets |
| Mart.ClinicianMartGuarantees | py/build_clinician_mart.py:117-124 | the clinician mart's rows are all titled "Dr", have pairwise distinct NPIs that each normalise a source NPI, and number at most the source rows; and the normalised NPI of every source row titled "Dr" is in the result, so each such NPI appears exactly once |
| Mart.ClinicianMartKeepsEveryRow | py/build_clinician_mart.py:117-124 | with every title "Dr" and distinct normalised NPIs, the clinician mart has one row per source row |

## Left out

- Selection.Loc: its own contract states only the length bound, which keeps every caller's proof small; the rows it selects, and their order, are stated by `Selection.LocPicks` and `Selection.LocMember`.
- Argument parsing, the input-path check and `sys.exit(1)` (lines 72-80): command-line glue.
- CSV reading with `skiprows=4` and every `to_csv` write, staged and final (lines 86-95, 127-128): file I/O. The staged writes at lines 94-95 send the provider data to the clinician-named file and vice versa. They have no effect on the mart, so they are outside this model.
- `get_curr_ts_epoch_sec` and `get_curr_ts_zulu` (lines 8-23): they read the wall clock.
- The final row-count message (line 130): console output.
- Non-string NPI values. The normaliser guards only `None`, and a non-string value raises an `AttributeError` that its `except ValueError` does not catch. The input is modelled as `Option<string>`, and the `except ValueError` branch (lines 68-69) is unreachable for it.
- pandas index labels. `pd.concat` yields duplicate labels. Every later step uses masks and series carrying the frame's own index, so selection is modelled positionally.
- `keep=False` in `transform_dedup`: the script never passes it.
- A frame with rows but no columns: `SetColumn` is only defined for an empty frame or a value sequence of the frame's length, as in every use by the stacking loop.
- Dedup.TransformDedup: when several key columns are missing, pandas names them all. The model reports one missing column.
- Mart.BuildMart: a mapping without a "title" or "NPI" target is modelled as the corresponding `ColumnNotFound` error. The script's own mapping always has both.
- The test script `py/tests/test_w_files.py` compares output files against fixture CSVs that are not part of this model.
