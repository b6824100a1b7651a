# CSV ingestion core of a Streamlit exploration page, in Dafny

The page loads a CSV file, tidies its header and turns columns that look like dates into
timestamps before it profiles and plots the data. This project models the three helpers that
do that work in `test.py`, plus the loader loop that feeds them:

- `smart_read_csv` tries the encodings `utf-8`, `cp949` and `euc-kr` in order and keeps the
  first table that reads (`Loader`). Reading a file is an oracle `Reader = string -> Option<Table>`.
- `clean_column_names` turns every `\n` and `\r` in a header into a space and strips surrounding
  whitespace (Python's `str.isspace` set). It then scans left to right with a `seen` counter
  map: the first header of a name keeps it, and its k-th repeat becomes `name_k` (`ColumnNames`).
- `looks_date_like` samples the first 200 present values of an object column and counts the
  values matching one of three patterns. The column passes when at least 30% are hits (`DateLike`).
- `coerce_datetimes` examines the columns `columns[:max_try]`. For each date-like column it
  tries eight fixed `strftime` formats in order, then free-form parsing. A fixed format is
  kept when its strict parse raises on no cell and the share of all rows that parsed from a
  present cell reaches `success_threshold`; free-form parsing needs only the share (`Coerce`). Date parsing is an oracle `Parser = (Format, string) -> ParseOutcome`, with three
  outcomes: a timestamp, a not-a-time marker, or a rejection.
- `Pipeline` chains the three steps the page runs after a file is chosen.

Data model (`Frame`): a `Table` is a sequence of `Column(name, values)`. Values are `Text`
(object dtype: strings, `None` for NaN), `Dates` (`None` for NaT) or `Other` (numeric dtypes,
never looked into). Thresholds are exact rationals `Ratio(num, den)` with `den > 0`.

Three behaviours of the code are easy to misread:

- The success ratio divides by all rows, missing ones included, not by the present values.
  A column of 9 ISO dates and one missing cell therefore scores 9/10, not 9/9.
- Uniqueness of the cleaned header is not guaranteed. `seen` is keyed only on the cleaned
  names, so `A, A, A_1` becomes `A, A_1, A_1`. The labels are distinct exactly when no header
  equals a label generated for a repeat (`DeduplicateDistinctIff`). Then, once two columns
  share a label and one of them is among the examined columns `columns[:max_try]`, `df[col]` in
  `coerce_datetimes` selects a frame rather than a series. Reading
  `.dtype` on that frame raises. The model returns this as `Failure(AmbiguousLabel(name))`,
  and `Pipeline.CollidingHeaderRaises` shows that a file whose header reads as `A`, ` A`, `A_1`
  ends that way. pandas keeps those three labels as they are because they differ, and
  stripping then makes the first two equal.
- A missing cell reaches the parser as the string `"nan"`. pandas reads that string as NaT
  without raising, even under a strict format, so a missing cell need not block a format.
  The oracle decides. `MissingCellBlocksFormat` states the other case: if the parser rejects
  `"nan"` under a format, that format is never chosen for a column with a missing cell.

## Model

| member | source | states |
|---|---|---|
| `ColumnNames.Deduplicate` | test.py:54-62 | the renaming rule per position: label i is header i when no earlier header equals it, and header i followed by `_k` when k earlier headers equal it; the length is kept |
| `Loader.SmartReadCsv` | test.py:39-49 | the result is the table of the first encoding in `utf-8, cp949, euc-kr` that reads, with that encoding; `None` exactly when every encoding fails |
| `Candidates.FirstAccepted` | test.py:93-100 | the index returned is the first candidate that is accepted, none before it is; `None` exactly when no candidate is accepted |
| `Text.Strip` | test.py:53 | `strip()` returns the part of the string left after cutting whitespace, and only whitespace, from both ends; that part neither starts nor ends with whitespace |
| `Text.NatToString` | test.py:62 | the rendered counter is a non-empty run of decimal digits with no leading zero for a positive value |
| `Text.NatToStringInjective` | test.py:62 | different counters render as different suffixes (via the round trip `ParseNat(NatToString(n)) == n`) |
| `ColumnNames.ReplaceLineBreaks` | test.py:53 | length is kept, no `\n` or `\r` remains, and the only characters that change are `\n` and `\r`, each turned into a space |
| `ColumnNames.CleanName` | test.py:53 | a cleaned header has no `\n` or `\r` and no leading or trailing whitespace |
| `ColumnNames.CleanNameIdempotent` | test.py:53 | cleaning a cleaned header changes nothing |
| `ColumnNames.CleanColumnNames` | test.py:51-64 | the scan produces exactly the renaming rule applied to the cleaned headers: a first occurrence keeps its name, the k-th later repeat gets `_k` |
| `ColumnNames.DeduplicateScan` | test.py:54-62 | the loop with the `seen` counter map computes the per-position renaming rule |
| `ColumnNames.NormalizedLabelShape` | test.py:53-62 | output length equals input length; label i is the cleaned header i when it repeats no earlier header, and that header followed by `_k` with k a positive numeral when it does |
| `ColumnNames.DistinctUnchanged` | test.py:56-59 | when the cleaned headers are pairwise distinct, nothing is renamed |
| `ColumnNames.DeduplicateDistinctIff` | test.py:54-62 | the labels are pairwise distinct if and only if no header equals the label generated for a repeated header |
| `ColumnNames.UniqueWithoutSuffixedPairs` | test.py:54-62 | if no cleaned header is another cleaned header followed by `_k`, the labels are pairwise distinct |
| `ColumnNames.NormalizeIdempotent` | test.py:51-64 | when the labels came out distinct, cleaning the cleaned header again returns it unchanged |
| `ColumnNames.RepeatedHeaderExample` | test.py:56-62 | `A, A, A` becomes `A, A_1, A_2` |
| `ColumnNames.CollisionExample` | test.py:54-62 | `A, A, A_1` becomes `A, A_1, A_1`, which holds a repeated label |
| `ColumnNames.PaddedCollision` | test.py:53-62 | for every clean non-empty header `a`, the header `a`, ` a`, `a_1` becomes `a, a_1, a_1`: labels that differ only by surrounding whitespace collide once stripped |
| `ColumnNames.PaddedCollisionExample` | test.py:53-62 | `A`, ` A`, `A_1` becomes `A, A_1, A_1` |
| `ColumnNames.CollisionNotIdempotent` | test.py:51-64 | cleaning `A, A, A_1` twice gives `A, A_1, A_1_1`, so a second pass is not a no-op |
| `DateLike.PresentAppend` | test.py:76 | `dropna()` keeps the present values in column order: it distributes over concatenation |
| `DateLike.Sample` | test.py:76 | the sample is the first `min(200, number of present values)` present values, in column order |
| `DateLike.SampleIgnoresLaterCells` | test.py:76 | once 200 present values have been seen, later cells do not change the sample |
| `DateLike.NumericDateSearchIff` | test.py:80 | searching for `\d{4}[-/.]\d{1,2}([-/.]\d{1,2})?` succeeds exactly when four digits, a separator and a digit occur in a row |
| `DateLike.Hits` | test.py:79-84 | the hit count is at most the sample size; it is zero exactly when no value is a hit and full exactly when every value is |
| `DateLike.HitsAppend` | test.py:79-84 | the hit count is additive over any split of the sample; with `HitsOne` it counts exactly the values that are hits |
| `DateLike.HitsOne` | test.py:80-82 | one value contributes 1 exactly when one of the three patterns matches it |
| `DateLike.LooksDateLike` | test.py:73-85 | a column that passes is of object dtype, has a present value and has at least one hit in its sample |
| `DateLike.GateIsRatio` | test.py:85 | `10 * hits >= 3 * n` holds exactly when `hits / n >= 0.3` in exact arithmetic |
| `DateLike.LooksDateLikeCases` | test.py:73-85 | false for a column that is not of object dtype and for one with no present value; otherwise true exactly when the hit ratio of the sample is at least 0.3 |
| `DateLike.GateExtremes` | test.py:79-85 | a sample without hits never passes; a non-empty sample of hits only always passes |
| `Coerce.Converted` | test.py:97-102 | the stored column has one cell per row, and each is the timestamp its stringified cell parses to, NaT otherwise |
| `Coerce.BothPresent` | test.py:96-103 | the count of rows that parsed from a present cell is at most the number of present cells |
| `Coerce.BothPresentAppend` | test.py:96-103 | the count is additive over any split of the rows; with `BothPresentOneRow` it counts exactly the rows whose cell was present and whose timestamp is not NaT |
| `Coerce.BothPresentOneRow` | test.py:96 | one row counts 1 exactly when its cell was present and it parsed |
| `Coerce.MeetsThresholdIsRatio` | test.py:96 | the integer test is the exact comparison `count / rows >= num / den`, and fails on zero rows as the NaN mean does |
| `Coerce.Choose` | test.py:93-104 | a fixed format is used only if it is accepted and no earlier one is; free-form parsing only if no fixed format is accepted and it parses enough rows; otherwise the column is kept |
| `Coerce.CoerceColumn` | test.py:88-106 | name and row count are kept; a column that does not look date-like is unchanged; for a date-like column, the chosen fixed format stores that format's coerced timestamps, free-form stores the free-form timestamps, and with no candidate the column is unchanged; a changed column was text, is now timestamps, and meets the threshold |
| `Coerce.CoerceColumnFirstAccepted` | test.py:93-106 | a date-like column whose first accepted fixed format is k is replaced by the timestamps coerced under format k |
| `Coerce.CoerceColumnNoneAccepted` | test.py:101-106 | a date-like column that no fixed format accepts is replaced by the free-form timestamps when they reach the threshold, and is left unchanged otherwise |
| `Coerce.SliceEnd` | test.py:87 | `columns[:max_try]` keeps every column when `max_try` is at least the column count, the first `max_try` columns when `max_try` is between 0 and the count, and drops the last `-max_try` columns (or all) when `max_try` is negative |
| `Coerce.CoerceDatetimes` | test.py:87-107 | raises exactly when an examined column's label is shared, naming the first such examined column; otherwise every examined column is the result of `CoerceColumn` on it, columns past `max_try` and columns that are not date-like are unchanged, labels and row counts are kept, and every changed column was examined, date-like and meets the threshold |
| `Coerce.MissingCellBlocksFormat` | test.py:91-99 | if the parser rejects `"nan"` under a format, a column with a missing cell never accepts that format |
| `Coerce.FirstFormatConverts` | test.py:91-98 | a date-like column whose present values all parse under `%Y-%m-%d`, whose `"nan"` is read as not-a-time and whose present share meets the threshold is converted with that format, and its missing cells stay missing |
| `Coerce.MissingStaysMissing` | test.py:97-104 | when `"nan"` never parses to a timestamp, a missing cell of a converted column is missing afterwards |
| `Frame.Relabel` | test.py:63 | assigning `df.columns` changes the labels to the given ones and keeps every column's values |
| `Pipeline.CleanColumns` | test.py:51-64 | the cleaned table carries the normalized header and the same column contents |
| `Pipeline.Prepare` | test.py:125-140 | the page stops with an unreadable file exactly when no encoding reads; otherwise the table of the first readable encoding is cleaned and converted, the outcome is prepared exactly when that conversion succeeds, and then it carries that encoding and the converted table, with the normalized header of the table that was read; a raise carries the conversion's error |
| `Pipeline.DistinctLabelsNeverRaise` | test.py:87-89 | a table with pairwise distinct labels never makes `coerce_datetimes` raise |
| `Pipeline.ReadableDistinctIsPrepared` | test.py:138-140 | a readable file whose normalized labels are distinct is always prepared and keeps its column count |
| `Pipeline.SharedLabelRaises` | test.py:87-89 | a table labelled `A, A_1, A_1` makes `coerce_datetimes` raise on `A_1` once two columns are examined |
| `Pipeline.CollidingHeaderRaises` | test.py:138-140 | a file whose header reads under `utf-8` as `A`, ` A`, `A_1` ends in the raised selection error on `A_1` |

## Left out

- The Streamlit page: upload, temporary file, default path, messages, metrics, profile table and charts (test.py:113-182). This is presentation and I/O. Which file is read is a parameter: the `Reader` passed in.
- Font and platform setup (test.py:22-32). This is process-wide plotting configuration.
- Decoding and CSV parsing inside `pd.read_csv`. The loader receives them as the `Reader` oracle, so it is not modelled that pandas itself renames duplicate header cells on read.
- The grammar of `pd.to_datetime` formats and of free-form parsing. This is the `Parser` oracle. Timestamps are an uninterpreted `Date`.
- Free-form parsing is modelled cell by cell. `pd.to_datetime(series_str, errors="coerce")` without a format works on the whole column: recent pandas infers one format from the first present value and applies it to every cell. The oracle `Parser` sees one cell at a time, so it cannot express that dependence between cells.
- Column dtypes as the reader delivers them: text columns are assumed to arrive as `object` dtype (`Text`). A reader that gives them a dedicated string dtype, as newer pandas does by default, fails `s.dtype != object` for every column, so nothing is converted; the `Reader` can express that case by returning `Other`, but no property here is stated for it.
- `str(c)` on header labels that are not strings: headers are modelled as strings.
- `DateLike.IsHit`: `\d` is modelled as the ASCII digits `0`-`9`; Python also matches other Unicode decimal digits.
- Floating point. The 0.3 gate is the integer test `10 * hits >= 3 * n`. It agrees with the float comparison because n ≤ 200, so a ratio other than 3/10 is at least 1/2000 away from 0.3. `success_threshold` is an exact rational. The float mean could differ from the exact ratio only within rounding distance of the threshold.
- The in-place updates made before `coerce_datetimes` raises: a raise is modelled as `Failure` and the partly converted frame is dropped, as the page never sees it.
- The contents of non-object columns (`Other`). The core only reads their dtype and row count.
