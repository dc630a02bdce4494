# Optojump trial analyser, modelled in Dafny

`ojdata.py` reads Optojump treadmill exports. Each export is a SpreadsheetML workbook (XML 2003). For each upload it produces one summary row:

- the subject's surname and given name, the session and the music condition, all read from the file name;
- the time `T_stop` of the first row whose `#` cell holds `Impulso esterno STOP`;
- for every column right of `Tempo[s]`, a value reduced over the rows whose time lies in the 15 minutes (900 s) before `T_stop`:
  - the first such column (the cumulative distance) keeps its last valid value;
  - each other column gets the mean of its valid values;
  - a column without any valid value is absent, never 0.

The project models this core:

| file | module | models |
|---|---|---|
| `common.dfy` | `Wrappers`, `Sequences` | `Option` and `Result` types, and `list.index` as `FirstIndexOf` |
| `sparse_row.dfy` | `SparseRow` | `parse_row`: how a sparse `<Row>` becomes a dense row, with cells placed by their 1-based `ss:Index` |
| `cells.dfy` | `CellText` | cell predicates: truthiness, `strip()` blankness, decimal commas |
| `filename.dfy` | `FilenameParser` | `parse_filename`: `.xml` stripping, `_` tokens, the `Treadmill` marker, the fixed offsets, the music label |
| `reduction.dfy` | `WindowReduction` | the window, the row loop with its sums, counts and last value, and the averaging loop of `process_single_file` |
| `trial.dfy` | `TrialExtractor` | the rest of `process_single_file`: the worksheet and table lookup, the guard on the row count, the column lookup with fallbacks 23 and 25, the STOP search and the order of the guards |
| `batch.dfy` | `TrialBatch` | `process_multiple_files`: failures are skipped and the headers come from the first success |

### Modelling choices

- **Number parsing.** Python's `float()` is the parameter `parse: string -> Option<real>`. It is applied after `,` has been replaced by `.`, and every statement holds for every such parser. Arithmetic on the parsed values is exact `real` arithmetic.
- **Workbook.** The workbook is taken already parsed: a sequence of worksheets, each with a name and its tables, each table a list of sparse rows.
- **File name.** The file name given to the model is the base name that `os.path.basename` produces.

### Notes on the source

- **Token offsets.** The code reads the session at `tokens[idx + 9]` and the music token at `tokens[idx + 10]`, where `idx` is the position of the first `Treadmill` token (`ojdata.py:55-58`). That leaves eight tokens between the marker and the session: `8km`, `h`, the three date tokens and the three time tokens of the docstring's format `…_Treadmill_8km_h_dd_mm_yyyy_hh_mm_ss_T1_M.xml` (`ojdata.py:43`). `FilenameParser.ComposedFilenameParses` states this convention. `FilenameParser.ShiftedTokensExample` takes a name that writes the speed as `8_km_h`, which is one token more, and shows that the code then reads the session as `00` and the music label as `S1`.
- **STOP errors.** A STOP row with a missing or empty time cell and a file with no STOP row at all raise the same error (`ojdata.py:123-124`). Both are `NoValidStopRow`.

Each operation written as statements in the source (loops, or the straight-line guards of `ExtractTrial`) is a `method` proved equal to a specification function:

- `ParseRow` = `Reconstruct`
- `FindStop` = `LocateStop`
- `ReduceWindow` = `Measurements`
- `ExtractTrial` = `Summarise`
- `ProcessFile` = `FileOutcome`
- `ProcessBatch` = `Collect` of `Outcomes`

The lemmas state what the source promises about those functions.

## Model

| member | source | states |
|---|---|---|
| Sequences.FirstIndexOf | ojdata.py:49-52 | `list.index`: None exactly when the item is absent; otherwise a position holding it with no earlier occurrence |
| SparseRow.Reconstruct | ojdata.py:14-32 | the specification of `parse_row`: cell by cell, pad with None until the next free column reaches the cell's `ss:Index`, then append its text (no contract of its own; stated by `ParseRow`, `CellLandsAtSlot`, `SlotsIncrease`, `EntriesComeFromCells`, `RowCoversIndices`, `SequentialRow`) |
| SparseRow.ParseRow | ojdata.py:14-32 | the counter loop builds exactly the left fold `Reconstruct` of the cells |
| SparseRow.ReconstructExtends | ojdata.py:19-31 | the row only grows: the row built from a prefix of the cells is a prefix of the full row |
| SparseRow.CellLandsAtSlot | ojdata.py:22-31 | every cell's text lands at its slot; the positions it skips are None; a forward `ss:Index` puts it at index−1, a missing or backward one at the next position |
| SparseRow.SlotsIncrease | ojdata.py:25-31 | cells occupy strictly increasing positions, so no cell overwrites another |
| SparseRow.EntriesComeFromCells | ojdata.py:19-32 | every non-None entry of the row is the text of the cell placed at that position |
| SparseRow.RowCoversIndices | ojdata.py:22-27 | the row is at least as long as the cell list and reaches every `ss:Index` given |
| SparseRow.SequentialRow | ojdata.py:21-31 | without forward indices the row is just the cells' texts in order |
| SparseRow.GapExample | ojdata.py:14-32 | cells at indices 1 and 3 give `[a, None, c]` |
| CellText.ParseNumber | ojdata.py:137 | `float(text.replace(',', '.'))`: the parser applied after `CommaToDot` (no contract of its own; stated through `CommaToDot`) |
| CellText.FilledCell | ojdata.py:114-117 | a cell's text when the row has that column and the value is truthy (neither None nor ""), else None (no contract of its own; used by `IsStopRow`, `LocateStop` and `RowTime`) |
| CellText.IsBlank | ojdata.py:142 | `text.strip() == ""`: every character is one that Python's `str.isspace` accepts (no contract of its own; used by `CellValue`) |
| CellText.CommaToDot | ojdata.py:137 | same length, no comma left, every comma is replaced by a dot and all other characters are kept |
| FilenameParser.EndsWithIgnoreCase | ojdata.py:46 | `s.lower().endswith(suffix)` for a lower-case suffix (no contract of its own; used by `StripXmlSuffix`) |
| FilenameParser.StartsWithIgnoreCase | ojdata.py:63-65 | `s.upper().startswith(prefix)` for an upper-case prefix (no contract of its own; stated by `MusicLabelCases`) |
| FilenameParser.StripXmlSuffix | ojdata.py:46-47 | a case-insensitive `.xml` ending is removed (exactly 4 characters, the rest kept); any other name is unchanged |
| FilenameParser.Split | ojdata.py:48 | `split('_')` gives at least one part and no part contains the separator |
| FilenameParser.Join | ojdata.py:54 | `sep.join(parts)` (no contract of its own; stated by `JoinSplit` and `SplitJoin`) |
| FilenameParser.JoinSplit | ojdata.py:48 | joining the parts with the separator gives back the string |
| FilenameParser.SplitJoin | ojdata.py:48 | splitting a join of separator-free parts gives back those parts |
| FilenameParser.Tokens | ojdata.py:45-48 | a file name always has at least one token |
| FilenameParser.BeforeFirstDot | ojdata.py:59-62 | the stem is the prefix before the first `.`, and it holds no `.` |
| FilenameParser.MusicLabel | ojdata.py:59-68 | the music label: the stem before the first `.`, mapped to "no musica" for an NM… stem, "musica" for an M… stem, and passed through otherwise (no contract of its own; stated by `MusicLabelCases` and the examples) |
| FilenameParser.MusicLabelCases | ojdata.py:59-68 | a stem starting with NM (any case) gives "no musica", one starting with M gives "musica", any other passes through unchanged |
| FilenameParser.MusicLabelExamples | ojdata.py:63-68 | "NM2" gives "no musica", "m1" gives "musica", "XYZ" gives "XYZ" |
| FilenameParser.MusicLabelStemExamples | ojdata.py:59-68 | "S1" passes through; "T3.M" is cut at the dot to "T3" |
| FilenameParser.ParseFilename | ojdata.py:34-69 | `parse_filename`: the metadata, or which of its two guards failed (no contract of its own; stated by `ParseFilenameErrors`, `ParseFilenameFields` and `ComposedFilenameParses`) |
| FilenameParser.ParseFilenameErrors | ojdata.py:49-56 | iff: rejected for a missing marker exactly when no token is `Treadmill`; rejected for too few tokens exactly when fewer than 11 tokens start at the first marker |
| FilenameParser.ParseFilenameFields | ojdata.py:53-68 | success: the surname is token 0, the given name is the tokens between it and the first marker joined by spaces, the session is the marker + 9 token, the music is the label of the marker + 10 token |
| FilenameParser.ComposedFilenameParses | ojdata.py:34-69 | a name built by the naming convention (surname, given names, marker, eight gap tokens, session, music, anything after, `.xml`) parses back to its fields |
| FilenameParser.ShiftedTokensExample | ojdata.py:55-58 | a name with nine tokens between the marker and the session yields session "00" and music "S1" |
| WindowReduction.RowTime | ojdata.py:135-139 | a row's time: its time cell is filled and parses after `,` → `.`; a row without one is skipped (no contract of its own; used by `Contribution` and `StopRowOutcome`) |
| WindowReduction.CellValue | ojdata.py:142-146 | a measurement cell's value: the column exists, the value is truthy, not blank after `strip()`, and parses (no contract of its own; used by `Contribution`) |
| WindowReduction.Contribution | ojdata.py:135-146 | what one row gives a column: the cell's value when the row's time lies in [T_start, T_stop], else nothing (no contract of its own; stated by `ColumnValuesStep`, `AccumulateRow`, `MeasurementAbsentIff`, `ValuesFromRows`) |
| WindowReduction.InWindow | ojdata.py:140 | `T_start <= t <= T_stop`: the closed window (no contract of its own; used by `Contribution`) |
| WindowReduction.ColumnValues | ojdata.py:134-146 | the values a column receives from the rows before STOP, in row order: each row's `Contribution` when present (no contract of its own; stated by `ColumnValuesStep`, `ValuesFromRows`, `SingleValue`) |
| WindowReduction.Sum | ojdata.py:151 | the running `sums[col] += val`, added in row order (no contract of its own; stated by `SumBounds` and `ColumnValuesStep`) |
| WindowReduction.Mean | ojdata.py:160-163 | `sums[col] / counts[col]`, or None when the count is 0 (no contract of its own; stated by `MeanWithinBounds` and `SingleContribution`) |
| WindowReduction.Last | ojdata.py:147-149 | the last value a column received, or None when it received none (no contract of its own; stated by `DistanceIsLatestValue`) |
| WindowReduction.Measurement | ojdata.py:154-163 | the reduced value of a column: `Last` of its values for the column right of `Tempo[s]`, `Mean` for the others (no contract of its own; stated by `MeasurementAbsentIff`, `DistanceIsLatestValue`, `MeanWithinBounds`, `SingleContribution`, `ReducedValue`) |
| WindowReduction.Width | ojdata.py:128-131 | the number of measurement columns `len(range(tempo_col + 1, num_cols))`, 0 when the time column is the last or beyond (no contract of its own; used by `Measurements` and `MeasurementHeaders`) |
| WindowReduction.Measurements | ojdata.py:154-171 | one value per header column right of the time column, each being that column's reduction |
| WindowReduction.ColumnValuesStep | ojdata.py:140-152 | one row adds its contribution to a column: sum + value, count + 1, and the value becomes the new last value |
| WindowReduction.AccumulateRow | ojdata.py:140-152 | inner column loop: every column after the first gets its sum and count advanced by its contribution; the first column keeps its sum and count and gets its last value superseded; a row outside the window changes nothing |
| WindowReduction.AccumulateRows | ojdata.py:128-152 | the row loop leaves each column after the first with the sum and count of its windowed values, the first column with the last of its windowed values, and the first column's unused sum and count at 0.0 and 0 |
| WindowReduction.ReduceWindow | ojdata.py:128-171 | the two loops together compute exactly `Measurements` |
| WindowReduction.Assemble | ojdata.py:154-171 | the averaging loop: column 0 gets the last value, every other column sum/count, or None when its count is 0 |
| WindowReduction.ReducedValue | ojdata.py:154-163 | the accumulated sums, counts and last value give each column's reduced value |
| WindowReduction.MeasurementAbsentIff | ojdata.py:154-163 | iff: a column is None exactly when no row before STOP contributes a valid value to it (never 0.0) |
| WindowReduction.DistanceIsLatestValue | ojdata.py:147-149 | the distance column equals the value of the last contributing row; later readings supersede earlier ones |
| WindowReduction.ValuesFromRows | ojdata.py:133-152 | every value a column receives is the contribution of some row in the window |
| WindowReduction.SumBounds | ojdata.py:151-152 | a sum of n values in [lo, hi] lies in [n·lo, n·hi] |
| WindowReduction.MeanWithinBounds | ojdata.py:160-161 | a mean column lies within any bounds that all its contributing values respect |
| WindowReduction.SingleValue | ojdata.py:133-152 | with one contributing row, the column receives exactly that row's value |
| WindowReduction.SingleContribution | ojdata.py:154-163 | with one contributing row, a mean column and the distance column both report that value |
| TrialExtractor.ResolveColumn | ojdata.py:97-105 | the first header cell exactly equal to the name, or the fallback (23, 25) when there is none |
| TrialExtractor.HashColumn | ojdata.py:98-101 | the `#` column: `ResolveColumn` with fallback 23 (no contract of its own; stated by `ResolveColumn`) |
| TrialExtractor.TempoColumn | ojdata.py:102-105 | the `Tempo[s]` column: `ResolveColumn` with fallback 25 (no contract of its own; stated by `ResolveColumn`) |
| TrialExtractor.ContainsSubstringIff | ojdata.py:115 | Python's `in` on strings: true iff the marker occurs at some position |
| TrialExtractor.ContainsSubstring | ojdata.py:115 | Python's `sub in s` on strings (no contract of its own; stated by `ContainsSubstringIff`) |
| TrialExtractor.IsStopRow | ojdata.py:114-115 | a row is a STOP row when its `#` cell is filled and contains `Impulso esterno STOP` (no contract of its own; used by `StopRow` and `FindStop`) |
| TrialExtractor.StopRow | ojdata.py:113-116 | the first row whose filled `#` cell contains the STOP marker, counting the header as row 0; None only when no row qualifies |
| TrialExtractor.LocateStop | ojdata.py:110-124 | a successful search reports a row index inside the table |
| TrialExtractor.StopRowOutcome | ojdata.py:113-124 | only the first STOP row's time cell decides: missing or empty → NoValidStopRow, unparsable → InvalidStopTime with the text, else that row and its time |
| TrialExtractor.NoStopRowFails | ojdata.py:123-124 | without any STOP row the file fails with NoValidStopRow |
| TrialExtractor.FindStop | ojdata.py:110-124 | the for/break loop returns exactly `LocateStop` |
| TrialExtractor.LocateStopIndex | ojdata.py:116-122 | a successful search reports the first STOP row |
| TrialExtractor.DataRows | ojdata.py:134 | `parsed_rows[1:stop]`: rows 1 .. stop−1 in order, none when the STOP row is row 0 or 1 |
| TrialExtractor.MeasurementHeaders | ojdata.py:165 | `header[tempo_col+1:]`: as many names as measurement columns, in the same order |
| TrialExtractor.Summarise | ojdata.py:94-108 | the table-level outcome: too few rows, then a rejected file name, then `SummariseRows` (no contract of its own; stated by `TrialShape`, `TrialErrorOrder`, `TrialFromStopRow`, `LaterRowsIgnored` and `ExtractTrial`) |
| TrialExtractor.SummariseRows | ojdata.py:97-182 | column lookup, STOP search, the window [T_stop − 900, T_stop], the headers and `Measurements` over the rows before STOP (no contract of its own; stated by `TrialFromStopRow` and `ExtractRows`) |
| TrialExtractor.TrialShape | ojdata.py:126-182 | a success carries the file name's metadata and a window of exactly 900 s ending at `T_stop`, and has as many measurements as headers, aligned with the header columns right of `Tempo[s]` |
| TrialExtractor.TrialErrorOrder | ojdata.py:94-124 | the guards fire in order: row count, then file name, then STOP search; each failure is reported with its cause |
| TrialExtractor.TrialFromStopRow | ojdata.py:110-171 | the first STOP row at i with time t gives window [t−900, t] and the reduction over rows 1 .. i−1 |
| TrialExtractor.StopRowOfAgreeingTable | ojdata.py:113-122 | tables that agree up to the first STOP row have the same first STOP row |
| TrialExtractor.LocateStopOfAgreeingTable | ojdata.py:110-124 | such tables have the same STOP search outcome |
| TrialExtractor.LaterRowsIgnored | ojdata.py:113-152 | rows after the first STOP row never affect the outcome |
| TrialExtractor.SummariseOfEquivalentTables | ojdata.py:94-108 | with two or more rows, the outcome depends on the table only through its table-level result (proof helper behind `LaterRowsIgnored`) |
| TrialExtractor.SummariseRowsOfAgreeingTable | ojdata.py:110-171 | the table-level result depends only on the rows up to the first STOP row |
| TrialExtractor.SummariseRowsCongruent | ojdata.py:126-171 | the table-level result depends only on the header, the STOP search's outcome and the rows before STOP (proof helper behind `LaterRowsIgnored`, via `SummariseRowsOfAgreeingTable`) |
| TrialExtractor.SummariseRowsAtStop | ojdata.py:126-182 | after a successful STOP search the result is the window ending at `T_stop`, the headers and the reduction (proof helper behind `TrialShape` and `TrialFromStopRow`) |
| TrialExtractor.DataRowsOfAgreeingTable | ojdata.py:134 | tables that agree up to row i have the same data rows before i |
| TrialExtractor.ExtractTrial | ojdata.py:94-182 | the statement-level file processing after row reconstruction equals `Summarise` of the table and the parsed file name |
| TrialExtractor.ExtractRows | ojdata.py:97-182 | column lookup, STOP search, window and reduction, as statements, equal `SummariseRows` |
| TrialExtractor.FindWorksheet | ojdata.py:86-88 | the first worksheet named "Dati OJ"; None only when no worksheet has that name |
| TrialExtractor.ReconstructRows | ojdata.py:92-93 | one dense row per `<Row>`, each being `parse_row` of it |
| TrialExtractor.FileOutcome | ojdata.py:86-182 | `process_single_file` on a parsed workbook: the worksheet and table guards, then `Summarise` of the reconstructed rows and the parsed file name (no contract of its own; stated by `FileOutcomeFromSheet`, `NoWorksheetFails` and `ProcessFile`) |
| TrialExtractor.FindWorksheetAt | ojdata.py:86 | the lookup finds exactly the first worksheet with the name |
| TrialExtractor.FileOutcomeFromSheet | ojdata.py:86-95 | only the first "Dati OJ" worksheet and its first table matter: without a table the file fails, otherwise its outcome is that table's summary |
| TrialExtractor.NoWorksheetFails | ojdata.py:86-88 | without a "Dati OJ" worksheet the file fails with MissingWorksheet |
| TrialExtractor.ProcessFile | ojdata.py:71-182 | the whole per-file processing of a parsed workbook equals `FileOutcome` |
| TrialBatch.Outcome | ojdata.py:188-195 | iff: a slot yields a result exactly when the file is present and succeeds, and that result is its outcome |
| TrialBatch.Outcomes | ojdata.py:187-195 | one outcome per upload slot, in upload order |
| TrialBatch.Collect | ojdata.py:185-191 | the results list: the present outcomes in upload order (no contract of its own; stated by `CollectAppend`, `CollectSlot`, `ResultsFromSlots`, `AtMostOneResultPerSlot`, `SuccessesKept`) |
| TrialBatch.FirstHeaders | ojdata.py:186-193 | the headers of the first result, or None when there is no result (no contract of its own; stated by `ProcessBatch` and `MiddleFailureExample`) |
| TrialBatch.ProcessBatch | ojdata.py:184-196 | the results are the successful outcomes in upload order, and the headers are those of the first success (None when none succeeds) |
| TrialBatch.CollectAppend | ojdata.py:187-191 | files are processed independently: the results of a concatenation are the concatenated results |
| TrialBatch.CollectSlot | ojdata.py:188-195 | a missing or failing file is skipped without affecting the others; a success keeps its place |
| TrialBatch.ResultsFromSlots | ojdata.py:185-191 | every result is the outcome of some upload slot |
| TrialBatch.AtMostOneResultPerSlot | ojdata.py:187-191 | there are never more results than upload slots |
| TrialBatch.SuccessesKept | ojdata.py:189-191 | every successful file's result appears among the results |
| TrialBatch.MiddleFailureExample | ojdata.py:184-196 | three uploads whose middle one fails give the first and third results, and the first one's headers |

## Left out

- **User interface.** The Streamlit page (`main`, page set-up, upload widget, tables, download button) and the `st.error` messages shown for failing files are left out. Presentation is not part of the computation.
- **Export.** The Excel/pandas export of the result table is left out.
- **Error texts.** The texts of error messages are left out. The model only records which error variant occurs.
- **XML parsing.** `ET.parse`, the namespace lookup and the `.//` searches are left out. The workbook is taken as parsed structure: worksheets in document order, each with its tables. A malformed XML document, which makes `ET.parse` raise and the file be skipped, is left out.
- **Bad `ss:Index` values.** An `ss:Index` that does not parse as an integer makes `int()` raise. The matching failure path is left out: `Cell.index` is already `Option<nat>`. A zero or negative index is treated like a missing one, which is what the loop does with any index not beyond the current position.
- **Directory handling.** `os.path.basename` is left out. The model receives the base name.
- **Floating point.** Python floats are modelled as exact reals, and `float()` is a parser parameter. Rounding and NaN/infinity, where a NaN time falls outside every window, are therefore not modelled.
- **Case mapping.** The case-insensitive comparisons use ASCII case mapping. For the letters compared (`.xml`, `NM`, `M`) this gives the same answers as Python's Unicode `lower()`/`upper()`. Python's general Unicode case maps are not modelled.
- TrialExtractor.LocateStop: its own contract only bounds the index. What it returns is stated by `StopRowOutcome`, `NoStopRowFails` and `LocateStopIndex`.
