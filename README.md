# AESO report extraction and combining, in Dafny

This project models the two scripts that turn AESO "Current Supply Demand"
CSV reports into one combined table:

- `parse_csv` (parse_aeso_csvs.py). It reads the report timestamp from the
  first cell of row 4, after the label `Last Update :`, in the format
  `%Y-%m-%d %H:%M`. It then takes the generation rows `reader[28:32]` and
  skips rows with fewer than six cells. It turns every other row into a
  record with the stripped fuel type, its subtype from a fixed
  classification chain, and the numbers in columns 1, 2 and 5 (MC, TNG,
  DCR).
- combine_csvs.py:
  - `extract_last_update` returns the stripped text after `Last Update :`
    in the first of the first five lines that holds it.
  - `process_csv` tags every row the CSV reader returns with that text and
    with the file's path.
  - The loop of `main` feeds every file whose name has not been processed
    to `process_csv` and gathers the frames in `all_data`. Once 50 entries
    are reached, it concatenates them, writes the result and keeps it as
    the only entry. If no file produced a frame, it writes nothing.

Modules:

- `Wrappers`: `Option` and `Result`.
- `Text`: the Python string operations the scripts rely on.
  - `str.strip` uses Python's whitespace set.
  - `sub in s` is substring search.
  - `s.split(sep)[1]` is `None` where Python raises `IndexError`.
  - `str.splitlines` treats `\r\n` as one boundary.
  - `lines[:n]` is a bounded prefix.
- `Timestamps`: a strict `%Y-%m-%d %H:%M` reader with `datetime`'s range
  checks, and the matching formatter.
- `AesoReport`: `parse_csv`. A recursive reference function, `ParseReport`,
  is proved equal to the looping method `ParseCsv`.
- `Combine`: `extract_last_update`, `process_csv` and the batching loop of
  `main`. Each method is proved against a function that states its result.

The CSV reader is abstracted: `parse_csv` receives the report as rows of
cells. Python's `float` is a parameter `toFloat: string -> Option<real>`,
which gives `None` where `float` raises. `pd.read_csv(..., skiprows=5)` is a
parameter `readCsv`, which gives `None` where it raises. A data frame is a
sequence of `TaggedRow`s, and `pd.concat` is `Flatten`.

The model follows the code as written:

- The table is taken at the fixed rows 28 to 31, not found by an anchor
  label.
- Classification is case-sensitive: `GAS` is `Unknown`.
- DCR is read from column 5, not computed as MC minus TNG.
- A cell that `float` rejects makes `parse_csv` raise. The cell is not set
  to null.
- All data goes to the single file `data/monthly_data.csv`, with no
  partitioning by month.

## Model

| member | source | states |
|---|---|---|
| Text.Strip | parse_aeso_csvs.py:23 | Python's `str.strip()`. It has no contract of its own. StripSlice, StripIdempotent and StripKeepsAbsence state what it returns. |
| Text.StripSlice | parse_aeso_csvs.py:23 | `strip()` returns the slice of the text left after cutting whitespace at both ends. Everything cut away is whitespace. A non-empty result neither starts nor ends with whitespace. |
| Text.StripIdempotent | combine_csvs.py:14 | Stripping an already stripped text changes nothing. |
| Text.StripKeepsAbsence | combine_csvs.py:14 | Stripping cannot create an occurrence of a substring: if the stripped text holds it, so does the original. |
| Text.Contains | combine_csvs.py:13 | The test `sub in s`. It has no contract of its own. ContainsOccurs states when it holds. |
| Text.ContainsOccurs | combine_csvs.py:13 | `sub in s` holds exactly when `sub` occurs in `s` at some index. |
| Text.SplitAfter | parse_aeso_csvs.py:11 | `s.split(sep)[1]`, `None` where Python raises `IndexError`. It has no contract of its own. SplitAfterSpec states what it returns. |
| Text.SplitAfterSpec | parse_aeso_csvs.py:11 | `s.split(sep)[1]` exists exactly when `sep` occurs in `s`. It is the text right after the first occurrence and holds no occurrence. It ends at the end of `s` or at the first occurrence at or after its start. |
| Text.SplitLines | combine_csvs.py:11 | Python's `str.splitlines()`. It has no contract of its own. SplitLinesLines, SplitLinesJoin and SplitLinesCrLf state what it returns. |
| Text.SplitLinesLines | combine_csvs.py:11 | No line returned by `splitlines()` holds a line boundary. There are no lines exactly when the text is empty. |
| Text.SplitLinesJoin | combine_csvs.py:11 | For text whose boundaries are all `\n` and which ends in one, writing each line back followed by `\n` rebuilds the text. |
| Text.SplitLinesCrLf | combine_csvs.py:11 | `\r\n` is one boundary: a line, then `\r\n`, then any text splits into that line followed by the lines of the rest, with no empty line between. |
| Text.Take | combine_csvs.py:11 | `lines[:5]` holds at most five lines, and they are the first lines, in order. It is all of them when there are fewer. |
| Timestamps.ParseDateTime | parse_aeso_csvs.py:12 | A text accepted as `%Y-%m-%d %H:%M` is 16 characters long and denotes a valid date and time. |
| Timestamps.ParseFormat | parse_aeso_csvs.py:12 | Every valid date and time is read back from its own formatted text. |
| Timestamps.FormatParse | parse_aeso_csvs.py:12 | A text that is accepted is exactly the formatted form of what it denotes, so reading is one-to-one. |
| AesoReport.Classify | parse_aeso_csvs.py:29-38 | The sub-type chain. It has no contract of its own. ClassifyByTable, ClassifyIsCaseSensitive, ClassifyInterchangeAnywhere and ClassifyContainsInterchange state its result. |
| AesoReport.ClassifyByTable | parse_aeso_csvs.py:29-38 | The if/elif chain agrees with the label table: Gas, Coal and Dual Fuel map to Fossil; Solar, Wind and Hydro to Renewable; Energy Storage to Storage; Other to Biomass. Any other label is Interchange when it contains "Interchange", else Unknown. |
| AesoReport.ClassifyIsCaseSensitive | parse_aeso_csvs.py:29-30 | Matching is exact: "GAS" and "gas" are Unknown; only "Gas" is Fossil. |
| AesoReport.ClassifyInterchangeAnywhere | parse_aeso_csvs.py:37-38 | Every label of the form `pre + "Interchange" + post`, for any `pre` and `post`, is an Interchange. No label in the table holds "Interchange", so the substring test always decides. |
| AesoReport.ClassifyContainsInterchange | parse_aeso_csvs.py:29-38 | Any label for which `"Interchange" in fuel_type` holds is classified Interchange, because no label in the table contains it. |
| AesoReport.WindowHi | parse_aeso_csvs.py:18 | The slice `reader[28:32]` ends within the report and at index 32 at most. |
| AesoReport.ReportTimestamp | parse_aeso_csvs.py:9-15 | The timestamp of row 4, `None` where the `try` block raises. It has no contract of its own. ReportTimestampSpec and NoTimestampNoRecords state it. |
| AesoReport.ReportTimestampSpec | parse_aeso_csvs.py:9-12 | The report has a timestamp exactly when all of these hold: row 4 and its first cell exist, the cell holds `Last Update :`, and the stripped text after it parses. The timestamp is then a valid date and time. |
| AesoReport.NoTimestampNoRecords | parse_aeso_csvs.py:9-15 | A missing row 4, a missing first cell, a missing label or an unparsable date each give `[]`, whatever the rest of the report holds. |
| AesoReport.ConvertRow | parse_aeso_csvs.py:23-47 | One usable row to one record, or the error of its first failing `float`. It has no contract of its own. ParseReportRecords, ParseReportRaises and ParseReportFailure state what it gives for each usable row. |
| AesoReport.ExtractRecords | parse_aeso_csvs.py:17-48 | The loop over `reader[28:32]` returns exactly the records (or the error) of the recursive reference `ExtractFrom`. |
| AesoReport.ParseCsv | parse_aeso_csvs.py:6-48 | `parse_csv` returns (`Success`) or raises (`Failure`) exactly as the reference `ParseReport` says. |
| AesoReport.UsableRowsExact | parse_aeso_csvs.py:18-22 | The rows that yield records are at most four, lie at indices 28 to 31, come in increasing order, and are exactly the rows there with at least six cells. |
| AesoReport.ParseReportRecords | parse_aeso_csvs.py:17-47 | On success there are no records without a timestamp. Otherwise there is one record per usable row, in row order. Each record carries the report's timestamp, `row[0]` stripped, its subtype, and the numbers of columns 1, 2 and 5. |
| AesoReport.ParseReportRaises | parse_aeso_csvs.py:24-26 | `parse_csv` raises exactly when the report has a timestamp and some usable row holds a cell in column 1, 2 or 5 that `float` rejects. |
| AesoReport.ParseReportFailure | parse_aeso_csvs.py:24-26 | The error raised is that of the first usable row that does not convert, at its first failing column in the order 1, 2, 5. Every earlier usable row converts. |
| AesoReport.ExtractFromSucceeds | parse_aeso_csvs.py:20-26 | The window scan succeeds exactly when every usable row from the given index on converts. |
| AesoReport.ReportScenario | parse_aeso_csvs.py:10-47 | A report with `Last Update : 2024-06-23 10:05` in row 4 and the row `Gas,10,4,,,1` at index 28 yields one Fossil record for Gas with MC 10, TNG 4 and DCR 1. DCR is not MC minus TNG. |
| Combine.LastUpdateOfSome | combine_csvs.py:12-15 | The scan returns text exactly when some scanned line holds `Last Update :`. |
| Combine.ExtractLastUpdate | combine_csvs.py:9-15 | The loop with its early return yields the same result as the reference `LastUpdate`. |
| Combine.LastUpdateOfFirst | combine_csvs.py:12-14 | The first line holding the label decides: the result is the stripped text between its first and second label, and later lines are ignored. |
| Combine.LastUpdateHeaderOnly | combine_csvs.py:11-15 | The result is `None` exactly when none of the first five lines holds the label. A label on line 6 or later is never seen. |
| Combine.LastUpdateStripped | combine_csvs.py:14 | The returned text is already stripped and never holds the label itself. |
| Combine.ProcessCsv | combine_csvs.py:17-30 | `process_csv` on the text its URL returns. It has no contract of its own. ProcessCsvTags states its result. |
| Combine.ProcessCsvTags | combine_csvs.py:17-30 | `process_csv` returns a frame exactly when the CSV reader succeeds. The frame holds the reader's rows, in order, each tagged with Timestamp from `extract_last_update` (possibly `None`) and with SourceFile set to the path. |
| Combine.FlattenAppend | combine_csvs.py:90 | Concatenating two lists of frames gives the concatenation of each list's rows, in order. |
| Combine.Selected | combine_csvs.py:81-82 | The files the loop hands to `process_csv`. It has no contract of its own. SelectedSkipsProcessed and SelectedAllWhenNoneProcessed state which files they are. |
| Combine.SelectedSkipsProcessed | combine_csvs.py:81-84 | A file reaches `process_csv` exactly when its name is not in the processed set. |
| Combine.SelectedAllWhenNoneProcessed | combine_csvs.py:63 | With the empty processed set that `main` starts with, every listed file is handed over, in listing order. |
| Combine.Produced | combine_csvs.py:81-86 | The frames the loop appends to `all_data`. It has no contract of its own. ProducedRowsTagged, CombineBatches and RunCombine state what they hold and where they end up. |
| Combine.ProducedRowsTagged | combine_csvs.py:81-86 | Every gathered row comes from a listed file whose name was not processed, and carries that file's path and "Last Update" text. |
| Combine.BatchClosedForm | combine_csvs.py:89-92 | After `k` frames, `all_data` holds `(k-1) mod 49 + 1` entries and `(k-1) div 49` intermediate writes have happened. |
| Combine.AccumulateFrame | combine_csvs.py:85-92 | Appending a frame, and collapsing at 50 entries, preserves the loop state: no row is lost or reordered, there are fewer than 50 entries, the flag is set, and the writes are as stated. |
| Combine.CombineBatches | combine_csvs.py:80-92 | After the loop, `all_data` concatenates to every produced frame, in order, and holds fewer than 50 entries. `new_files_found` is true exactly when a frame was produced. The `j`-th intermediate write holds the first `49*j+50` frames. Only unprocessed files are fetched, in order. |
| Combine.FlattenPrefix | combine_csvs.py:90-92 | Each intermediate write is a prefix of the concatenation of all produced frames. |
| Combine.RunCombine | combine_csvs.py:63-100 | `main` writes nothing when no frame was produced. Otherwise its last write holds every produced row, in order, and every earlier write is a prefix of it. |

## Left out

- Network access is not modelled: `requests.get`, `raise_for_status`, the repository listing with its pagination, and `time.sleep` (combine_csvs.py:19-20, 32-48). A file entry carries the text its URL returns.
- Uploading to the remote repository (PyGithub) is not modelled (combine_csvs.py:59-60, 104-123). It is a foreign library with no logic of its own.
- pandas internals are not modelled. `read_csv` is an abstract parameter. `concat` is row concatenation, without column alignment. `to_csv` output is a list of written frames, not their CSV text.
- Opening the file and `csv.reader` tokenisation are not modelled (parse_aeso_csvs.py:7-8). `parse_csv` receives the rows of cells.
- IEEE floating point is not modelled: `float` is an abstract partial conversion to `real`.
- Timestamps.ParseDateTime: accepts only the strict shape of exactly two-digit fields, four-digit year and one space. It does not model `strptime`'s leniency on single-digit fields or non-ASCII digits.
- `print` logging and the commented-out reload of an existing output file (combine_csvs.py:64-71) are not modelled. They are side effects only or not live code, so the processed set is always empty, as at combine_csvs.py:63.
- A `parse_csv` exception is modelled as a `Failure` value carrying the row index, the column and the cell. Python's exception message text is not modelled.
