# Data Sweeper — a Dafny model of its per-file pipeline

Data Sweeper is a Streamlit script (`src/growth_mindset_challenge/app.py`)
that takes uploaded CSV and Excel files. For each one it can show the
columns, keep a chosen subset of them, remove duplicate rows, fill missing
numeric values with the column mean, chart two numeric columns, and offer
the table for download as CSV or Excel. The script's own logic is small:

- it takes the extension from the file name;
- it dispatches on `.csv` / `.xlsx`;
- it projects the chosen columns;
- it guards the two cleaning actions and the chart;
- it derives the download name and MIME type;
- it keeps one unsupported or unreadable file from stopping the others,
  while a second readable file under a name already shown stops the
  whole run (its widget labels repeat).

This project models that logic over an abstract table and proves it.

Modules:

- `FileNames` (`filenames.dfy`): POSIX `os.path.splitext`, ASCII
  `lower()`, and the `.csv` / `.xlsx` dispatch.
- `Tables` (`tables.dfy`): the table. It has column labels, one
  numeric-dtype flag per column, and rows of cells. A cell is a number,
  a text or null.
- `Projection` (`projection.dfy`): `df[selected_columns] if selected_columns else df`.
- `Cleaning` (`cleaning.dfy`): `drop_duplicates` (keep first) and the
  `fillna` branch, as functions on values, with their lemmas.
- `Frames` (`frames.dfy`): the DataFrame that the cleaning buttons change
  in place. It is a class over an array of rows. Duplicate removal
  compacts the array in place, and filling rewrites each row in place.
  Both are proved equal to the functions in `Cleaning`.
- `Visualization` (`visualization.dfy`): the chart gate, "first two
  numeric columns, or a warning".
- `Conversion` (`conversion.dfy`): Python's `str.replace`, the output
  name, the MIME type, and the conversion outcome.
- `Runs` (`runs.dfy`): how far one run of the script gets through the
  uploads. It is generic in what a file shows and produces: each file
  shows its widgets under a name, or under none when it was rejected
  first, and the first file whose name was already shown stops the run.
- `Pipeline` (`pipeline.dfy`): one file's processing as a method over a
  `Frame`, proved equal to a specification function. Also the loop
  `for file in uploaded_files` as a method, proved equal to the run
  built from `Runs`, with lemmas on what one bad file or one repeated
  name does to the run.

Foreign code enters as one parameter, the `Foreign` bundle of three functions:

- the reader (`pd.read_csv` / `pd.read_excel`) is `read: (Format, bytes) -> table or failure`;
- the encoder (`to_csv` / `to_excel` into a buffer) is `encode: (Format, Table) -> bytes or failure`;
- the column mean is `mean: column cells -> number or NaN`. It is applied
  to the projected column as read from the upload. Every click reruns the
  script from the upload and only the clicked button is pressed in that
  run, so a fill never follows a duplicate removal. For the same reason
  the download is always built from the projected table without cleaning.

The model keeps three behaviours of the code that a reader might not expect:

- Projection keeps the columns in the order of the user's selection
  (`df[list]`), not in the table's original order.
- The output name replaces every occurrence of the lower-cased extension,
  and the match is case-sensitive. So `Report.CSV` converted to Excel is
  still named `Report.CSV`, and `a.csv.b.csv` becomes `a.xlsx.b.xlsx`.
- `splitext` finds no extension when everything before the last dot of
  the name is dots. So a file called `.csv` is rejected as unsupported.

## Model

| member | source | states |
|---|---|---|
| `FileNames.SplitExt` | src/growth_mindset_challenge/app.py:17 | the stem followed by the extension is the name, and the extension is empty or starts with a dot |
| `FileNames.SplitExtCharacterized` | src/growth_mindset_challenge/app.py:17 | the extension is non-empty exactly when some dot has no dot or slash after it and a non-dot character before it in the same path component; it then starts at that dot |
| `FileNames.NoDotNoExtension` | src/growth_mindset_challenge/app.py:17 | a name without a dot has an empty extension and is its own stem |
| `FileNames.LeadingDotIsNotExtension` | src/growth_mindset_challenge/app.py:17 | `.csv` splits into stem `.csv` and an empty extension |
| `FileNames.SimpleNameSplit` | src/growth_mindset_challenge/app.py:17 | a stem that has no slash and does not start with a dot, followed by a dot and characters that are neither dots nor slashes, splits between the two |
| `FileNames.LowerChar` | src/growth_mindset_challenge/app.py:17 | the result is never an upper-case ASCII letter; an upper-case letter moves 32 code points down to its lower-case form, any other character is kept |
| `FileNames.Lower` | src/growth_mindset_challenge/app.py:17 | the same length, each character lower-cased on its own |
| `FileNames.FileExt` | src/growth_mindset_challenge/app.py:17 | the detected extension is empty or starts with a dot, is no longer than the name, and holds no upper-case ASCII letter |
| `FileNames.Extension` | src/growth_mindset_challenge/app.py:21-24 | `.csv` exactly for CSV and `.xlsx` exactly for Excel, each a dot and more |
| `FileNames.FileExtIgnoresCase` | src/growth_mindset_challenge/app.py:17 | two names that lower-case alike yield the same lower-cased extension |
| `FileNames.SplitExtSamePositions` | src/growth_mindset_challenge/app.py:17 | two names with their dots and slashes in the same places have extensions of the same length |
| `FileNames.UpperCaseCsvIsCsv` | src/growth_mindset_challenge/app.py:17-22 | `DATA.CSV` has extension `.csv` and is dispatched to the CSV reader |
| `FileNames.LeadingDotCsvIsUnsupported` | src/growth_mindset_challenge/app.py:17-27 | a file named `.csv` has no extension and is not dispatched |
| `FileNames.Detect` | src/growth_mindset_challenge/app.py:21-27 | a format is chosen exactly when the extension equals that format's extension; anything other than `.csv` and `.xlsx` is unsupported |
| `Tables.NumericIndices` | src/growth_mindset_challenge/app.py:55 | the numeric columns, each once, in column order, and every numeric column among them |
| `Tables.NoNumericIndices` | src/growth_mindset_challenge/app.py:55-56 | the numeric column list is empty exactly when no column is numeric |
| `Projection.Project` | src/growth_mindset_challenge/app.py:42-43 | an empty selection returns the table unchanged; otherwise the result has exactly the selected columns in selection order, each cell and dtype taken from the same-named column, the same row count, and is never zero-column when the input had columns |
| `Pipeline.KeepOptions` | src/growth_mindset_challenge/app.py:42 | every kept pick is one of the options and one of the picks, and every pick that is an option is kept |
| `Pipeline.MultiselectReply` | src/growth_mindset_challenge/app.py:42 | the selection holds distinct labels, each a column of the table |
| `Pipeline.Projected` | src/growth_mindset_challenge/app.py:42-43 | the projected table is well-formed and has the row count of the table read |
| `Cleaning.DropDuplicates` | src/growth_mindset_challenge/app.py:51 | never longer than the input; its meaning is given by the lemmas below |
| `Cleaning.DropDuplicatesSameValues` | src/growth_mindset_challenge/app.py:51 | every row value of the input is still present and no other appears |
| `Cleaning.DropDuplicatesDistinct` | src/growth_mindset_challenge/app.py:51 | no two rows of the result are equal |
| `Cleaning.FirstOccurrences` | src/growth_mindset_challenge/app.py:51 | the increasing list of exactly the positions where a value occurs for the first time |
| `Cleaning.DropDuplicatesKeepsFirstOccurrences` | src/growth_mindset_challenge/app.py:51 | the result is the input at its first-occurrence positions, in their original order |
| `Cleaning.DropDuplicatesOfDistinct` | src/growth_mindset_challenge/app.py:51 | a table without repeated rows is left unchanged |
| `Cleaning.DropDuplicatesIdempotent` | src/growth_mindset_challenge/app.py:51 | removing duplicates twice equals removing them once |
| `Cleaning.DropDuplicatesSnoc` | src/growth_mindset_challenge/app.py:51 | one more row is kept exactly when it did not occur before |
| `Cleaning.DropDuplicateRows` | src/growth_mindset_challenge/app.py:51 | labels and dtypes unchanged, the same set of row values, no repeated row, still well-formed |
| `Cleaning.ColumnMeans` | src/growth_mindset_challenge/app.py:57 | one fill value per column, none for non-numeric columns |
| `Cleaning.FillRow` | src/growth_mindset_challenge/app.py:57 | the row keeps its length; a cell changes only when its column is numeric, the cell is null and the column has a mean, and such a cell becomes that mean |
| `Cleaning.FillMissing` | src/growth_mindset_challenge/app.py:57 | labels, dtypes and row count unchanged; non-null cells and non-numeric columns untouched; a null in a numeric column becomes that column's mean, or stays null when there is none |
| `Cleaning.FilledColumnHasNoNull` | src/growth_mindset_challenge/app.py:57 | a numeric column with a mean has no null after filling |
| `Cleaning.FillMissingIdempotent` | src/growth_mindset_challenge/app.py:57 | filling twice equals filling once |
| `Cleaning.FillWithoutNumericIsIdentity` | src/growth_mindset_challenge/app.py:55-60 | with no numeric column, filling changes nothing |
| `Cleaning.FillStep` | src/growth_mindset_challenge/app.py:55-60 | the warning is given exactly when no column is numeric, and then the table is unchanged; the table is always the filled table |
| `Cleaning.ScenarioDropsRepeat` | src/growth_mindset_challenge/app.py:51 | rows (1,10),(2,null),(1,10) keep (1,10),(2,null) |
| `Cleaning.ScenarioFillsMean` | src/growth_mindset_challenge/app.py:57 | in rows (1,10),(2,null) the null becomes the mean of the `value` column |
| `Cleaning.SeparateClicksScenario` | src/growth_mindset_challenge/app.py:47-57 | on the upload (1,10),(2,null),(1,10), the duplicate button keeps two rows, and the fill button, in a run of its own, fills row 2 and keeps the repeat |
| `Frames.Frame.constructor` | src/growth_mindset_challenge/app.py:43 | the new frame holds exactly the given table |
| `Frames.Frame.DropDuplicatesInPlace` | src/growth_mindset_challenge/app.py:51 | in-place compaction leaves the frame holding the deduplicated table |
| `Frames.CompactFirstOccurrences` | src/growth_mindset_challenge/app.py:51 | the array's prefix becomes the first occurrences of the old contents, in order, and the cells past the old contents are left as they were |
| `Frames.Frame.FillMissingInPlace` | src/growth_mindset_challenge/app.py:57 | after the in-place fill, the frame holds the filled table of its previous contents |
| `Visualization.Visualize` | src/growth_mindset_challenge/app.py:65-69 | a chart exactly when two numeric columns exist, a warning otherwise; the table is only read |
| `Visualization.ChartShowsFirstTwoNumeric` | src/growth_mindset_challenge/app.py:65-67 | the chart is the projection on the first two numeric columns, all rows |
| `Conversion.ReplaceAll` | src/growth_mindset_challenge/app.py:80 | no contract of its own: `str.replace`, pinned down by `ReplaceAbsent`, `ReplaceAtStart` and `ReplaceFirst` |
| `Conversion.ReplaceAbsent` | src/growth_mindset_challenge/app.py:80 | a text in which the pattern does not occur is returned unchanged |
| `Conversion.ReplaceBySelf` | src/growth_mindset_challenge/app.py:80 | a generic fact of `str.replace` used for line 80: replacing a pattern by itself changes nothing |
| `Conversion.ReplaceAtStart` | src/growth_mindset_challenge/app.py:80 | an occurrence at the start is replaced and the scan resumes after it |
| `Conversion.ReplaceFirst` | src/growth_mindset_challenge/app.py:80 | the first occurrence is replaced and the scan continues after it |
| `Conversion.AbsentWithoutItsCharacter` | src/growth_mindset_challenge/app.py:80 | a generic fact of `str.replace` used for line 80: a pattern cannot occur in a text that lacks one of its characters |
| `Conversion.OutputName` | src/growth_mindset_challenge/app.py:80-85 | no contract of its own: the name lines 80 and 85 derive, stated by `OrdinaryNameGetsTargetExtension`, `SameFormatKeepsName` and `NameWithoutLowerExtensionIsKept` |
| `Conversion.OrdinaryNameGetsTargetExtension` | src/growth_mindset_challenge/app.py:80-85 | a name with a lower-case extension that does not recur in its stem gets the stem plus the target extension |
| `Conversion.SameFormatKeepsName` | src/growth_mindset_challenge/app.py:80-85 | converting `.csv` to CSV or `.xlsx` to Excel keeps the name |
| `Conversion.NameWithoutLowerExtensionIsKept` | src/growth_mindset_challenge/app.py:80-85 | when the lower-cased extension does not occur in the name, the name is unchanged |
| `Conversion.ReportCsvExtension` | src/growth_mindset_challenge/app.py:17 | `Report.CSV` has the lower-cased extension `.csv` |
| `Conversion.ReportCsvHasNoLowerCsv` | src/growth_mindset_challenge/app.py:80 | `.csv` does not occur in `Report.CSV` |
| `Conversion.UpperCaseExtensionIsNotReplaced` | src/growth_mindset_challenge/app.py:80-85 | `Report.CSV` converted to Excel is still named `Report.CSV` |
| `Conversion.TailOfTwoCsv` | src/growth_mindset_challenge/app.py:85 | `.b.csv` with `.csv` replaced by `.xlsx` is `.b.xlsx` |
| `Conversion.HeadOfTwoCsv` | src/growth_mindset_challenge/app.py:85 | in `a.csv.b.csv` the first `.csv` becomes `.xlsx` and the scan resumes at `.b.csv` |
| `Conversion.EveryOccurrenceIsReplaced` | src/growth_mindset_challenge/app.py:80-85 | `a.csv.b.csv` converted to Excel is named `a.xlsx.b.xlsx` |
| `Conversion.MimeType` | src/growth_mindset_challenge/app.py:78-86 | `text/csv` exactly for CSV, the OOXML spreadsheet type exactly for Excel |
| `Conversion.Convert` | src/growth_mindset_challenge/app.py:76-98 | an error exactly when the encoder fails; otherwise the encoder's bytes under the derived name and MIME type, never 'not requested' |
| `Pipeline.ProcessTable` | src/growth_mindset_challenge/app.py:42-98 | after a successful read: the columns are the selection or all, and rows only shrink; the duplicate flag is set exactly when the clean box is ticked and the duplicate button pressed, and then the table is the deduplicated projection; with the fill button it is the fill step on the projection; with no cleaning button it is the projection; the chart is drawn from the resulting table, and the conversion is made exactly when the convert button is pressed |
| `Pipeline.DownloadIsNeverCleaned` | src/growth_mindset_challenge/app.py:47-98 | whenever a download is offered, neither cleaning step ran and the encoder was given the projected table |
| `Pipeline.ProcessFileSpec` | src/growth_mindset_challenge/app.py:16-30 | unsupported exactly when the extension is neither `.csv` nor `.xlsx`, a read error exactly when the reader fails, processed exactly when the file is readable |
| `Pipeline.ReadableIsProcessed` | src/growth_mindset_challenge/app.py:19-98 | a readable file's report is the processing of the table the reader returned, which is well-formed |
| `Pipeline.ProcessFile` | src/growth_mindset_challenge/app.py:16-98 | the loop body over an in-place frame yields exactly `ProcessFileSpec` of the same upload |
| `Pipeline.Shown` | src/growth_mindset_challenge/app.py:16-47 | a file shows its widgets exactly when it is readable, and under its own name |
| `Pipeline.WidgetNames` | src/growth_mindset_challenge/app.py:16-47 | one entry per upload, in order: the name that upload's widgets show, if any |
| `Pipeline.Reports` | src/growth_mindset_challenge/app.py:16-98 | one report per upload, each what that file alone produces |
| `Pipeline.Batch` | src/growth_mindset_challenge/app.py:15-100 | the run's reports are those of the uploads before the stopping file, in order; the run ends normally exactly when every upload was handled; when it stops, the stopping upload is readable and its name is the one reported |
| `Pipeline.BannerShownExactlyWhenNamesDistinct` | src/growth_mindset_challenge/app.py:42-100 | the final banner is reached exactly when no two readable uploads share a name |
| `Pipeline.WidgetNamesConcat` | src/growth_mindset_challenge/app.py:16 | the widget names of two lists of uploads are those of each list, in turn |
| `Pipeline.FailureIsolated` | src/growth_mindset_challenge/app.py:16-30 | adding an unsupported or unreadable upload anywhere changes neither where the run stops nor any other upload's report; its own report takes its place when the run gets that far |
| `Pipeline.BatchStep` | src/growth_mindset_challenge/app.py:16-47 | one turn of the loop: the next upload either stops the run with the reports so far, or adds its report and, when readable, its name |
| `Pipeline.ProcessAll` | src/growth_mindset_challenge/app.py:15-100 | the loop yields exactly the run: the same reports, and the same stopping name |
| `Pipeline.SeverityOf` | src/growth_mindset_challenge/app.py:26-98 | an error exactly for an unsupported or unreadable file or a failed conversion; a warning exactly when otherwise the fill found no numeric column or the chart lacked one |
| `Pipeline.ErrorExactlyWhen` | src/growth_mindset_challenge/app.py:21-98 | a file ends in an error exactly when it is unsupported, unreadable, or its requested conversion fails |
| `Pipeline.ReportTxtExtension` | src/growth_mindset_challenge/app.py:17-26 | `report.txt` has extension `.txt`, which no reader accepts |
| `Pipeline.TextFileIsUnsupported` | src/growth_mindset_challenge/app.py:17-27 | an upload called `report.txt` is not readable and is reported as unsupported with `.txt` |
| `Pipeline.SingleFileRun` | src/growth_mindset_challenge/app.py:15-100 | a run over one upload handles it and ends normally |
| `Pipeline.RejectedThenOther` | src/growth_mindset_challenge/app.py:16-30 | an unsupported or unreadable upload followed by any other: both are handled and the run ends normally |
| `Pipeline.TextFileRejectedOthersContinue` | src/growth_mindset_challenge/app.py:16-30 | `report.txt` is rejected with extension `.txt` and the next file is still processed |
| `Pipeline.RepeatedNameStopsRun` | src/growth_mindset_challenge/app.py:42-47 | of two readable uploads under one name, the first is processed and the second stops the run, so nothing after it is handled |
| `Runs.Each` | src/growth_mindset_challenge/app.py:16 | one result per item, each the function applied to that item |
| `Runs.EachConcat` | src/growth_mindset_challenge/app.py:16 | the results of two lists in turn are the results of the two lists joined |
| `Runs.EachSnoc` | src/growth_mindset_challenge/app.py:16 | the results up to one more item are those before it followed by its own |
| `Runs.EachInsert` | src/growth_mindset_challenge/app.py:16 | inserting one item leaves the results before it unchanged and shifts the later ones by one around its own |
| `Runs.EachInsertAt` | src/growth_mindset_challenge/app.py:16 | past an inserted item, each result moves one place on |
| `Runs.StopAt` | src/growth_mindset_challenge/app.py:42-47 | the stopping position lies within the files, and a file that stops the run shows a name |
| `Runs.NamesConcat` | src/growth_mindset_challenge/app.py:42-47 | the names shown by two lists in turn are the names of each list, joined |
| `Runs.StopConcat` | src/growth_mindset_challenge/app.py:16-47 | running two lists of files in turn is running them together: the second sees the names the first showed |
| `Runs.DistinctSnoc` | src/growth_mindset_challenge/app.py:42-47 | one more name keeps the names distinct exactly when it is new |
| `Runs.RepeatNotDistinct` | src/growth_mindset_challenge/app.py:42-47 | a list with a repeated name is not distinct |
| `Runs.StopCompletes` | src/growth_mindset_challenge/app.py:42-100 | the run gets through every file exactly when the names shown, after those already seen, are distinct |
| `Runs.SkipUnshown` | src/growth_mindset_challenge/app.py:16-30 | a file that shows no name leaves the stopping point where it was, one place later when that point is after it |
| `Runs.StopOne` | src/growth_mindset_challenge/app.py:42-47 | a single file stops the run exactly when its name was shown already, and shows its own name |
| `Runs.StopStep` | src/growth_mindset_challenge/app.py:16-47 | past a prefix the run got through, the next file stops it exactly when its name was shown in that prefix, and otherwise joins the prefix with its name |
| `Runs.StopPassOne` | src/growth_mindset_challenge/app.py:42-47 | a file with a new name is passed and its name joins the names shown |
| `Runs.StopAtRepeat` | src/growth_mindset_challenge/app.py:42-47 | a file showing the same name as the one before it stops the run there |
| `Runs.InsertUnshown` | src/growth_mindset_challenge/app.py:16-30 | inserting a file that shows no name leaves the run stopping at the same file |

## Left out

- Streamlit itself is not modelled: the page setup, uploader, layout,
  subheaders and message texts. The rerun of the whole script on every
  interaction is modelled only through its effect on one run: the
  `Controls` of each file are its widget values in that run, with at most
  one of its buttons pressed. Nothing carries over from one run to the
  next, which is what the script does, since `df` is read again each time.
- Pipeline.Batch: the model lets buttons of several files be pressed in
  the same run. Streamlit presses at most one button per run, so such a
  run cannot happen; the model's claims hold for every run that can.
- Pipeline.ProcessAll: a repeated name stops the run after the file's
  name, size and preview lines (33-38) were written, and at the latest at
  the `Clean Data for …` checkbox of line 47. Streamlit builds a widget's
  identity from its options as well as its label, so the column
  multiselect of line 42 is still shown when the file's columns differ
  from the earlier file's. The model records no report for that file;
  those display lines and that multiselect are not modelled.
- Among the exceptions that escape both `try` blocks, only the duplicate
  widget identity of lines 42 and 47 is modelled. A failure inside
  `select_dtypes`, `fillna`, `bar_chart` or the multiselect itself is
  foreign code and is not modelled.
- The file-size line (line 34, a float in KB) and the `df.head()` preview
  (line 38) are display only.
- Parsing with `pd.read_csv` / `pd.read_excel` is the `read` parameter.
  The dtype inference behind the numeric flags is not modelled.
- Serialisation by `to_csv` / `to_excel` and the `BytesIO` buffer with its
  rewind are the `encode` parameter.
- Cleaning.FillMissing: the fill value is an abstract `mean` of the
  column's cells, not the floating-point arithmetic mean that pandas computes.
- Cleaning.FilledColumnHasNoNull: nulls are gone only in numeric columns
  that have a mean. A column with no number at all has a NaN mean in
  pandas and keeps its nulls.
- `lower()` is modelled for ASCII letters only. No other character
  lower-cases to one of `c`, `s`, `v`, `x`, `l`, so dispatch is unaffected.
- `splitext` is the POSIX one. The Windows separators `\` and drive
  letters are not modelled.
- The multiselect widget is modelled by `Pipeline.MultiselectReply`. It
  keeps the user's picks that are columns, without repeats, in picking
  order.
- The pandas row index kept by `drop_duplicates` is not modelled.
- The conversion radio offers only CSV and Excel, so the path where
  `conversion_type` is neither cannot occur and is not modelled.
- The round-trips "parse, serialise, parse" depend entirely on the
  foreign reader and encoder, so they are not stated.
- `Conversion.ReplaceAll` and `Conversion.OutputName` carry no contract of
  their own; what they compute is stated by the `Replace…` and name
  lemmas above.
