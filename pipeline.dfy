/**
 * The per-file loop of app.py (lines 15-98): every uploaded file is
 * classified, read, projected, optionally cleaned, charted and converted,
 * and a failure of one file never keeps the next one from being processed;
 * a second readable file with a name already shown stops the run.
 */
module Pipeline {
  import opened Wrappers
  import opened Tables
  import opened FileNames
  import opened Projection
  import opened Cleaning
  import opened Frames
  import opened Visualization
  import opened Conversion
  import opened Runs

  /** An uploaded file: its name and its bytes. */
  datatype Upload = Upload(name: string, content: seq<bv8>)

  /**
   * The button of a file that was clicked to start this run of the script.
   * Streamlit reruns the whole script on every click and a button is true
   * only in that run, so at most one of them is pressed.
   */
  datatype Button = NoButton | RemoveDuplicatesButton | FillMissingButton | ConvertButton

  /**
   * What the user chose in the widgets of one file, in one run of the
   * script: the column picks, the "clean" checkbox, the pressed button, the
   * visualization checkbox and the format radio.
   */
  datatype Controls = Controls(
    picks: seq<string>,
    clean: bool,
    pressed: Button,
    showChart: bool,
    target: Format)

  datatype FileInput = FileInput(upload: Upload, controls: Controls)

  /** The foreign reader's answer: `pd.read_csv` / `pd.read_excel`. */
  datatype ReadResult = Read(table: Table) | ReadFailed(cause: string)

  /**
   * The code the script calls but that is not modelled: the reader, the
   * column mean of `fillna(df.mean())`, and the encoder behind the download.
   */
  datatype Foreign = Foreign(
    read: (Format, seq<bv8>) -> ReadResult,
    mean: seq<Cell> -> Option<real>,
    encode: (Format, Table) -> EncodeResult)

  /** What happened to one file. */
  datatype FileReport =
    | UnsupportedType(name: string, ext: string)
    | ReadError(name: string, cause: string)
    | Processed(name: string, table: Table, deduplicated: bool, fill: FillOutcome,
                chart: ChartOutcome, conversion: ConversionOutcome)

  /** The reader produces well-formed tables whenever it succeeds. */
  ghost predicate ReaderWellFormed(env: Foreign) {
    forall f, b :: env.read(f, b).Read? ==> WellFormed(env.read(f, b).table)
  }

  /** `xs` with only the values that are `options`, first occurrences only. */
  function KeepOptions(xs: seq<string>, options: seq<string>): (r: seq<string>)
    ensures forall k :: 0 <= k < |r| ==> r[k] in options && r[k] in xs
    ensures forall k :: 0 <= k < |xs| && xs[k] in options ==> xs[k] in r
  {
    if xs == [] then []
    else (if xs[0] in options then [xs[0]] else []) + KeepOptions(xs[1..], options)
  }

  /**
   * The reply of `st.multiselect` over the table's labels: distinct labels,
   * each an option, in the order the user picked them.
   */
  function MultiselectReply(options: seq<string>, picks: seq<string>): (sel: seq<string>)
    ensures Distinct(sel)
    ensures forall n :: n in sel ==> n in options
  {
    var kept := KeepOptions(picks, options);
    DropDuplicatesSameValues(kept);
    DropDuplicatesDistinct(kept);
    DropDuplicates(kept)
  }

  /** Lines 42-43: the table as the chosen columns leave it. */
  function Projected(parsed: Table, c: Controls): (t: Table)
    requires WellFormed(parsed)
    ensures WellFormed(t) && |t.rows| == |parsed.rows|
  {
    Project(parsed, MultiselectReply(parsed.columns, c.picks))
  }

  /** The steps after a successful read (lines 42-98), as one value. */
  function ProcessTable(name: string, ext: string, parsed: Table, c: Controls, env: Foreign): (r: FileReport)
    requires WellFormed(parsed)
    ensures r.Processed? && r.name == name && WellFormed(r.table)
    ensures var sel := MultiselectReply(parsed.columns, c.picks);
            r.table.columns == (if sel == [] then parsed.columns else sel)
    ensures |r.table.rows| <= |parsed.rows|
    ensures r.deduplicated <==> c.clean && c.pressed == RemoveDuplicatesButton
    ensures r.deduplicated ==> r.table == DropDuplicateRows(Projected(parsed, c)) && r.fill == FillNotRequested
    ensures c.clean && c.pressed == FillMissingButton ==> (r.table, r.fill) == FillStep(Projected(parsed, c), env.mean)
    ensures !c.clean || c.pressed == NoButton || c.pressed == ConvertButton ==>
              r.table == Projected(parsed, c) && r.fill == FillNotRequested
    ensures r.chart == (if c.showChart then Visualize(r.table) else ChartHidden)
    ensures r.conversion == (if c.pressed == ConvertButton then Convert(name, ext, c.target, env.encode(c.target, r.table))
                             else NotRequested)
  {
    var projected := Projected(parsed, c);
    var dedup := c.clean && c.pressed == RemoveDuplicatesButton;
    var deduped := if dedup then DropDuplicateRows(projected) else projected;
    var (cleaned, fill) :=
      if c.clean && c.pressed == FillMissingButton then FillStep(deduped, env.mean) else (deduped, FillNotRequested);
    var chart := if c.showChart then Visualize(cleaned) else ChartHidden;
    var conversion :=
      if c.pressed == ConvertButton then Convert(name, ext, c.target, env.encode(c.target, cleaned)) else NotRequested;
    Processed(name, cleaned, dedup, fill, chart, conversion)
  }

  /**
   * The download never holds a cleaned table: the convert button starts a
   * run of its own, in which neither cleaning button is pressed, so the
   * encoder is given the projected table as read from the upload.
   */
  lemma DownloadIsNeverCleaned(name: string, ext: string, parsed: Table, c: Controls, env: Foreign)
    requires WellFormed(parsed)
    ensures var r := ProcessTable(name, ext, parsed, c, env);
            r.conversion != NotRequested ==>
              && !r.deduplicated && r.fill == FillNotRequested
              && r.conversion == Convert(name, ext, c.target, env.encode(c.target, Projected(parsed, c)))
  {
  }

  /** The file's extension names a format and the reader accepts its bytes. */
  predicate Readable(f: FileInput, env: Foreign) {
    var format := Detect(FileExt(f.upload.name));
    format.Some? && env.read(format.value, f.upload.content).Read?
  }

  /**
   * One turn of the loop body. The file is rejected when its extension is
   * neither `.csv` nor `.xlsx`, reported when the reader fails, and only
   * otherwise processed.
   */
  function ProcessFileSpec(f: FileInput, env: Foreign): (r: FileReport)
    requires ReaderWellFormed(env)
    ensures r.name == f.upload.name
    ensures r.UnsupportedType? <==> Detect(FileExt(f.upload.name)).None?
    ensures r.UnsupportedType? ==> r.ext == FileExt(f.upload.name)
    ensures r.ReadError? <==> (Detect(FileExt(f.upload.name)).Some? &&
                               env.read(Detect(FileExt(f.upload.name)).value, f.upload.content).ReadFailed?)
    ensures r.Processed? <==> Readable(f, env)
  {
    var name := f.upload.name;
    var ext := FileExt(name);
    match Detect(ext)
    case None => UnsupportedType(name, ext)
    case Some(format) =>
      match env.read(format, f.upload.content)
      case ReadFailed(cause) => ReadError(name, cause)
      case Read(parsed) => ProcessTable(name, ext, parsed, f.controls, env)
  }

  /** A readable file's report is the processing of the table the reader returned. */
  lemma ReadableIsProcessed(f: FileInput, env: Foreign)
    requires ReaderWellFormed(env)
    requires Readable(f, env)
    ensures var parsed := env.read(Detect(FileExt(f.upload.name)).value, f.upload.content).table;
            && WellFormed(parsed)
            && ProcessFileSpec(f, env) == ProcessTable(f.upload.name, FileExt(f.upload.name), parsed, f.controls, env)
  {
  }

  /**
   * The loop body as the script runs it: `df` is a frame that the cleaning
   * buttons change in place.
   */
  method ProcessFile(f: FileInput, env: Foreign) returns (report: FileReport)
    requires ReaderWellFormed(env)
    ensures report == ProcessFileSpec(f, env)
  {
    var name := f.upload.name;
    var ext := FileExt(name);
    var format := Detect(ext);
    if format.None? {
      return UnsupportedType(name, ext);
    }
    var result := env.read(format.value, f.upload.content);
    if result.ReadFailed? {
      return ReadError(name, result.cause);
    }
    var parsed := result.table;
    var c := f.controls;
    var df := new Frame(Project(parsed, MultiselectReply(parsed.columns, c.picks)));
    var fill := FillNotRequested;
    if c.clean {
      if c.pressed == RemoveDuplicatesButton {
        df.DropDuplicatesInPlace();
      }
      if c.pressed == FillMissingButton {
        NoNumericIndices(df.Contents());
        if |NumericIndices(df.numeric)| == 0 {
          FillWithoutNumericIsIdentity(df.Contents(), env.mean);
          fill := NoNumericColumns;
        } else {
          df.FillMissingInPlace(env.mean);
          fill := Filled;
        }
      }
    }
    var table := df.Contents();
    var chart := if c.showChart then Visualize(table) else ChartHidden;
    var conversion := NotRequested;
    if c.pressed == ConvertButton {
      conversion := Convert(name, ext, c.target, env.encode(c.target, table));
    }
    report := Processed(name, table, c.clean && c.pressed == RemoveDuplicatesButton, fill, chart, conversion);
  }

  /**
   * One run over the uploads: the reports of the files handled, in upload
   * order, and, when the run stopped early, the name that stopped it. The
   * widget labels of lines 42 and 47 are built from the file name, so a
   * second readable file with a name already shown raises Streamlit's
   * duplicate-widget error outside both `try` blocks, at the latest at the
   * clean checkbox of line 47; that ends the run,
   * no later file is handled, and the banner of line 100 is not shown.
   */
  datatype BatchRun = BatchRun(reports: seq<FileReport>, abortedAt: Option<string>)

  /**
   * The name under which a file's widgets are shown: its own name when it
   * is readable, nothing when it stopped before line 32.
   */
  function Shown(f: FileInput, env: Foreign): (n: Option<string>)
    ensures n.Some? <==> Readable(f, env)
    ensures n.Some? ==> n.value == f.upload.name
  {
    if Readable(f, env) then Some(f.upload.name) else None
  }

  function WidgetNames(files: seq<FileInput>, env: Foreign): (w: seq<Option<string>>)
    ensures |w| == |files|
    ensures forall i :: 0 <= i < |files| ==> w[i] == Shown(files[i], env)
  {
    Each(files, f => Shown(f, env))
  }

  /** Every file's report, each what that file alone produces. */
  function Reports(files: seq<FileInput>, env: Foreign): (rs: seq<FileReport>)
    requires ReaderWellFormed(env)
    ensures |rs| == |files|
    ensures forall i :: 0 <= i < |files| ==> rs[i] == ProcessFileSpec(files[i], env)
  {
    Each(files, f => ProcessFileSpec(f, env))
  }

  /**
   * The whole run of `for file in uploaded_files`: the reports of the files
   * up to the first that repeats a name already shown.
   */
  function Batch(files: seq<FileInput>, env: Foreign): (r: BatchRun)
    requires ReaderWellFormed(env)
    ensures |r.reports| <= |files|
    ensures r.reports == Reports(files, env)[..|r.reports|]
    ensures r.abortedAt.None? <==> |r.reports| == |files|
    ensures r.abortedAt.Some? ==>
              Readable(files[|r.reports|], env) && r.abortedAt.value == files[|r.reports|].upload.name
  {
    var k := StopAt(WidgetNames(files, env), []);
    BatchRun(Reports(files, env)[..k], if k == |files| then None else WidgetNames(files, env)[k])
  }

  /**
   * The banner "All files processed successfully!" of line 100 is shown
   * exactly when no two readable uploads share a name.
   */
  lemma BannerShownExactlyWhenNamesDistinct(files: seq<FileInput>, env: Foreign)
    requires ReaderWellFormed(env)
    ensures Batch(files, env).abortedAt.None? <==> Distinct(Names(WidgetNames(files, env)))
  {
    StopCompletes(WidgetNames(files, env), []);
    assert [] + Names(WidgetNames(files, env)) == Names(WidgetNames(files, env));
  }

  lemma WidgetNamesConcat(xs: seq<FileInput>, ys: seq<FileInput>, env: Foreign)
    ensures WidgetNames(xs + ys, env) == WidgetNames(xs, env) + WidgetNames(ys, env)
  {
    EachConcat(xs, ys, f => Shown(f, env));
  }

  /**
   * A file that is unsupported or unreadable neither stops the run nor
   * changes any other file's report: the run with it is the run without
   * it, with its own report in its place when the run gets that far.
   */
  lemma FailureIsolated(xs: seq<FileInput>, f: FileInput, ys: seq<FileInput>, env: Foreign)
    requires ReaderWellFormed(env)
    requires !Readable(f, env)
    ensures var with := Batch(xs + [f] + ys, env);
            var without := Batch(xs + ys, env);
            && with.abortedAt == without.abortedAt
            && (|without.reports| >= |xs| ==>
                  with.reports == without.reports[..|xs|] + [ProcessFileSpec(f, env)] + without.reports[|xs|..])
            && (|without.reports| < |xs| ==> with.reports == without.reports)
  {
    var files, files' := xs + [f] + ys, xs + ys;
    InsertUnshown(xs, f, ys, x => Shown(x, env));
    var k := StopAt(WidgetNames(files', env), []);
    EachInsert(xs, f, ys, x => ProcessFileSpec(x, env), k);
    var without := Batch(files', env);
    assert without.reports == Reports(files', env)[..k];
    if |xs| <= k < |files'| {
      EachInsertAt(xs, f, ys, x => Shown(x, env), k);
    }
  }

  /**
   * One turn of the batch loop, for a run that has handled `files[..i]`:
   * file `i` either stops the run, which then has exactly the reports so
   * far, or is handled and its name joins the names shown.
   */
  lemma BatchStep(files: seq<FileInput>, i: nat, env: Foreign, reports: seq<FileReport>, seen: seq<string>)
    requires ReaderWellFormed(env)
    requires i < |files|
    requires StopAt(WidgetNames(files, env)[..i], []) == i
    requires seen == Names(WidgetNames(files, env)[..i])
    requires reports == Reports(files, env)[..i]
    ensures var r := ProcessFileSpec(files[i], env);
            && (r.Processed? && r.name in seen ==> Batch(files, env) == BatchRun(reports, Some(r.name)))
            && (!(r.Processed? && r.name in seen) ==>
                  && StopAt(WidgetNames(files, env)[..i + 1], []) == i + 1
                  && Names(WidgetNames(files, env)[..i + 1]) == seen + (if r.Processed? then [r.name] else [])
                  && Reports(files, env)[..i + 1] == reports + [r])
  {
    var shown := WidgetNames(files, env);
    assert shown[i] == Shown(files[i], env);
    StopStep(shown, i);
    EachSnoc(files, f => ProcessFileSpec(f, env), i);
  }

  /**
   * `for file in uploaded_files`: every file gets its report, in order,
   * until a repeated readable name stops the run.
   */
  method ProcessAll(files: seq<FileInput>, env: Foreign) returns (run: BatchRun)
    requires ReaderWellFormed(env)
    ensures run == Batch(files, env)
  {
    ghost var shown := WidgetNames(files, env);
    var reports: seq<FileReport> := [];
    var seen: seq<string> := [];
    var i := 0;
    while i < |files|
      invariant 0 <= i <= |files|
      invariant StopAt(shown[..i], []) == i
      invariant seen == Names(shown[..i])
      invariant reports == Reports(files, env)[..i]
    {
      var report := ProcessFile(files[i], env);
      BatchStep(files, i, env, reports, seen);
      if report.Processed? && report.name in seen {
        return BatchRun(reports, Some(report.name));
      }
      if report.Processed? {
        seen := seen + [report.name];
      }
      reports := reports + [report];
      i := i + 1;
    }
    assert shown[..i] == shown;
    assert reports == Reports(files, env);
    run := BatchRun(reports, None);
  }

  /** The most severe message a file received: an error, a warning, or success only. */
  datatype Severity = Ok | Warning | Error

  /**
   * `st.error` for lines 26, 29 and 98, `st.warning` for lines 60 and 69,
   * `st.success` otherwise.
   */
  function SeverityOf(r: FileReport): (s: Severity)
    ensures s == Error <==> !r.Processed? || r.conversion.ConversionError?
    ensures s == Warning <==>
              r.Processed? && !r.conversion.ConversionError? &&
              (r.fill == NoNumericColumns || r.chart == NotEnoughNumeric)
  {
    match r
    case UnsupportedType(_, _) => Error
    case ReadError(_, _) => Error
    case Processed(_, _, _, fill, chart, conversion) =>
      if conversion.ConversionError? then Error
      else if fill == NoNumericColumns || chart == NotEnoughNumeric then Warning
      else Ok
  }

  /**
   * A file ends in an error exactly when its extension is unsupported, the
   * reader fails, or a requested conversion fails in the encoder.
   */
  lemma ErrorExactlyWhen(f: FileInput, env: Foreign)
    requires ReaderWellFormed(env)
    ensures var r := ProcessFileSpec(f, env);
            var format := Detect(FileExt(f.upload.name));
            SeverityOf(r) == Error <==>
              || format.None?
              || env.read(format.value, f.upload.content).ReadFailed?
              || (f.controls.pressed == ConvertButton && env.encode(f.controls.target, r.table).EncodeFailed?)
  {
  }

  /** The extension of `report.txt` is `.txt`, which is not supported. */
  lemma ReportTxtExtension()
    ensures FileExt("report.txt") == ".txt"
    ensures Detect(FileExt("report.txt")).None?
  {
    assert "report.txt" == "report" + ".txt";
    SimpleNameSplit("report", ".txt");
    assert Lower(".txt") == ".txt";
  }

  lemma TextFileIsUnsupported(content: seq<bv8>, c: Controls, env: Foreign)
    requires ReaderWellFormed(env)
    ensures var bad := FileInput(Upload("report.txt", content), c);
            !Readable(bad, env) && ProcessFileSpec(bad, env) == UnsupportedType("report.txt", ".txt")
  {
    ReportTxtExtension();
  }

  /** A run over a single upload handles it and ends normally. */
  lemma SingleFileRun(f: FileInput, env: Foreign)
    requires ReaderWellFormed(env)
    ensures Batch([f], env) == BatchRun([ProcessFileSpec(f, env)], None)
  {
    StopOne(Shown(f, env), []);
    assert WidgetNames([f], env) == [Shown(f, env)];
    assert Reports([f], env) == [ProcessFileSpec(f, env)];
  }

  /** A file that shows no widgets, then any other: the run handles both. */
  lemma RejectedThenOther(bad: FileInput, good: FileInput, env: Foreign)
    requires ReaderWellFormed(env)
    requires !Readable(bad, env)
    ensures Batch([bad, good], env) == BatchRun([ProcessFileSpec(bad, env), ProcessFileSpec(good, env)], None)
  {
    SingleFileRun(good, env);
    FailureIsolated([], bad, [good], env);
    assert [] + [bad] + [good] == [bad, good];
    assert [] + [good] == [good];
  }

  /** Scenario: `report.txt` is rejected and the next file is still processed. */
  lemma TextFileRejectedOthersContinue(good: FileInput, content: seq<bv8>, c: Controls, env: Foreign)
    requires ReaderWellFormed(env)
    ensures var bad := FileInput(Upload("report.txt", content), c);
            var run := Batch([bad, good], env);
            && run.abortedAt.None?
            && run.reports == [UnsupportedType("report.txt", ".txt"), ProcessFileSpec(good, env)]
  {
    var bad := FileInput(Upload("report.txt", content), c);
    TextFileIsUnsupported(content, c, env);
    RejectedThenOther(bad, good, env);
  }

  /**
   * Scenario: two readable uploads under one name, such as two files called
   * `a.csv`. The first is processed; the second stops the run, so nothing
   * after it is handled.
   */
  lemma RepeatedNameStopsRun(first: FileInput, second: FileInput, later: seq<FileInput>, env: Foreign)
    requires ReaderWellFormed(env)
    requires first.upload.name == second.upload.name
    requires Readable(first, env) && Readable(second, env)
    ensures var run := Batch([first, second] + later, env);
            && run.abortedAt == Some(first.upload.name)
            && run.reports == [ProcessFileSpec(first, env)]
  {
    var files := [first, second] + later;
    assert files[0] == first && files[1] == second;
    StopAtRepeat(WidgetNames(files, env));
  }
}
