/**
 * Output naming and MIME type of the conversion step (app.py lines 75-98).
 */
module Conversion {
  import opened FileNames

  /**
   * Python's `str.replace(pat, rep)`: every non-overlapping occurrence of
   * `pat`, scanning left to right, becomes `rep`; an empty `pat` puts `rep`
   * before every character and at the end.
   */
  function ReplaceAll(s: string, pat: string, rep: string): (r: string)
    decreases |s|
  {
    if pat == [] then
      if s == [] then rep else rep + [s[0]] + ReplaceAll(s[1..], pat, rep)
    else if |s| < |pat| then s
    else if s[..|pat|] == pat then rep + ReplaceAll(s[|pat|..], pat, rep)
    else [s[0]] + ReplaceAll(s[1..], pat, rep)
  }

  /** `pat` occurs in `s` starting at position `i`. */
  predicate OccursAt(s: string, pat: string, i: int) {
    0 <= i && i + |pat| <= |s| && s[i..i + |pat|] == pat
  }

  lemma OccursAtTail(s: string, pat: string, i: nat)
    requires s != []
    requires OccursAt(s[1..], pat, i)
    ensures OccursAt(s, pat, i + 1)
  {
    assert s[1..][i..i + |pat|] == s[i + 1..i + 1 + |pat|];
  }

  /** A text in which the pattern does not occur comes out unchanged. */
  lemma {:induction false} ReplaceAbsent(s: string, pat: string, rep: string)
    requires pat != []
    requires forall i :: !OccursAt(s, pat, i)
    ensures ReplaceAll(s, pat, rep) == s
    decreases |s|
  {
    if |s| >= |pat| {
      assert !OccursAt(s, pat, 0);
      forall i ensures !OccursAt(s[1..], pat, i) {
        if i >= 0 && OccursAt(s[1..], pat, i) {
          OccursAtTail(s, pat, i);
        }
      }
      ReplaceAbsent(s[1..], pat, rep);
      assert s == [s[0]] + s[1..];
    }
  }

  /** Replacing a pattern by itself changes nothing. */
  lemma {:induction false} ReplaceBySelf(s: string, pat: string)
    ensures ReplaceAll(s, pat, pat) == s
    decreases |s|
  {
    if pat == [] {
      if s != [] {
        ReplaceBySelf(s[1..], pat);
        assert s == [s[0]] + s[1..];
      }
    } else if |s| >= |pat| {
      if s[..|pat|] == pat {
        ReplaceBySelf(s[|pat|..], pat);
        assert s == s[..|pat|] + s[|pat|..];
      } else {
        ReplaceBySelf(s[1..], pat);
        assert s == [s[0]] + s[1..];
      }
    }
  }

  /** An occurrence at the start is replaced and the scan resumes after it. */
  lemma ReplaceAtStart(pat: string, rep: string, rest: string)
    requires pat != []
    ensures ReplaceAll(pat + rest, pat, rep) == rep + ReplaceAll(rest, pat, rep)
  {
    var s := pat + rest;
    assert s[..|pat|] == pat && s[|pat|..] == rest;
  }

  /** Without an occurrence at the start, the first character is kept. */
  lemma ReplaceKeepsFirst(s: string, pat: string, rep: string)
    requires pat != [] && s != []
    requires !OccursAt(s, pat, 0)
    ensures ReplaceAll(s, pat, rep) == [s[0]] + ReplaceAll(s[1..], pat, rep)
  {
  }

  /**
   * The first occurrence is replaced and the scan resumes after it: when no
   * occurrence starts inside `pre`, `pre + pat + rest` becomes
   * `pre + rep` followed by the replacement of `rest`.
   */
  lemma {:induction false} ReplaceFirst(pre: string, pat: string, rep: string, rest: string)
    requires pat != []
    requires forall i :: 0 <= i < |pre| ==> !OccursAt(pre + pat + rest, pat, i)
    ensures ReplaceAll(pre + pat + rest, pat, rep) == pre + rep + ReplaceAll(rest, pat, rep)
    decreases |pre|
  {
    if pre == [] {
      assert pre + pat + rest == pat + rest;
      ReplaceAtStart(pat, rep, rest);
    } else {
      var s := pre + pat + rest;
      var tail := pre[1..] + pat + rest;
      assert s[1..] == tail;
      ReplaceKeepsFirst(s, pat, rep);
      forall i | 0 <= i < |pre| - 1
        ensures !OccursAt(tail, pat, i)
      {
        if OccursAt(tail, pat, i) {
          OccursAtTail(s, pat, i);
        }
      }
      ReplaceFirst(pre[1..], pat, rep, rest);
      assert pre == [pre[0]] + pre[1..];
    }
  }

  /** `file.name.replace(file_ext, ".csv")` or `".xlsx"` (lines 80 and 85). */
  function OutputName(name: string, ext: string, target: Format): (n: string)
  {
    ReplaceAll(name, ext, Extension(target))
  }

  const ExcelMime := "application/vnd.openxmlformats-officedocument.spreadsheetml.sheet"

  /** The MIME type paired with each target format (lines 81 and 86). */
  function MimeType(target: Format): (m: string)
    ensures m == "text/csv" <==> target == Csv
    ensures m == ExcelMime <==> target == Excel
  {
    match target
    case Csv => "text/csv"
    case Excel => ExcelMime
  }

  /**
   * The ordinary case: a name whose own extension is already lower case and
   * whose stem does not contain it gets the target extension in its place.
   */
  lemma OrdinaryNameGetsTargetExtension(name: string, target: Format)
    requires SplitExt(name).1 != [] && FileExt(name) == SplitExt(name).1
    requires forall i :: 0 <= i < |SplitExt(name).0| ==> !OccursAt(name, FileExt(name), i)
    ensures OutputName(name, FileExt(name), target) == SplitExt(name).0 + Extension(target)
  {
    var (stem, ext) := SplitExt(name);
    assert name == stem + ext + [];
    ReplaceFirst(stem, ext, Extension(target), []);
  }

  /** Converting to the format the file already has keeps its name. */
  lemma SameFormatKeepsName(name: string, target: Format)
    ensures OutputName(name, Extension(target), target) == name
  {
    ReplaceBySelf(name, Extension(target));
  }

  /**
   * The replacement is case-sensitive: when the lower-cased extension does
   * not occur in the name, the name comes out unchanged.
   */
  lemma NameWithoutLowerExtensionIsKept(name: string, target: Format)
    requires FileExt(name) != []
    requires forall i :: !OccursAt(name, FileExt(name), i)
    ensures OutputName(name, FileExt(name), target) == name
  {
    ReplaceAbsent(name, FileExt(name), Extension(target));
  }

  lemma ReportCsvExtension()
    ensures FileExt("Report.CSV") == ".csv"
  {
    assert "Report.CSV" == "Report" + ".CSV";
    SimpleNameSplit("Report", ".CSV");
    assert Lower(".CSV") == ".csv";
  }

  /** A pattern cannot occur where one of its characters is missing. */
  lemma AbsentWithoutItsCharacter(s: string, pat: string, k: nat)
    requires k < |pat|
    requires forall m :: 0 <= m < |s| ==> s[m] != pat[k]
    ensures forall i :: !OccursAt(s, pat, i)
  {
    forall i
      ensures !OccursAt(s, pat, i)
    {
      if 0 <= i && i + |pat| <= |s| {
        assert s[i..i + |pat|][k] == s[i + k] != pat[k];
      }
    }
  }

  lemma ReportCsvHasNoLowerCsv()
    ensures forall i :: !OccursAt("Report.CSV", ".csv", i)
  {
    AbsentWithoutItsCharacter("Report.CSV", ".csv", 1);
  }

  /** `Report.CSV` converted to Excel is still called `Report.CSV`. */
  lemma UpperCaseExtensionIsNotReplaced()
    ensures FileExt("Report.CSV") == ".csv"
    ensures OutputName("Report.CSV", FileExt("Report.CSV"), Excel) == "Report.CSV"
  {
    ReportCsvExtension();
    ReportCsvHasNoLowerCsv();
    NameWithoutLowerExtensionIsKept("Report.CSV", Excel);
  }

  lemma TailOfTwoCsv()
    ensures ReplaceAll(".b.csv", ".csv", ".xlsx") == ".b.xlsx"
  {
    assert ".b.csv" == ".b" + ".csv" + "";
    assert ".b.csv"[0..4][1] == 'b' && ".b.csv"[1..5][0] == 'b';
    ReplaceFirst(".b", ".csv", ".xlsx", "");
    assert ".b" + ".xlsx" + "" == ".b.xlsx";
  }

  lemma HeadOfTwoCsv()
    ensures ReplaceAll("a.csv.b.csv", ".csv", ".xlsx") == "a.xlsx" + ReplaceAll(".b.csv", ".csv", ".xlsx")
  {
    assert "a.csv.b.csv" == "a" + ".csv" + ".b.csv";
    assert "a.csv.b.csv"[0..4][0] == 'a';
    ReplaceFirst("a", ".csv", ".xlsx", ".b.csv");
    assert "a" + ".xlsx" == "a.xlsx";
  }

  /** Every occurrence is replaced, not only the extension: `a.csv.b.csv`. */
  lemma EveryOccurrenceIsReplaced()
    ensures OutputName("a.csv.b.csv", ".csv", Excel) == "a.xlsx.b.xlsx"
  {
    HeadOfTwoCsv();
    TailOfTwoCsv();
    assert "a.xlsx" + ".b.xlsx" == "a.xlsx.b.xlsx";
  }

  /** What the conversion step produced. */
  datatype ConversionOutcome =
    | NotRequested
    | Converted(fileName: string, mime: string, bytes: seq<bv8>)
    | ConversionError(cause: string)

  /** The foreign encoder's answer: `to_csv` / `to_excel` into the buffer. */
  datatype EncodeResult = Encoded(bytes: seq<bv8>) | EncodeFailed(cause: string)

  /**
   * The `try` of lines 77-98: an encoder failure becomes an error for this
   * file; otherwise the buffer is offered under the derived name and type.
   */
  function Convert(name: string, ext: string, target: Format, encoded: EncodeResult): (r: ConversionOutcome)
    ensures r.ConversionError? <==> encoded.EncodeFailed?
    ensures r.Converted? ==> r.fileName == OutputName(name, ext, target) && r.mime == MimeType(target)
                             && r.bytes == encoded.bytes
    ensures r != NotRequested
  {
    match encoded
    case Encoded(bytes) => Converted(OutputName(name, ext, target), MimeType(target), bytes)
    case EncodeFailed(cause) => ConversionError(cause)
  }
}
