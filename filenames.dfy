/**
 * Extension detection and dispatch (app.py lines 17-27):
 * `os.path.splitext(file.name)[-1].lower()`, then `.csv` or `.xlsx`.
 */
module FileNames {
  import opened Wrappers

  /** The index of the last `c` in `s`, or -1 (Python's `str.rfind`). */
  function LastIndexOf(s: string, c: char): (r: int)
    ensures -1 <= r < |s|
    ensures r >= 0 ==> s[r] == c
    ensures forall i :: r < i < |s| ==> s[i] != c
    decreases |s|
  {
    if |s| == 0 then -1
    else if s[|s| - 1] == c then |s| - 1
    else LastIndexOf(s[..|s| - 1], c)
  }

  /** `p[lo..hi]` consists of dots only (the loop over `filenameIndex` in `splitext`). */
  predicate OnlyDots(p: string, lo: int, hi: int)
    requires 0 <= lo && hi <= |p|
    decreases hi - lo
  {
    lo >= hi || (p[lo] == '.' && OnlyDots(p, lo + 1, hi))
  }

  lemma {:induction false} OnlyDotsMeans(p: string, lo: int, hi: int)
    requires 0 <= lo && hi <= |p|
    ensures OnlyDots(p, lo, hi) <==> forall m :: lo <= m < hi ==> p[m] == '.'
    decreases hi - lo
  {
    if lo < hi {
      OnlyDotsMeans(p, lo + 1, hi);
    }
  }

  /**
   * POSIX `os.path.splitext`: split at the last dot of the last path
   * component, unless everything before that dot in the component is dots
   * (then there is no extension).
   */
  function SplitExt(p: string): (r: (string, string))
    ensures r.0 + r.1 == p
    ensures r.1 != [] ==> r.1[0] == '.'
  {
    var sep := LastIndexOf(p, '/');
    var dot := LastIndexOf(p, '.');
    if dot > sep && !OnlyDots(p, sep + 1, dot) then (p[..dot], p[dot..]) else (p, [])
  }

  /**
   * An independent description of where an extension starts: at a dot with
   * neither a dot nor a slash after it, preceded in the same path component
   * by some character other than a dot.
   */
  ghost predicate ExtensionStartsAt(p: string, k: int) {
    && 0 <= k < |p| && p[k] == '.'
    && (forall i :: k < i < |p| ==> p[i] != '.' && p[i] != '/')
    && (exists j :: 0 <= j < k && p[j] != '.' && forall m :: j <= m < k ==> p[m] != '/')
  }

  lemma SplitExtCharacterized(p: string)
    ensures SplitExt(p).1 != [] <==> exists k :: ExtensionStartsAt(p, k)
    ensures forall k :: ExtensionStartsAt(p, k) ==> SplitExt(p) == (p[..k], p[k..])
  {
    var sep := LastIndexOf(p, '/');
    var dot := LastIndexOf(p, '.');
    forall k | ExtensionStartsAt(p, k)
      ensures SplitExt(p) == (p[..k], p[k..])
    {
      assert dot == k;
      var j :| 0 <= j < k && p[j] != '.' && forall m :: j <= m < k ==> p[m] != '/';
      assert sep < j;
      OnlyDotsMeans(p, sep + 1, dot);
    }
    if SplitExt(p).1 != [] {
      OnlyDotsMeans(p, sep + 1, dot);
      var j :| sep + 1 <= j < dot && p[j] != '.';
      assert ExtensionStartsAt(p, dot);
    }
  }

  /** A name without any dot has no extension. */
  lemma NoDotNoExtension(p: string)
    requires '.' !in p
    ensures SplitExt(p) == (p, [])
  {
    var dot := LastIndexOf(p, '.');
    assert dot == -1;
  }

  /** A sole leading dot is not an extension: `.csv` has none. */
  lemma LeadingDotIsNotExtension()
    ensures SplitExt(".csv") == (".csv", [])
  {
    var p := ".csv";
    SplitExtCharacterized(p);
  }

  /**
   * A name made of a stem without slashes that does not start with a dot,
   * and an extension that is a dot followed by neither dots nor slashes,
   * splits between the two.
   */
  lemma SimpleNameSplit(stem: string, ext: string)
    requires stem != [] && stem[0] != '.' && forall i :: 0 <= i < |stem| ==> stem[i] != '/'
    requires ext != [] && ext[0] == '.' && forall i :: 1 <= i < |ext| ==> ext[i] != '.' && ext[i] != '/'
    ensures SplitExt(stem + ext) == (stem, ext)
  {
    var p := stem + ext;
    assert p[..|stem|] == stem && p[|stem|..] == ext;
    forall i | |stem| < i < |p| ensures p[i] != '.' && p[i] != '/' {
      assert p[i] == ext[i - |stem|];
    }
    forall m | 0 <= m < |stem| ensures p[m] != '/' {
      assert p[m] == stem[m];
    }
    assert p[0] == stem[0];
    assert ExtensionStartsAt(p, |stem|);
    SplitExtCharacterized(p);
  }

  /** `str.lower()` on ASCII letters. */
  function LowerChar(c: char): (d: char)
    ensures !('A' <= d <= 'Z')
    ensures 'A' <= c <= 'Z' ==> d as int == c as int + 32
    ensures !('A' <= c <= 'Z') ==> d == c
  {
    if 'A' <= c <= 'Z' then (c as int + 32) as char else c
  }

  function Lower(s: string): (r: string)
    ensures |r| == |s|
    ensures forall i :: 0 <= i < |s| ==> r[i] == LowerChar(s[i])
  {
    seq(|s|, i requires 0 <= i < |s| => LowerChar(s[i]))
  }

  /** `os.path.splitext(file.name)[-1].lower()` (line 17). */
  function FileExt(name: string): (e: string)
    ensures e == [] || e[0] == '.'
    ensures |e| <= |name|
    ensures forall i :: 0 <= i < |e| ==> !('A' <= e[i] <= 'Z')
  {
    Lower(SplitExt(name).1)
  }

  /** The two tabular formats the script reads and writes. */
  datatype Format = Csv | Excel

  function Extension(f: Format): (e: string)
    ensures |e| > 1 && e[0] == '.'
    ensures e == ".csv" <==> f == Csv
    ensures e == ".xlsx" <==> f == Excel
  {
    match f
    case Csv => ".csv"
    case Excel => ".xlsx"
  }

  /** The dispatch of lines 21-27: `.csv`, `.xlsx`, or unsupported. */
  function Detect(ext: string): (r: Option<Format>)
    ensures forall f :: r == Some(f) <==> ext == Extension(f)
    ensures r == None <==> ext != ".csv" && ext != ".xlsx"
  {
    if ext == ".csv" then Some(Csv)
    else if ext == ".xlsx" then Some(Excel)
    else None
  }

  lemma LastIndexOfSamePositions(a: string, b: string, c: char)
    requires |a| == |b|
    requires forall i :: 0 <= i < |a| ==> (a[i] == c <==> b[i] == c)
    ensures LastIndexOf(a, c) == LastIndexOf(b, c)
  {
  }

  /** Lower-casing keeps every dot and every slash, and makes no new ones. */
  lemma LowerKeepsSeparators(a: string, b: string)
    requires Lower(a) == Lower(b)
    ensures |a| == |b|
    ensures forall i :: 0 <= i < |a| ==> (a[i] == '.' <==> b[i] == '.') && (a[i] == '/' <==> b[i] == '/')
  {
    assert |a| == |Lower(a)| == |b|;
    forall i | 0 <= i < |a|
      ensures (a[i] == '.' <==> b[i] == '.') && (a[i] == '/' <==> b[i] == '/')
    {
      assert LowerChar(a[i]) == Lower(a)[i] == Lower(b)[i] == LowerChar(b[i]);
    }
  }

  lemma LowerOfSuffix(a: string, b: string, k: nat)
    requires Lower(a) == Lower(b) && k <= |a|
    ensures Lower(a[k..]) == Lower(b[k..])
  {
    assert |a| == |Lower(a)| == |b|;
    forall i | 0 <= i < |a| - k
      ensures Lower(a[k..])[i] == Lower(b[k..])[i]
    {
      assert Lower(a)[k + i] == Lower(b)[k + i];
    }
  }

  /** Where the extension starts depends only on where the dots and slashes are. */
  lemma SplitExtSamePositions(a: string, b: string)
    requires |a| == |b|
    requires forall i :: 0 <= i < |a| ==> (a[i] == '.' <==> b[i] == '.') && (a[i] == '/' <==> b[i] == '/')
    ensures |SplitExt(a).1| == |SplitExt(b).1|
  {
    LastIndexOfSamePositions(a, b, '.');
    LastIndexOfSamePositions(a, b, '/');
    var sep := LastIndexOf(a, '/');
    var dot := LastIndexOf(a, '.');
    if dot > sep {
      OnlyDotsMeans(a, sep + 1, dot);
      OnlyDotsMeans(b, sep + 1, dot);
    }
  }

  /**
   * Detection ignores case: two names that lower-case alike have the same
   * extension, so `DATA.CSV` is read as CSV just like `data.csv`.
   */
  lemma FileExtIgnoresCase(a: string, b: string)
    requires Lower(a) == Lower(b)
    ensures FileExt(a) == FileExt(b)
  {
    LowerKeepsSeparators(a, b);
    SplitExtSamePositions(a, b);
    var k := |a| - |SplitExt(a).1|;
    assert SplitExt(a).1 == a[k..];
    assert SplitExt(b).1 == b[k..];
    LowerOfSuffix(a, b, k);
  }

  /** `DATA.CSV` is treated as a CSV file. */
  lemma UpperCaseCsvIsCsv()
    ensures FileExt("DATA.CSV") == ".csv"
    ensures Detect(FileExt("DATA.CSV")) == Some(Csv)
  {
    assert "DATA.CSV" == "DATA" + ".CSV";
    SimpleNameSplit("DATA", ".CSV");
    assert Lower(".CSV") == ".csv";
  }

  /** A file called `.csv` has no extension and is rejected. */
  lemma LeadingDotCsvIsUnsupported()
    ensures FileExt(".csv") == []
    ensures Detect(FileExt(".csv")) == None
  {
    LeadingDotIsNotExtension();
  }
}
