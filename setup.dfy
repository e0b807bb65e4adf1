/** The logic of the packaging script: `get_version`, which finds the
    package version in the text of the version file, and the `py_modules`
    list, which turns the top-level source paths into module names. Reading
    files and globbing the source directory are left to the caller: the text
    and the path list are parameters. */
module Setup {
  import opened PyStr
  import opened PosixPath

  /** The prefix that marks the line holding the version. */
  const VersionMarker := "__version__"

  /** The message of the error raised when no line holds the version. */
  const NotFoundMessage := "Unable to find version string."

  /** The exceptions `get_version` can raise. */
  datatype Error =
    | RuntimeError(message: string)
      // a version line with no quote: indexing the one field it splits into
    | IndexError

  datatype Result = Ok(version: string) | Err(error: Error)

  /** A line is the version line when it starts with the marker, with nothing
      before it, not even white space. */
  predicate IsVersionLine(line: string)
    ensures IsVersionLine(line) <==> |line| >= 11 && line[..11] == "__version__"
  {
    StartsWith(line, VersionMarker)
  }

  /** The quote that delimits the version: a double quote whenever the line
      holds one anywhere, a single quote otherwise. */
  function Delimiter(line: string): (d: char)
    ensures d == '"' || d == '\''
    ensures d == '"' <==> '"' in line
  {
    if '"' in line then '"' else '\''
  }

  /** What `get_version` makes of the version line: the second field of the
      line split at the delimiter. When the line holds no quote at all it
      splits into one field, and taking the second one fails. */
  function ExtractVersion(line: string): (r: Result)
    ensures r == Err(IndexError) <==> '"' !in line && '\'' !in line
    ensures r.Ok? ==> Delimiter(line) !in r.version
    ensures !r.Err? || r.error == IndexError
  {
    var fields := Split(line, Delimiter(line));
    SplitCount(line, Delimiter(line));
    if |fields| < 2 then Err(IndexError) else Ok(fields[1])
  }

  /** The outcome of scanning `lines` in order: the first version line alone
      decides it, and when there is none the scan fails with the not-found
      error. */
  function FindVersion(lines: seq<string>): (r: Result)
    ensures r == Err(RuntimeError(NotFoundMessage))
            <==> forall k :: 0 <= k < |lines| ==> !IsVersionLine(lines[k])
  {
    if |lines| == 0 then Err(RuntimeError(NotFoundMessage))
    else if IsVersionLine(lines[0]) then ExtractVersion(lines[0])
    else
      var r := FindVersion(lines[1..]);
      assert forall k :: 0 < k < |lines| ==> lines[k] == lines[1..][k - 1];
      r
  }

  /** `get_version`, given the text of the version file: the lines are
      examined in order, and the first version line ends the scan. */
  method GetVersion(text: string) returns (r: Result)
    ensures r == FindVersion(SplitLines(text))
  {
    var lines := SplitLines(text);
    var i := 0;
    while i < |lines|
      invariant i <= |lines|
      invariant FindVersion(lines[i..]) == FindVersion(lines)
    {
      if StartsWith(lines[i], VersionMarker) {
        var delim := if '"' in lines[i] then '"' else '\'';
        var fields := Split(lines[i], delim);
        if |fields| < 2 {
          return Err(IndexError);
        }
        return Ok(fields[1]);
      }
      assert lines[i..][1..] == lines[i + 1..];
      i := i + 1;
    }
    return Err(RuntimeError(NotFoundMessage));
  }

  /** The first version line decides the outcome, whatever the lines after it
      hold. */
  lemma {:induction false} FirstVersionLineDecides(lines: seq<string>, i: nat)
    requires i < |lines| && IsVersionLine(lines[i])
    requires forall k :: 0 <= k < i ==> !IsVersionLine(lines[k])
    ensures FindVersion(lines) == ExtractVersion(lines[i])
  {
    if i > 0 {
      assert forall k :: 0 <= k < i - 1 ==> lines[1..][k] == lines[k + 1];
      FirstVersionLineDecides(lines[1..], i - 1);
    }
  }

  /** Lines after a version line are never looked at. */
  lemma {:induction false} LaterLinesIgnored(lines: seq<string>, more: seq<string>)
    requires exists k :: 0 <= k < |lines| && IsVersionLine(lines[k])
    ensures FindVersion(lines + more) == FindVersion(lines)
  {
    var k :| 0 <= k < |lines| && IsVersionLine(lines[k]);
    if !IsVersionLine(lines[0]) {
      assert (lines + more)[1..] == lines[1..] + more;
      assert lines[1..][k - 1] == lines[k];
      LaterLinesIgnored(lines[1..], more);
    }
  }

  /** A line with anything before the marker, white space included, is
      skipped. */
  lemma LeadingTextSkipped(prefix: string, line: string, rest: seq<string>)
    requires |prefix| > 0 && prefix[0] != '_'
    ensures FindVersion([prefix + line] + rest) == FindVersion(rest)
  {
    assert (prefix + line)[0] != VersionMarker[0];
    assert ([prefix + line] + rest)[1..] == rest;
  }

  /** A version line without any quote ends the scan with the index error,
      even when a later line would have given a version. */
  lemma UnquotedVersionLineFails(before: seq<string>, line: string, after: seq<string>)
    requires forall k :: 0 <= k < |before| ==> !IsVersionLine(before[k])
    requires IsVersionLine(line) && '"' !in line && '\'' !in line
    ensures FindVersion(before + [line] + after) == Err(IndexError)
  {
    var lines := before + [line] + after;
    assert lines[|before|] == line;
    assert forall k :: 0 <= k < |before| ==> lines[k] == before[k];
    FirstVersionLineDecides(lines, |before|);
  }

  /** The version is the text between the first delimiter on the line and the
      next one, or the end of the line when there is no second delimiter. */
  lemma VersionBetweenDelimiters(line: string, i: nat, j: nat)
    requires i < j <= |line|
    requires line[i] == Delimiter(line) && Delimiter(line) !in line[..i]
    requires Delimiter(line) !in line[i + 1..j]
    requires j < |line| ==> line[j] == Delimiter(line)
    ensures ExtractVersion(line) == Ok(line[i + 1..j])
  {
    SecondField(line, Delimiter(line), i, j);
  }

  /** The text a quoted value is written after on a version line. */
  const Assignment := VersionMarker + " = "

  /** A value between two quotes that are the first two on the line. */
  lemma QuotedValue(head: string, q: char, x: string, tail: string)
    requires q !in head && q !in x
    ensures var line := head + [q] + x + [q] + tail;
      line[|head|] == q && line[..|head|] == head
      && line[|head| + 1..|head| + 1 + |x|] == x && line[|head| + 1 + |x|] == q
  {
  }

  /** A line `__version__ = "X"` gives back X, for any X without a double
      quote, whatever follows the closing quote. */
  lemma DoubleQuotedRoundTrip(x: string, tail: string)
    requires '"' !in x
    ensures ExtractVersion(Assignment + "\"" + x + "\"" + tail) == Ok(x)
  {
    var line := Assignment + "\"" + x + "\"" + tail;
    assert '"' !in Assignment;
    QuotedValue(Assignment, '"', x, tail);
    assert Delimiter(line) == '"';
    VersionBetweenDelimiters(line, |Assignment|, |Assignment| + 1 + |x|);
  }

  /** A line `__version__ = 'X'` gives back X, for any X and any tail that hold
      neither kind of quote. */
  lemma SingleQuotedRoundTrip(x: string, tail: string)
    requires '"' !in x && '\'' !in x && '"' !in tail
    ensures ExtractVersion(Assignment + "'" + x + "'" + tail) == Ok(x)
  {
    var line := Assignment + "'" + x + "'" + tail;
    assert '"' !in Assignment && '\'' !in Assignment;
    QuotedValue(Assignment, '\'', x, tail);
    assert '"' !in line;
    VersionBetweenDelimiters(line, |Assignment|, |Assignment| + 1 + |x|);
  }

  /** A double quote anywhere on the line makes it the delimiter, even after
      a single-quoted value: `__version__ = 'X' # "Y"` gives Y up to the next
      double quote. */
  lemma DoubleQuoteAnywhereWins(x: string, a: string, y: string, b: string)
    requires '"' !in x && '"' !in a && '"' !in y
    ensures ExtractVersion(Assignment + "'" + x + "'" + a + "\"" + y + "\"" + b) == Ok(y)
  {
    var head := Assignment + "'" + x + "'" + a;
    var line := Assignment + "'" + x + "'" + a + "\"" + y + "\"" + b;
    assert '"' !in Assignment;
    assert '"' !in head;
    assert line == head + ['"'] + y + ['"'] + b;
    QuotedValue(head, '"', y, b);
    assert Delimiter(line) == '"';
    VersionBetweenDelimiters(line, |head|, |head| + 1 + |y|);
  }

  /** A line `__version__ = "X"...` is a version line. */
  lemma AssignmentIsVersionLine(x: string, tail: string)
    ensures IsVersionLine(Assignment + "\"" + x + "\"" + tail)
  {
    var line := Assignment + "\"" + x + "\"" + tail;
    assert line[..|VersionMarker|] == VersionMarker;
  }

  /** In a file of lines separated by `\n`, with or without a newline after
      the last one, the first version line decides what `get_version` finds. */
  lemma FirstVersionLineOfFile(lines: seq<string>, finalNewline: bool, i: nat)
    requires forall k :: 0 <= k < |lines| ==> NoLineBoundary(lines[k])
    requires i < |lines| && IsVersionLine(lines[i])
    requires !finalNewline ==> lines[|lines| - 1] != ""
    requires forall k :: 0 <= k < i ==> !IsVersionLine(lines[k])
    ensures FindVersion(SplitLines(LinesText(lines, finalNewline))) == ExtractVersion(lines[i])
  {
    SplitLinesOfText(lines, finalNewline);
    FirstVersionLineDecides(lines, i);
  }

  /** A version file whose first version line is `__version__ = "X"` yields
      X from `get_version`, whether or not the file ends with a newline. */
  lemma VersionFileRoundTrip(lines: seq<string>, finalNewline: bool, i: nat, x: string, tail: string)
    requires forall k :: 0 <= k < |lines| ==> NoLineBoundary(lines[k])
    requires i < |lines| && lines[i] == Assignment + "\"" + x + "\"" + tail
    requires !finalNewline ==> lines[|lines| - 1] != ""
    requires forall k :: 0 <= k < i ==> !IsVersionLine(lines[k])
    requires '"' !in x
    ensures FindVersion(SplitLines(LinesText(lines, finalNewline))) == Ok(x)
  {
    AssignmentIsVersionLine(x, tail);
    FirstVersionLineOfFile(lines, finalNewline, i);
    DoubleQuotedRoundTrip(x, tail);
  }

  /** A version file holding only `__version__ = "X"`, without a final
      newline, yields X. */
  lemma VersionOnlyFile(x: string)
    requires '"' !in x && NoLineBoundary(x)
    ensures FindVersion(SplitLines(Assignment + "\"" + x + "\"")) == Ok(x)
  {
    var line := Assignment + "\"" + x + "\"";
    forall k | 0 <= k < |line|
      ensures !IsLineBoundary(line[k])
    {
      if |Assignment| < k < |line| - 1 {
        assert line[k] == x[k - |Assignment| - 1];
      }
    }
    SplitLinesLast(line);
    AssignmentIsVersionLine(x, "");
    assert line == Assignment + "\"" + x + "\"" + "";
    DoubleQuotedRoundTrip(x, "");
  }

  /** The name `py_modules` lists for one source path: the basename with its
      last extension removed. Its contract bounds the result; the lemma
      `ModuleNameOfSourceFile` below states what it is for a path
      `dir/stem.ext`. */
  function ModuleName(path: string): (r: string)
    ensures '/' !in r
    ensures r <= Basename(path)
    ensures Basename(path) != "" ==> r != ""
  {
    var name := Basename(path);
    var r := SplitExt(name).0;
    SplitExtKeepsName(name);
    r
  }

  /** `py_modules`: one module name per source path, in the order of the
      paths. */
  function ModuleNames(paths: seq<string>): (r: seq<string>)
    ensures |r| == |paths|
    ensures forall k :: 0 <= k < |r| ==> r[k] == ModuleName(paths[k])
  {
    seq(|paths|, k requires 0 <= k < |paths| => ModuleName(paths[k]))
  }

  /** A source file `dir/stem.ext` gives the module name `stem`. */
  lemma ModuleNameOfSourceFile(dir: string, stem: string, ext: string)
    requires '/' !in stem && '/' !in ext && '.' !in ext
    requires !AllDots(stem)
    ensures ModuleName(dir + "/" + stem + "." + ext) == stem
  {
    assert dir + "/" + stem + "." + ext == dir + "/" + (stem + "." + ext);
    BasenameAfterSlash(dir, stem + "." + ext);
    SplitExtOfName(stem, ext);
  }

  /** Python files `src/<stem>.py` give back their stems, in order. */
  lemma {:induction false} ModuleNamesOfSources(stems: seq<string>)
    requires forall k :: 0 <= k < |stems| ==> '/' !in stems[k] && !AllDots(stems[k])
    ensures ModuleNames(seq(|stems|, k requires 0 <= k < |stems| => "src/" + stems[k] + ".py")) == stems
  {
    var paths := seq(|stems|, k requires 0 <= k < |stems| => "src/" + stems[k] + ".py");
    forall k | 0 <= k < |stems|
      ensures ModuleName(paths[k]) == stems[k]
    {
      assert paths[k] == "src" + "/" + stems[k] + "." + "py";
      ModuleNameOfSourceFile("src", stems[k], "py");
    }
  }

  /** `src/foo.py` is listed as the module `foo`. */
  lemma ModuleNameExample()
    ensures ModuleName("src/foo.py") == "foo"
  {
    assert !AllDots("foo") by { assert "foo"[0] != '.'; }
    assert "src/foo.py" == "src" + "/" + "foo" + "." + "py";
    ModuleNameOfSourceFile("src", "foo", "py");
  }
}
