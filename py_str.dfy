/** The Python `str` operations that setup.py relies on, as functions on
    `seq<char>`: `startswith`, `in` for one character, `index`, `split` with a
    one-character separator, `join` and `splitlines` (without `keepends`). */
module PyStr {

  /** `s.startswith(prefix)`: the first `|prefix|` characters of `s` are
      `prefix`. */
  predicate StartsWith(s: string, prefix: string)
    ensures StartsWith(s, prefix) <==> |prefix| <= |s| && s[..|prefix|] == prefix
  {
    prefix <= s
  }

  /** `s.index(c)`: the position of the first occurrence of `c`. */
  function IndexOf(s: string, c: char): (r: nat)
    requires c in s
    ensures r < |s| && s[r] == c
    ensures c !in s[..r]
  {
    if s[0] == c then 0
    else
      assert s == [s[0]] + s[1..];
      var r' := IndexOf(s[1..], c);
      assert s[..r' + 1] == [s[0]] + s[1..][..r'];
      1 + r'
  }

  /** The first occurrence is the only position with `c` that has no `c` before it. */
  lemma IndexOfIsFirst(s: string, c: char, i: nat)
    requires i < |s| && s[i] == c && c !in s[..i]
    ensures IndexOf(s, c) == i
  {
  }

  /** `s.split(sep)` for a one-character separator: the pieces of `s` between
      the occurrences of `sep`. There is always at least one piece, and no
      piece holds the separator. */
  function Split(s: string, sep: char): (r: seq<string>)
    ensures |r| >= 1
    ensures forall k :: 0 <= k < |r| ==> sep !in r[k]
    decreases |s|
  {
    if sep !in s then [s]
    else
      var i := IndexOf(s, sep);
      [s[..i]] + Split(s[i + 1..], sep)
  }

  /** `sep.join(parts)` */
  function Join(parts: seq<string>, sep: char): string
  {
    if |parts| == 0 then ""
    else if |parts| == 1 then parts[0]
    else parts[0] + [sep] + Join(parts[1..], sep)
  }

  /** Splitting at the first separator: the piece before it comes first, the
      rest is split on its own. */
  lemma SplitAtFirst(a: string, sep: char, b: string)
    requires sep !in a
    ensures Split(a + [sep] + b, sep) == [a] + Split(b, sep)
  {
    var s := a + [sep] + b;
    assert s[|a|] == sep;
    assert s[..|a|] == a;
    IndexOfIsFirst(s, sep, |a|);
    assert s[|a| + 1..] == b;
  }

  /** Joining the pieces again with the separator gives back the string. */
  lemma {:induction false} JoinSplit(s: string, sep: char)
    ensures Join(Split(s, sep), sep) == s
    decreases |s|
  {
    if sep in s {
      var i := IndexOf(s, sep);
      var rest := s[i + 1..];
      JoinSplit(rest, sep);
      assert Split(s, sep) == [s[..i]] + Split(rest, sep);
      assert s == s[..i] + [sep] + rest;
    }
  }

  /** Splitting a join of separator-free pieces gives back the pieces. */
  lemma {:induction false} SplitJoin(parts: seq<string>, sep: char)
    requires |parts| >= 1
    requires forall k :: 0 <= k < |parts| ==> sep !in parts[k]
    ensures Split(Join(parts, sep), sep) == parts
  {
    if |parts| > 1 {
      SplitJoin(parts[1..], sep);
      SplitAtFirst(parts[0], sep, Join(parts[1..], sep));
      assert parts == [parts[0]] + parts[1..];
    }
  }

  /** There is one more piece than there are separators in `s`; in particular
      a string without the separator splits into itself alone. */
  lemma {:induction false} SplitCount(s: string, sep: char)
    ensures |Split(s, sep)| == multiset(s)[sep] + 1
    decreases |s|
  {
    if sep in s {
      var i := IndexOf(s, sep);
      var rest := s[i + 1..];
      SplitCount(rest, sep);
      assert s == s[..i] + [sep] + rest;
      assert multiset(s) == multiset(s[..i]) + multiset{sep} + multiset(rest);
    } else {
      assert multiset(s)[sep] == 0;
    }
  }

  /** The first field of a split is the text up to the first separator, or
      the whole string when there is none. */
  lemma FirstField(t: string, sep: char, j: nat)
    requires j <= |t| && sep !in t[..j]
    requires j < |t| ==> t[j] == sep
    ensures Split(t, sep)[0] == t[..j]
  {
    if j < |t| {
      IndexOfIsFirst(t, sep, j);
    } else {
      assert t[..j] == t;
    }
  }

  /** The second field of a split is the text after the first separator, up
      to the next separator or to the end of the string when there is none. */
  lemma SecondField(s: string, sep: char, i: nat, j: nat)
    requires i < j <= |s|
    requires s[i] == sep && sep !in s[..i]
    requires sep !in s[i + 1..j]
    requires j < |s| ==> s[j] == sep
    ensures |Split(s, sep)| >= 2 && Split(s, sep)[1] == s[i + 1..j]
  {
    var rest := s[i + 1..];
    IndexOfIsFirst(s, sep, i);
    assert Split(s, sep) == [s[..i]] + Split(rest, sep);
    assert rest[..j - i - 1] == s[i + 1..j];
    FirstField(rest, sep, j - i - 1);
  }

  /** The characters `str.splitlines` treats as line boundaries. */
  predicate IsLineBoundary(c: char)
  {
    c == '\n' || c == '\r' || c == '\U{0B}' || c == '\U{0C}' || c == '\U{1C}'
    || c == '\U{1D}' || c == '\U{1E}' || c == '\U{85}' || c == '\U{2028}' || c == '\U{2029}'
  }

  predicate NoLineBoundary(s: string)
  {
    forall k :: 0 <= k < |s| ==> !IsLineBoundary(s[k])
  }

  /** The position of the first line boundary in `s`, or `|s|` when there is none. */
  function LineEnd(s: string): (r: nat)
    ensures r <= |s| && NoLineBoundary(s[..r])
    ensures r < |s| ==> IsLineBoundary(s[r])
  {
    if |s| == 0 || IsLineBoundary(s[0]) then 0
    else
      var r' := LineEnd(s[1..]);
      assert s[..r' + 1] == [s[0]] + s[1..][..r'];
      1 + r'
  }

  /** How many characters the boundary that starts `s` takes: two for `\r\n`,
      one otherwise. */
  function BoundaryLength(s: string): nat
    requires |s| > 0
  {
    if s[0] == '\r' && |s| > 1 && s[1] == '\n' then 2 else 1
  }

  /** `s.splitlines()`: the lines of `s` without their boundaries. An empty
      string has no lines, and a final boundary does not start a further line. */
  function SplitLines(s: string): (r: seq<string>)
    ensures r == [] <==> s == ""
    ensures forall k :: 0 <= k < |r| ==> NoLineBoundary(r[k])
    decreases |s|
  {
    if s == "" then []
    else
      var e := LineEnd(s);
      var next := if e == |s| then e else e + BoundaryLength(s[e..]);
      [s[..e]] + SplitLines(s[next..])
  }

  /** A line with no boundary in it, followed by a boundary, is the first line;
      the lines after it are those of the text after the boundary, which
      counts `\r\n` as one. */
  lemma {:induction false} SplitLinesFirst(a: string, b: string)
    requires NoLineBoundary(a)
    requires |b| > 0 && IsLineBoundary(b[0])
    ensures SplitLines(a + b) == [a] + SplitLines(b[BoundaryLength(b)..])
  {
    var s := a + b;
    LineEndAt(a, b);
    assert s[..|a|] == a;
    assert s[|a|..] == b;
    assert s[|a| + BoundaryLength(b)..] == b[BoundaryLength(b)..];
  }

  lemma {:induction false} LineEndAt(a: string, b: string)
    requires NoLineBoundary(a)
    requires |b| > 0 && IsLineBoundary(b[0])
    ensures LineEnd(a + b) == |a|
  {
    if |a| > 0 {
      assert (a + b)[1..] == a[1..] + b;
      LineEndAt(a[1..], b);
    }
  }

  /** Text made of lines each ended by `\n`. */
  function Terminated(lines: seq<string>): string
  {
    if |lines| == 0 then "" else lines[0] + "\n" + Terminated(lines[1..])
  }

  /** Splitting a text whose lines each end with `\n` gives back those lines. */
  lemma {:induction false} SplitLinesTerminated(lines: seq<string>)
    requires forall k :: 0 <= k < |lines| ==> NoLineBoundary(lines[k])
    ensures SplitLines(Terminated(lines)) == lines
  {
    if |lines| > 0 {
      var b := "\n" + Terminated(lines[1..]);
      assert Terminated(lines) == lines[0] + b;
      SplitLinesFirst(lines[0], b);
      assert b[BoundaryLength(b)..] == Terminated(lines[1..]);
      SplitLinesTerminated(lines[1..]);
      assert lines == [lines[0]] + lines[1..];
    }
  }

  /** A line with no boundary in it runs to the end of the text. */
  lemma {:induction false} LineEndOfLast(a: string)
    requires NoLineBoundary(a)
    ensures LineEnd(a) == |a|
  {
    if |a| > 0 {
      LineEndOfLast(a[1..]);
    }
  }

  /** Text without a boundary that is not empty is one line: the last line of
      a text keeps its characters even without a final boundary. */
  lemma SplitLinesLast(a: string)
    requires a != "" && NoLineBoundary(a)
    ensures SplitLines(a) == [a]
  {
    LineEndOfLast(a);
    assert a[..|a|] == a;
  }

  /** A newline ends the line before it, and the lines after it are those of
      the rest of the text. */
  lemma SplitLinesAfterNewline(a: string, t: string)
    requires NoLineBoundary(a)
    ensures SplitLines(a + ['\n'] + t) == [a] + SplitLines(t)
  {
    var b := ['\n'] + t;
    assert a + ['\n'] + t == a + b;
    SplitLinesFirst(a, b);
    assert b[BoundaryLength(b)..] == t;
  }

  /** Lines joined with `\n` and no final newline split back into those lines,
      when the last of them is not empty. */
  lemma {:induction false} SplitLinesJoined(lines: seq<string>)
    requires |lines| > 0 && lines[|lines| - 1] != ""
    requires forall k :: 0 <= k < |lines| ==> NoLineBoundary(lines[k])
    ensures SplitLines(Join(lines, '\n')) == lines
  {
    if |lines| == 1 {
      assert Join(lines, '\n') == lines[0];
      SplitLinesLast(lines[0]);
      assert lines == [lines[0]];
    } else {
      var rest := lines[1..];
      assert forall k :: 0 <= k < |rest| ==> rest[k] == lines[k + 1];
      SplitLinesJoined(rest);
      SplitLinesAfterNewline(lines[0], Join(rest, '\n'));
      assert lines == [lines[0]] + lines[1..];
    }
  }

  /** The text of a file made of `lines`, each but the last followed by `\n`,
      the last one too when `finalNewline` holds. */
  function LinesText(lines: seq<string>, finalNewline: bool): string
  {
    if finalNewline then Terminated(lines) else Join(lines, '\n')
  }

  /** `splitlines` gives back the lines of a file, whether or not its last
      line ends with a newline. */
  lemma SplitLinesOfText(lines: seq<string>, finalNewline: bool)
    requires forall k :: 0 <= k < |lines| ==> NoLineBoundary(lines[k])
    requires !finalNewline ==> |lines| > 0 && lines[|lines| - 1] != ""
    ensures SplitLines(LinesText(lines, finalNewline)) == lines
  {
    if finalNewline {
      SplitLinesTerminated(lines);
    } else {
      SplitLinesJoined(lines);
    }
  }
}
