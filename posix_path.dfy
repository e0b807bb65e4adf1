/** The POSIX path operations that setup.py relies on: `os.path.basename`
    and `os.path.splitext`, with `/` as the separator and `.` as the
    extension separator. */
module PosixPath {

  /** `s.rfind(c)`: the position of the last occurrence of `c`, or -1. */
  function RFind(s: string, c: char): (r: int)
    ensures -1 <= r < |s|
    ensures r >= 0 ==> s[r] == c
    ensures forall k :: r < k < |s| ==> s[k] != c
  {
    if |s| == 0 then -1
    else if s[|s| - 1] == c then |s| - 1
    else RFind(s[..|s| - 1], c)
  }

  /** The last occurrence is the only position with `c` that has no `c` after it. */
  lemma RFindIsLast(s: string, c: char, i: int)
    requires -1 <= i < |s|
    requires i >= 0 ==> s[i] == c
    requires forall k :: i < k < |s| ==> s[k] != c
    ensures RFind(s, c) == i
  {
  }

  /** `os.path.basename(p)`: the longest suffix of `p` without a `/`. */
  function Basename(p: string): (r: string)
    ensures '/' !in r
    ensures |r| <= |p| && p == p[..|p| - |r|] + r
    ensures |r| == |p| || p[|p| - |r| - 1] == '/'
  {
    var i := RFind(p, '/');
    var r := p[i + 1..];
    forall k | 0 <= k < |r|
      ensures r[k] != '/'
    {
      assert r[k] == p[i + 1 + k];
    }
    assert p == p[..i + 1] + r;
    r
  }

  predicate AllDots(s: string)
  {
    forall k :: 0 <= k < |s| ==> s[k] == '.'
  }

  /** A non-empty extension: a dot followed by no further dot and no `/`. */
  predicate IsExtension(e: string)
  {
    |e| > 0 && e[0] == '.' && forall k :: 0 < k < |e| ==> e[k] != '.' && e[k] != '/'
  }

  /** `os.path.splitext(p)`: splits `p` into a root and an extension. The
      extension runs from the last `.` after the last `/`, provided something
      other than a dot comes before it in the final component; otherwise it is
      empty. Root and extension put together give back `p`. */
  function SplitExt(p: string): (r: (string, string))
    ensures r.0 + r.1 == p
    ensures r.1 == "" || IsExtension(r.1)
  {
    var sepIndex := RFind(p, '/');
    var dotIndex := RFind(p, '.');
    if dotIndex > sepIndex && !AllDots(p[sepIndex + 1..dotIndex]) then
      ExtensionAfterLastDot(p, sepIndex, dotIndex);
      (p[..dotIndex], p[dotIndex..])
    else
      (p, "")
  }

  /** The text from the last dot on, when no `/` follows that dot, is an
      extension. */
  lemma ExtensionAfterLastDot(p: string, sepIndex: int, dotIndex: nat)
    requires -1 <= sepIndex < dotIndex < |p| && p[dotIndex] == '.'
    requires forall k :: dotIndex < k < |p| ==> p[k] != '.'
    requires forall k :: sepIndex < k < |p| ==> p[k] != '/'
    ensures IsExtension(p[dotIndex..]) && p[..dotIndex] + p[dotIndex..] == p
  {
    var ext := p[dotIndex..];
    forall k | 0 < k < |ext|
      ensures ext[k] != '.' && ext[k] != '/'
    {
      assert ext[k] == p[dotIndex + k];
    }
  }

  /** An extension is split off only when the root's final component holds
      something other than dots: the leading dots of a name never start an
      extension. */
  lemma SplitExtKeepsName(p: string)
    ensures SplitExt(p).1 != "" ==> !AllDots(Basename(SplitExt(p).0))
  {
    var sepIndex := RFind(p, '/');
    var dotIndex := RFind(p, '.');
    if dotIndex > sepIndex && !AllDots(p[sepIndex + 1..dotIndex]) {
      BasenameOfPrefix(p, sepIndex, dotIndex);
    }
  }

  /** Cutting a path after its last `/` leaves the basename of what is kept. */
  lemma BasenameOfPrefix(p: string, i: int, j: nat)
    requires -1 <= i < j <= |p|
    requires i >= 0 ==> p[i] == '/'
    requires forall k :: i < k < |p| ==> p[k] != '/'
    ensures Basename(p[..j]) == p[i + 1..j]
  {
    RFindIsLast(p[..j], '/', i);
  }

  /** The name after the last `/` is the basename. */
  lemma BasenameAfterSlash(dir: string, name: string)
    requires '/' !in name
    ensures Basename(dir + "/" + name) == name
  {
    var p := dir + "/" + name;
    RFindIsLast(p, '/', |dir|);
    assert p[|dir| + 1..] == name;
  }

  /** A path without a `/` is its own basename. */
  lemma BasenameOfName(name: string)
    requires '/' !in name
    ensures Basename(name) == name
  {
    RFindIsLast(name, '/', -1);
  }

  /** A file name `stem.ext`, whose stem is not made of dots alone and whose
      extension has no dot, splits into `stem` and `.ext`. */
  lemma SplitExtOfName(stem: string, ext: string)
    requires '/' !in stem && '/' !in ext && '.' !in ext
    requires !AllDots(stem)
    ensures SplitExt(stem + "." + ext) == (stem, "." + ext)
  {
    var p := stem + "." + ext;
    RFindIsLast(p, '/', -1);
    RFindIsLast(p, '.', |stem|);
    assert p[0..|stem|] == stem;
    assert p[..|stem|] == stem;
    assert p[|stem|..] == "." + ext;
  }

  /** A name whose dots before its last dot are all leading dots (`.bashrc`,
      `..cfg`) has no extension. */
  lemma SplitExtOfDotfile(dots: string, ext: string)
    requires AllDots(dots) && '/' !in ext && '.' !in ext
    ensures SplitExt(dots + "." + ext) == (dots + "." + ext, "")
  {
    var p := dots + "." + ext;
    RFindIsLast(p, '/', -1);
    RFindIsLast(p, '.', |dots|);
    assert p[0..|dots|] == dots;
  }

  /** A name without a dot has no extension. */
  lemma SplitExtWithoutDot(name: string)
    requires '.' !in name
    ensures SplitExt(name) == (name, "")
  {
    RFindIsLast(name, '.', -1);
  }
}
