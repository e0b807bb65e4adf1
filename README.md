# tpt-reports packaging logic, in Dafny

The tpt-reports repository builds PDF reports of technical payload testing.
The logic in its packaging script, `setup.py`, is modelled here:

- `get_version` reads `src/tpt_reports/_version.py` and scans its lines in
  order. The first line that starts with `__version__` decides the result. The
  quote that delimits the value is a double quote whenever the line holds one,
  and a single quote otherwise. The version is the second field of the line
  split at that quote. When no line matches, it raises
  `RuntimeError("Unable to find version string.")`. A matching line with no
  quote at all splits into one field, so indexing the second field raises
  `IndexError`, and the scan stops there.
- `py_modules` turns each top-level source path `src/*.py` into a module name:
  the basename with its last extension removed.

The model has three modules:

- `PyStr` (`py_str.dfy`) holds the Python `str` operations the script uses:
  `startswith`, `split` with a one-character separator, and `splitlines`
  with every line boundary Python recognises. `\r\n` counts as one boundary.
- `PosixPath` (`posix_path.dfy`) holds `os.path.basename` and
  `os.path.splitext` as POSIX Python defines them. The separator is `/`. An
  extension is the text from the last `.` of the final component, unless only
  dots come before that `.`, as in `.bashrc`.
- `Setup` (`setup.dfy`) holds `get_version` as a method with a `while` loop
  over the lines. The method is proved equal to the recursive specification
  `FindVersion`. `Setup` also holds the `py_modules` comprehension as
  `ModuleNames`.

The outcome of `get_version` is a `Result`: `Ok(version)`, or `Err` carrying
`RuntimeError(message)` or `IndexError`.

## Model

| member | source | states |
|---|---|---|
| `PyStr.StartsWith` | setup.py:38 | `startswith` holds exactly when the string is at least as long as the prefix and begins with it |
| `PyStr.Split` | setup.py:40 | `str.split` with one separator always gives at least one field, and no field contains the separator |
| `PyStr.JoinSplit` | setup.py:40 | joining the fields of a split with the separator gives back the original line |
| `PyStr.SplitJoin` | setup.py:40 | splitting a join of separator-free pieces gives back exactly those pieces |
| `PyStr.SplitCount` | setup.py:39-40 | a split has one more field than the line has separators, so a line without the separator has no second field |
| `PyStr.SecondField` | setup.py:40 | field `[1]` is the text after the first separator, up to the next separator or to the end of the line |
| `PyStr.SplitLines` | setup.py:37 | `splitlines` gives no lines for empty text, and no line contains a line boundary |
| `PyStr.SplitLinesFirst` | setup.py:37 | the first line runs to the first boundary, and `\r\n` is consumed as one boundary |
| `PyStr.SplitLinesTerminated` | setup.py:37 | text whose lines each end with `\n` splits back into exactly those lines |
| `PyStr.SplitLinesLast` | setup.py:37 | non-empty text without a line boundary is a single line, so a last line without a final newline is kept |
| `PyStr.SplitLinesJoined` | setup.py:37 | lines joined by `\n` with no final newline split back into those lines when the last one is not empty |
| `PyStr.SplitLinesOfText` | setup.py:37 | the lines of a file split back into exactly those lines, whether or not the file ends with a newline |
| `PosixPath.RFind` | setup.py:91 | `rfind`, which `basename` and `splitext` use, gives -1 or a position holding the character, with no occurrence after it |
| `PosixPath.Basename` | setup.py:91 | `basename` is the suffix after the last `/`: it has no `/`, and the path ends with it |
| `PosixPath.SplitExt` | setup.py:91 | `splitext` gives a root and an extension that concatenate to the path; the extension is empty or a dot with no further dot or `/` |
| `PosixPath.SplitExtKeepsName` | setup.py:91 | an extension is split off only when the root's last component holds something other than dots |
| `PosixPath.BasenameAfterSlash` | setup.py:91 | the name after the last `/` of `dir/name` is the basename |
| `PosixPath.BasenameOfName` | setup.py:91 | a path without `/` is its own basename |
| `PosixPath.SplitExtOfName` | setup.py:91 | `stem.ext` splits into `stem` and `.ext` when the stem is not all dots and the extension has no dot |
| `PosixPath.SplitExtOfDotfile` | setup.py:91 | a name whose only dots before the last one are leading dots has no extension |
| `PosixPath.SplitExtWithoutDot` | setup.py:91 | a name without a dot has no extension |
| `Setup.IsVersionLine` | setup.py:38 | a line is the version line exactly when its first eleven characters are `__version__` |
| `Setup.Delimiter` | setup.py:39 | the delimiter is a double quote exactly when the line holds one, and a single quote otherwise |
| `Setup.ExtractVersion` | setup.py:39-40 | a version line fails with `IndexError` exactly when it holds neither quote; it never raises the not-found error; a returned version never contains the chosen delimiter |
| `Setup.FindVersion` | setup.py:37-41 | the scan fails with `RuntimeError("Unable to find version string.")` exactly when no line starts with `__version__` |
| `Setup.GetVersion` | setup.py:35-41 | the loop over the lines of the text returns exactly the outcome `FindVersion` assigns to those lines |
| `Setup.FirstVersionLineDecides` | setup.py:37-40 | when line i is the first version line, the outcome is the outcome of that line alone |
| `Setup.LaterLinesIgnored` | setup.py:37-40 | once some line is a version line, appending further lines changes nothing |
| `Setup.LeadingTextSkipped` | setup.py:38 | a line whose first character is not `_`, leading white space included, is skipped |
| `Setup.UnquotedVersionLineFails` | setup.py:39-40 | a first version line without a quote gives `IndexError`, whatever later lines hold |
| `Setup.VersionBetweenDelimiters` | setup.py:39-40 | the version is the text between the first delimiter and the next one, or the end of the line |
| `Setup.DoubleQuoteAnywhereWins` | setup.py:39 | a double quote anywhere on the line makes it the delimiter, even after a single-quoted value |
| `Setup.DoubleQuotedRoundTrip` | setup.py:38-40 | `__version__ = "X"` followed by anything gives back X when X has no double quote |
| `Setup.SingleQuotedRoundTrip` | setup.py:38-40 | `__version__ = 'X'` gives back X when neither X nor the rest of the line holds a double quote and X holds no single quote |
| `Setup.AssignmentIsVersionLine` | setup.py:38 | a line written `__version__ = "..."` is a version line |
| `Setup.FirstVersionLineOfFile` | setup.py:37-40 | in a file of lines separated by `\n`, with or without a final newline, the first version line decides what `get_version` finds |
| `Setup.VersionFileRoundTrip` | setup.py:35-41 | a file whose first version line is `__version__ = "X"` yields X, whether or not the file ends with a newline |
| `Setup.VersionOnlyFile` | setup.py:35-41 | a file holding only `__version__ = "X"`, with no final newline, yields X |
| `Setup.ModuleName` | setup.py:91 | a module name has no `/`, is a prefix of the path's basename, and is non-empty when the basename is |
| `Setup.ModuleNames` | setup.py:91 | `py_modules` has one entry per path, in the order of the paths |
| `Setup.ModuleNameOfSourceFile` | setup.py:91 | the path `dir/stem.ext` gives the module name `stem` |
| `Setup.ModuleNamesOfSources` | setup.py:91 | the paths `src/<stem>.py` give back their stems, in order |
| `Setup.ModuleNameExample` | setup.py:91 | `src/foo.py` is listed as the module `foo` |

## Left out

- `readme()` and `read()` (setup.py:20-32) open and read files. `GetVersion` takes the text of the version file as a parameter. The byte decoding and newline translation of `codecs.open` are not modelled.
- `glob("src/*.py")` (setup.py:91) lists the file system. `ModuleNames` takes the path list, in whatever order the listing gives it.
- Path handling is POSIX only. The Windows rules of `os.path`, with `\` as a second separator and drive letters, are not modelled.
- The `setup(...)` call (setup.py:44-127) passes packaging metadata and has no logic. Its `install_requires` lies between unresolved merge-conflict markers (setup.py:93-105), so neither variant is modelled.
- The report-layout engine (`format_table`, `MyDocTemplate`, `report_gen`) and the command-line entry point `main` are not part of this model. Their source is not among the modelled files, and they wrap reportlab, pandas, docopt and schema. Only the tests under `tests/` describe them.
- The exception `get_version` raises is modelled as a returned `Err` value, not as control flow.
