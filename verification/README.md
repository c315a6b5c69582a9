# job4j_finder in Dafny

A Dafny model of the core of a command-line file search tool. The tool walks
a directory tree and collects the paths of the files whose base name matches a
pattern. The pattern is compared in one of three ways, chosen by a type
string: `name` (exact equality), `mask` (a glob with `*` and `?`) or `regex`
(a Java regular expression, matched against the whole name). A small parser
turns `-key=value` command-line arguments into a key-to-value map.

Modules:

- `Results` (results.dfy): the error cases of the Java code, one constructor per
  `IllegalArgumentException` it throws, and a `Result` type carrying a value
  or one of them.
- `Regex` (regex.dfy): full-string matching (`String.matches`) for the
  fragment of `java.util.regex` the mask translation produces. That fragment
  is literal characters, `\.`, `.` and `.*`. Any other pattern is decided by
  an `Engine`, a function parameter about which nothing is assumed. As in
  Java without the DOTALL flag, `.` never matches a line terminator (`\n`,
  `\r`, U+0085, U+2028, U+2029).
- `Mask` (mask.dfy): `matchesMask`. The mask goes through three successive
  `String.replace` calls: `.` to `\.`, then `*` to `.*`, then `?` to `.`.
  The name must then fully match the result. The module proves that for
  masks with no other regex metacharacters this equals direct glob matching,
  and derives the consequences for literal masks, `*` and `??…?`.
- `FileTree` (filetree.dfy): an inductive tree with directories, files and
  inaccessible entries. It stands in for the file system under
  `Files.walkFileTree`. `Walk` gives the depth-first sequence of events the
  finder's visitor sees: `visitFile` or `visitFileFailed`.
- `Finder` (finder.dfy): `matches` (the switch on the type string) and
  `searchFiles`. The visitor runs as a loop over the walk's events. It adds
  the path of each matching file, carries on after every failed entry, and
  aborts at the first file when the type is unknown.
- `ArgsName` (argsname.dfy): `of`, `parse` and `get`. The checks run in the
  order `parse` makes them: leading `-`, a `=`, a non-empty key, a non-empty value.
  The value may contain further `=`, and a later argument overwrites an
  earlier one with the same key.
- `FinderExamples` (examples.dfy): concrete matcher cases derived from the
  general theorems: mask `report_*.csv` against `report_2024.csv` and
  `report2024.csv`, and type `name` on `a.txt` against `a.TXT`.

Java strings are modelled as `seq<char>` of Unicode scalar values, the unit
`java.util.regex` matches by. Every character the code searches for is in
the Basic Multilingual Plane: `.`, `*`, `?`, `-`, `=`. So `String.replace`
gives the same string on code units and on scalar values. Positions such as
the result of `indexOf` count scalar values rather than UTF-16 code units, so
after a supplementary character they are smaller than Java's. The key, value
and error that `parse` derives from them are the same.

Three behaviours of the code worth stating plainly:

- An unreachable root is not an error. `Files.walkFileTree` hands it to
  `visitFileFailed`, which only logs it, and the search returns an empty
  list (`Finder.UnreadableRootFindsNothing`).
- An unknown search type is refused only when `matches` is called, that is,
  when the first file is visited. A tree with no files gives an empty result
  even under an unknown type (`Finder.SearchFiles`).
- Mask wildcards inherit the line-terminator rule of `.`. Mask `*` matches
  every name that holds no line terminator, not literally every name
  (`Mask.StarMatchesEveryName`).

## Model

| member | source | states |
|---|---|---|
| Regex.Parse | src/main/java/ru/job4j/Finder.java:50 | a pattern the fragment accepts is read as tokens that render back to exactly that pattern: `\.` a literal dot, `.*` a run, `.` one character, any other non-metacharacter itself |
| Regex.RenderParses | src/main/java/ru/job4j/Finder.java:50 | parsing the text of any token sequence the fragment can write gives that sequence back |
| Regex.Full | src/main/java/ru/job4j/Finder.java:41 | `String.matches` consumes the whole name, so a pattern without `.*` only matches names exactly as long as the pattern's token count |
| Regex.FullMatch | src/main/java/ru/job4j/Finder.java:41 | a pattern without metacharacters matches only the identical name, and `.*` matches exactly the names free of line terminators |
| Regex.AnyRunAcceptsDotStrings | src/main/java/ru/job4j/Finder.java:48-50 | `.*` accepts exactly the strings that hold no line terminator, the empty one included |
| Mask.ReplaceChar | src/main/java/ru/job4j/Finder.java:47-49 | `replace` of a one-character target leaves no occurrence behind when the replacement does not contain the target, and is the identity when the target is absent |
| Mask.ReplaceChainAppend | src/main/java/ru/job4j/Finder.java:47-49 | the three `replace` calls act on a concatenation piece by piece |
| Mask.ReplaceChainOneChar | src/main/java/ru/job4j/Finder.java:47-49 | on a one-character mask the three `replace` calls give that character's regex piece: `.` to `\.`, `*` to `.*`, `?` to `.`, any other to itself |
| Mask.ReplaceCharAppend | src/main/java/ru/job4j/Finder.java:47-49 | `replace` acts on a concatenation piece by piece |
| Mask.ReplaceChainIsCharwise | src/main/java/ru/job4j/Finder.java:47-49 | the three `replace` calls in the order of the Java code equal a per-character map `.`→`\.`, `*`→`.*`, `?`→`.`, others unchanged; no dot introduced by `*` or `?` is ever escaped |
| Mask.Translate | src/main/java/ru/job4j/Finder.java:47-49 | the regex `matchesMask` builds is the mask read character by character, and is as long as the mask plus its number of `.` plus its number of `*` |
| Mask.OtherOrderEscapesWildcards | src/main/java/ru/job4j/Finder.java:47-49 | the order matters: mask `*` becomes `.*`, while substituting wildcards before escaping would give `\.*` |
| Mask.ParseExpand | src/main/java/ru/job4j/Finder.java:47-50 | for a mask free of other metacharacters, the translation lies in the regex fragment and reads as one token per mask character |
| Mask.FullGlobTokens | src/main/java/ru/job4j/Finder.java:50 | full matching against the mask's tokens is the direct glob match of the mask |
| Mask.TranslationIsGlob | src/main/java/ru/job4j/Finder.java:47-50 | for a mask free of other metacharacters, a full match against the translated regex is glob matching of the whole name, whatever the engine does elsewhere |
| Mask.MatchesMask | src/main/java/ru/job4j/Finder.java:46-51 | for a mask free of other metacharacters, `matchesMask` holds iff the name glob-matches the mask (`*` any run, `?` one character, neither a line terminator) |
| Mask.LiteralMaskIsEquality | src/main/java/ru/job4j/Finder.java:46-51 | a mask without `*`, `?` or other metacharacters matches a name iff the two are equal; its `.` is literal |
| Mask.MaskWithoutStarIsAnchored | src/main/java/ru/job4j/Finder.java:46-51 | without `*`, every name the mask matches is exactly as long as the mask: extra leading or trailing characters never match |
| Mask.StarMatchesEveryName | src/main/java/ru/job4j/Finder.java:48-50 | mask `*` matches a name, the empty one included, iff the name holds no line terminator |
| Mask.QuestionMarksMatchLength | src/main/java/ru/job4j/Finder.java:49-50 | a mask of n `?` matches exactly the names of length n free of line terminators |
| Mask.GlobLiteralPrefix | src/main/java/ru/job4j/Finder.java:46-51 | a wildcard-free prefix of the mask must appear verbatim at the start of the name, and the rest of the mask matches the rest of the name |
| Mask.GlobStarAbsorbs | src/main/java/ru/job4j/Finder.java:48 | a leading `*` can absorb any run of characters that are not line terminators |
| FinderExamples.ReportExampleMatches | src/main/java/ru/job4j/Finder.java:46-51 | `report_2024.csv` matches mask `report_*.csv` |
| FinderExamples.ReportExampleRejects | src/main/java/ru/job4j/Finder.java:46-51 | `report2024.csv` does not match mask `report_*.csv` |
| FinderExamples.NameExamples | src/main/java/ru/job4j/Finder.java:40 | type `name` is case-sensitive: `a.txt` matches `a.txt`, `a.TXT` does not |
| Finder.KindOf | src/main/java/ru/job4j/Finder.java:38-43 | exactly `mask`, `name` and `regex` are recognised, each as the kind it names; any other string is the unknown-type error naming it |
| Finder.KindOfInvertsKindName | src/main/java/ru/job4j/Finder.java:38-43 | each kind is recognised under its own name, and a string is refused iff it names no kind |
| Finder.Matches | src/main/java/ru/job4j/Finder.java:37-44 | error iff the type is not `mask`, `name` or `regex`, never a plain "no match"; `name` is exact case-sensitive equality; `regex` is a full match; `mask` is `matchesMask`, which for a mask free of other metacharacters is the glob match of the whole name |
| Finder.SearchFiles | src/main/java/ru/job4j/Finder.java:11-35 | the search fails iff the type is unknown and the walk visits at least one file; otherwise it returns the paths of the visited files whose names match, in visiting order, and failed entries add nothing |
| Finder.Selected | src/main/java/ru/job4j/Finder.java:19-25 | the visitor adds at most one path per event, and adds nothing from a stretch of the walk with no `visitFile` event |
| Finder.SelectedAppend | src/main/java/ru/job4j/Finder.java:17-32 | the paths collected from two stretches of the walk are those of the first followed by those of the second |
| Finder.SelectedMembers | src/main/java/ru/job4j/Finder.java:19-25 | a path is collected iff some `visitFile` event carries it with a matching name |
| Finder.SearchReturnsExactlyTheMatchingFiles | src/main/java/ru/job4j/Finder.java:17-34 | a path is returned iff the tree holds a file at that path whose base name matches the pattern under the chosen type |
| Finder.SearchFollowsEntryOrder | src/main/java/ru/job4j/Finder.java:17-34 | the matches of a directory's entries come in the order the entries are listed |
| Finder.UnreadableEntryAddsNothing | src/main/java/ru/job4j/Finder.java:27-31 | an inaccessible entry adds nothing and the entries after it are still searched |
| Finder.UnreadableRootFindsNothing | src/main/java/ru/job4j/Finder.java:27-31 | an inaccessible root gives an empty result and visits no file, so even an unknown type raises no error |
| FileTree.Walk | src/main/java/ru/job4j/Finder.java:17-32 | every event of the walk lies at or below the start path, and a start entry that is a file or inaccessible raises exactly one event, at the start path |
| FileTree.WalkChildren | src/main/java/ru/job4j/Finder.java:17-32 | every event raised for a directory's entries lies strictly below the directory's path |
| FileTree.WalkVisitsExactlyTheFiles | src/main/java/ru/job4j/Finder.java:17-25 | the walk raises `visitFile` for a path and name iff the tree holds that file there |
| FileTree.WalkChildrenVisitsExactlyTheFiles | src/main/java/ru/job4j/Finder.java:17-25 | the same, for the entries of one directory |
| FileTree.WalkReportsExactlyTheUnreadable | src/main/java/ru/job4j/Finder.java:27-31 | the walk raises `visitFileFailed` for a path iff the tree holds an inaccessible entry there |
| FileTree.WalkChildrenReportsExactlyTheUnreadable | src/main/java/ru/job4j/Finder.java:27-31 | the same, for the entries of one directory |
| FileTree.WalkChildrenAppend | src/main/java/ru/job4j/Finder.java:17 | walking a directory's entries is walking the first part, then the rest |
| ArgsName.IndexOf | src/main/java/ru/job4j/ArgsName.java:26 | `indexOf` is -1 iff the character is absent, and otherwise the position of its first occurrence |
| ArgsName.ParseArg | src/main/java/ru/job4j/ArgsName.java:18-36 | each of the four errors arises exactly under its condition, checked in order: no leading `-`; else no `=`; else `=` right after the `-` (empty key); else the only `=` is the last character (empty value); no other error arises, so an argument meeting none of these conditions parses |
| ArgsName.ParsedArgShape | src/main/java/ru/job4j/ArgsName.java:26-36 | a parsed argument is `-key=value` with a non-empty key free of `=` and a non-empty value |
| ArgsName.FormattedArgParses | src/main/java/ru/job4j/ArgsName.java:26-36 | `-key=value` with such a key and value parses back to that key and value, even when the value contains `=` |
| ArgsName.ParseArgs | src/main/java/ru/job4j/ArgsName.java:16-38 | parsing succeeds iff every argument is well formed, and never yields the "arguments not passed" error |
| ArgsName.ParseArgsFailsAtFirstBadArgument | src/main/java/ru/job4j/ArgsName.java:16-38 | parsing fails iff some argument is malformed, and then with the error of the first malformed one |
| ArgsName.FirstBadArgument | src/main/java/ru/job4j/ArgsName.java:16-38 | a failed parse yields the position of the first malformed argument, whose error is the parse's error |
| ArgsName.ParseArgsKeys | src/main/java/ru/job4j/ArgsName.java:16-38 | after a successful parse the keys are exactly those the arguments define |
| ArgsName.ParseArgsLastWriteWins | src/main/java/ru/job4j/ArgsName.java:36 | each key maps to the value of the last argument that defines it |
| ArgsName.ParseArgsAppend | src/main/java/ru/job4j/ArgsName.java:36 | one more argument sets its own key's value and leaves every other key unchanged |
| ArgsName.Of | src/main/java/ru/job4j/ArgsName.java:40-47 | an empty argument array is the "arguments not passed" error, and only it; otherwise `of` is the parse |
| ArgsName.Get | src/main/java/ru/job4j/ArgsName.java:9-14 | `get` succeeds iff the key is present, with its stored value; otherwise the error names the key |
| ArgsName.GetAfterOf | src/main/java/ru/job4j/ArgsName.java:9-14 | after `of`, `get(key)` succeeds iff some argument defines the key, and returns the value of the last such argument |

## Left out

- `writeToFile` (file output, `FileWriter` overwrite, `System.lineSeparator()`) and `main`: I/O and process plumbing. This includes `main`'s argument-count check and its wrapping of `IOException` into `RuntimeException`.
- `Files.walkFileTree` and `Path`: replaced by the `FileTree.Entry` tree. Entry order is the tree's listing order. Paths are sequences of names: the root as given, then one name per level. Joining them with the platform separator is not modelled.
- Symbolic links: the default walk does not follow them, so a link is a `File` entry. Cycle handling is the platform's.
- A directory whose listing fails after it was opened: `SimpleFileVisitor.postVisitDirectory` rethrows that exception and aborts the walk. The tree has no entry kind for it. Only failures reported through `visitFileFailed` are modelled.
- The message `visitFileFailed` prints on `System.err`: a side channel with no effect on the result.
- `java.util.regex` outside the fragment of literals, `\.`, `.` and `.*`: its answers come from the `Engine` parameter. Its `PatternSyntaxException` on a malformed pattern is not modelled either. The engine is a boolean function. A character class such as `[0-9]` lies outside the fragment.
- Masks that contain a regex metacharacter other than `.`, `*` and `?`: the code passes these to the regex unescaped, so their meaning is whatever the engine makes of them. The glob theorems require `Mask.MetaFree`.
- `HashMap`: modelled as a Dafny `map<string, string>`. Error messages are modelled as the `Results.Error` constructor plus the offending argument or key, not as text.
- Finder.SearchFiles: the root entry stands for the entry at `directory`. When that entry is a file, Java reports it under the last name of `directory` (`getFileName()`), whereas the model reports the root entry's own `name`; the two agree only when that name is the last name of `directory`, since the model does not split `directory` into names.
- Sibling names: `FileTree.Entry` does not require the entries of a directory to have distinct names, as a real directory's do. A tree with two files of one name reports that path twice. The search theorems state membership, not multiplicity.
