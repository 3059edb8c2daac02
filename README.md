# mkpatch in Dafny

`mkpatch` writes a patch. It compares modified files with their originals,
which are kept next to them under a suffix (`.orig` by default). Each path
argument is handled in one of two ways:

- A file argument names either the modified file or its original.
- A directory argument is walked, and every file found there that ends in
  the suffix becomes an original.

Each original is paired with its modified file and handed to the external
`diff -u`. The output is written in sorted order of the originals.

Some cases get special treatment:

- A modified file that is gone is stood in for by a symbolic link to
  `/dev/null` while its diff runs. The diff then shows a deletion.
- An empty original is replaced by `/dev/null`. The diff then shows an
  addition.

In ports format (`-P`):

- `diff` also gets `-p` and `-d`.
- No `Index:` preamble is printed.
- Every output line that begins with `---` or `+++` loses its time-stamp
  noise. These are the two file headers, but also a body line whose text
  begins with `--` (deleted) or `++` (added).

Paths can also be read from the `Index:` lines of an earlier patch (`-r`).
With no path at all, `.` is compared. The exit status is the bitwise OR of
the per-path statuses.

The model has eight modules, one per file:

- `Text` (`text.dfy`) gives Python's string and regular-expression primitives
  a precise meaning:
  - `$` matches at the end of the string or before a final newline.
  - `.` does not match a newline.
  - `\s` is `str.isspace`.
  - It also covers `rstrip` and `join`.
- `DiffCommand` (`diff_command.dfy`) builds the argument list for `diff`,
  specified by the predicate `IsDiffCommand`. It proves that exactly one
  argument list satisfies that predicate.
- `TailGroups` (`tail_groups.dfy`) is a generic account of `re.sub` with a
  pattern `(A+B+)+$` for two disjoint character classes. It covers where the
  pattern matches, where the leftmost match starts, what `re.sub` leaves,
  and idempotence.
- `HeaderRewrite` (`header_rewrite.dfy`) does the per-line rewrite of every
  output line that begins with `---` or `+++`, and the loop over `diff`'s
  output.
- `Pairing` (`pairing.dfy`) covers:
  - stripping trailing slashes;
  - naming the original of a file argument;
  - joining the directory walk;
  - `sorted` (insertion sort, a unique sorted permutation);
  - the `(.+)SUFFIX$` match that pairs an original with its modified file.
- `Filesystem` (`filesystem.dfy`) is the filesystem as a map from path names
  to nodes and symbolic links. It gives `os.path.exists`, `os.path.getsize`
  and `os.stat` a meaning. It has a `FileSystem` class whose `Symlink` and
  `Unlink` change the map in place.
- `Patch` (`patch.dfy`) covers `diff()` and `mkpatch()`: one path argument and
  its runs of `diff`, including the deletion and empty-original policy and
  the exceptions that can stop it.
- `Driver` (`driver.dfy`) covers `main()` after option parsing: the `Index:`
  lines, the default path, and the OR of the statuses.

Things outside the program are inputs of the model:

- The external `diff` is a parameter of type `DiffTool`: the lines it
  prints for a command line and a filesystem.
- `os.walk` is a parameter `walkOf`: the sequence of directories visited,
  each with its files.
- Standard output is a sequence of lines.
- The patch file named by `-r` is either its sequence of lines or
  `Unreadable`.

An exception that leaves `mkpatch()` is the outcome `Raised`.

Three details of the code:

- **User `-o` options.** They come right after `-u`, in front of `-b`, `-p`
  and `-d` (line 55).
- **The `---` header rewrite.** It removes the fractional seconds together
  with `+0000` (line 77). "`12:00:00.123456789 +0000`" becomes
  "`12:00:00 UTC`".
- **The stand-in link to `/dev/null`.** There is no `try`/`finally` around
  lines 116-119, so an exception after the link was made skips the unlink
  and the link stays behind (`Patch.LeftBehind`). The cleanup is proved for
  the normal return only.

## Model

| member | source | states |
|---|---|---|
| `DiffCommand.BuildCommand` | mkpatch/mkpatch.py:55-62 | The command satisfies `IsDiffCommand`, the model of the layout of lines 55-62: `diff`, `-u`, the user options unchanged and in order, then the automatic flags, then exactly `[oldfile, newfile]`. The automatic flags hold `-b` iff `ignspcchg`, `-p` iff ports format or a C-like name, and `-d` iff ports format, each at most once and in the order `-b`, `-p`, `-d`. |
| `DiffCommand.FlagsInOrderOk` | mkpatch/mkpatch.py:56-61 | The flags appended by the three `if`s meet the automatic-flag conditions for every combination of the three switches. |
| `DiffCommand.AutoFlagsShape` | mkpatch/mkpatch.py:56-61 | Any flag list in the fixed order that holds each flag exactly when it is wanted is the list the three appends give. |
| `DiffCommand.AutoFlagsDetermined` | mkpatch/mkpatch.py:56-61 | Two flag lists that satisfy the same three conditions are equal. |
| `DiffCommand.AtMostThree` | mkpatch/mkpatch.py:56-61 | No more than three automatic flags can appear. |
| `DiffCommand.RankFloor` | mkpatch/mkpatch.py:56-61 | In the fixed order, the `k`-th automatic flag is at least the `k`-th of `-b`, `-p`, `-d`. |
| `DiffCommand.DiffCommandDetermined` | mkpatch/mkpatch.py:55-62 | The layout `IsDiffCommand` that `BuildCommand` promises admits exactly one command line, so it pins the result down completely. |
| `DiffCommand.ExtensionAfterStem` | mkpatch/mkpatch.py:58 | `CLikeName` (built on `HasExtension`) is the model of the pattern of line 58. A name with at least one non-newline character before `.c`, `.cpp` or `.py` gets `-p`, with or without a final newline. |
| `DiffCommand.BareExtensionNotCLike` | mkpatch/mkpatch.py:58 | `.+` needs a character before the dot, so a name whose only dot is its first character (a bare `.c`) does not get `-p`. |
| `DiffCommand.DotBeforeExtension` | mkpatch/mkpatch.py:58 | When one of the extensions is found, its dot stands at a position after the first character of the name. |
| `DiffCommand.OtherExtensionsNotCLike` | mkpatch/mkpatch.py:58 | `.h` and `.pyc` names do not get `-p`: the pattern is anchored at the end. |
| `Text.Body` | mkpatch/mkpatch.py:77 | The part of a line that `$` can end a match at: the line minus at most one final newline, and a prefix of it. |
| `Text.Terminator` | mkpatch/mkpatch.py:77 | The line is its `Body` followed by this, which is a single newline or nothing. |
| `Text.BodyOfJoin` | mkpatch/mkpatch.py:79 | Content joined with a terminator splits back into that content and that terminator. |
| `Text.RStrip` | mkpatch/mkpatch.py:161 | `str.rstrip()`: a prefix of the input that does not end in whitespace, with only whitespace removed after it. |
| `Text.RStripAfter` | mkpatch/mkpatch.py:161 | Whitespace appended to a string that does not end in whitespace is exactly what `rstrip` removes. |
| `TailGroups.GroupsAreFlat` | mkpatch/mkpatch.py:79 | A suffix matched in full by `(A+B+)+` begins with an `A`, ends with a `B` and holds nothing outside the two classes. |
| `TailGroups.FlatIsGroups` | mkpatch/mkpatch.py:79 | For disjoint classes the converse holds: such a suffix is matched in full by `(A+B+)+`. |
| `TailGroups.GroupsIff` | mkpatch/mkpatch.py:79 | For disjoint classes, a string is matched in full by `(A+B+)+` iff it begins with an `A`, ends with a `B` and holds only `A` and `B` characters. |
| `TailGroups.TailAtIff` | mkpatch/mkpatch.py:79 | The pattern matches from position `k` to the end iff `k` holds an `A` inside the trailing run of `A`-or-`B` characters and that run ends in a `B`. |
| `TailGroups.RunStartCovers` | mkpatch/mkpatch.py:79 | The trailing run reaches back over every stretch of `A`-or-`B` characters that ends where it ends. |
| `TailGroups.LeftmostTail` | mkpatch/mkpatch.py:79 | The computed cut point is a match position exactly when the pattern matches at all, and it lies at or before every match position, so it is where `re.sub`'s leftmost match starts. |
| `TailGroups.StripGroupsSpec` | mkpatch/mkpatch.py:79 | `StripGroups`, the model of `re.sub('(A+B+)+$', '', line)`, cuts the content at the leftmost match position and keeps the final newline. Without a match the line is unchanged. |
| `TailGroups.StripGroupsAfterHead` | mkpatch/mkpatch.py:79 | A head followed by a sequence of groups comes out as the head, when each `A` character of the head is followed later by a character outside both classes. |
| `TailGroups.StripGroupsShape` | mkpatch/mkpatch.py:79 | What is kept is a prefix of the content reaching at least its first `A` character. The final newline is kept, and a rewritten line has no match left. |
| `TailGroups.NothingLeftToStrip` | mkpatch/mkpatch.py:79 | No match exists in the content in front of the cut point. |
| `TailGroups.StripGroupsIdempotent` | mkpatch/mkpatch.py:79 | Stripping twice gives what stripping once gives. |
| `HeaderRewrite.OffsetTailUnique` | mkpatch/mkpatch.py:77 | `\.\d* \+0000` can match the end of a line's content at one position only. |
| `HeaderRewrite.OffsetTailAtIff` | mkpatch/mkpatch.py:77 | The pattern matches at `i` iff the content ends in ` +0000` and `i` is the `.` right in front of the run of digits before it. |
| `HeaderRewrite.RewriteOldHeaderSpec` | mkpatch/mkpatch.py:77 | `RewriteOldHeader`, the model of `re.sub(r'\.\d* \+0000$', ' UTC', line)`, replaces the match with ` UTC` and keeps the final newline. Without a match the line is unchanged. |
| `HeaderRewrite.RewriteOldHeaderMatched` | mkpatch/mkpatch.py:77 | A `---` line that changes had the pattern matched at the `.` in front of the digits. |
| `HeaderRewrite.OldHeaderStamp` | mkpatch/mkpatch.py:77 | `head + "." + digits + " +0000"`, with or without a newline, becomes `head + " UTC"` with the same newline. |
| `HeaderRewrite.RewriteNewHeaderSpec` | mkpatch/mkpatch.py:79 | `RewriteNewHeader`, the model of `re.sub(r'(\s+[-0-9:.+]+)+$', '', line)` and an instance of `StripGroups`, cuts the content at the leftmost match, which removes the longest trailing sequence of (whitespace run, time-stamp run) groups, and keeps the final newline. Without a match the line is unchanged. |
| `HeaderRewrite.NewHeaderStamp` | mkpatch/mkpatch.py:79 | A `+++` line made of a head and a time stamp loses exactly the time stamp, when the head does not itself end in whitespace followed only by whitespace and time-stamp characters. |
| `HeaderRewrite.OldHeaderShape` | mkpatch/mkpatch.py:76-77 | The `---` rewrite keeps the `---` prefix and the final newline, and a second rewrite changes nothing. |
| `HeaderRewrite.NewHeaderShape` | mkpatch/mkpatch.py:78-79 | The `+++` rewrite keeps the `+++` prefix and the final newline, and a second rewrite changes nothing. |
| `HeaderRewrite.NormalizeKeepsShape` | mkpatch/mkpatch.py:74-80 | `NormalizeLine` is the model of what lines 75-79 do to one line. Outside ports format every line is unchanged. In ports format only `---` and `+++` lines change, they stay lines of the same kind, and every line keeps its final newline. |
| `HeaderRewrite.NormalizeIdempotent` | mkpatch/mkpatch.py:74-80 | Normalising an output line twice gives what normalising it once gives. |
| `HeaderRewrite.DeletedLineRewritten` | mkpatch/mkpatch.py:76-77 | The test is on the line alone: in ports format a deleted body line whose text begins with `--` and ends in `.<digits> +0000` has that tail replaced by ` UTC`, like the `---` header. |
| `HeaderRewrite.AddedLineRewritten` | mkpatch/mkpatch.py:78-79 | Likewise an added body line whose text begins with `++` and ends in a time stamp loses the time stamp, like the `+++` header. |
| `HeaderRewrite.WriteDiffOutput` | mkpatch/mkpatch.py:74-80 | The written lines are `NormalizeAll` of the lines read: one written line per line read, in order, each the rewrite of the line read. Outside ports format the output is the input. |
| `Pairing.StripTrailingSlashes` | mkpatch/mkpatch.py:85 | `path.rstrip('/')`: the longest prefix of the path that does not end in `/`, with only `/` removed after it. |
| `Pairing.OriginalOfFileArg` | mkpatch/mkpatch.py:93-94 | The original named by a file argument is the argument or the argument with the suffix appended, and it ends in the suffix (`HasSuffix`, the model of the test on line 93). It is the argument itself iff the argument already ends in the suffix. |
| `Pairing.OriginalOfFileArgIdempotent` | mkpatch/mkpatch.py:93-94 | Applying the rule twice gives what applying it once gives. |
| `Pairing.StripDotSlash` | mkpatch/mkpatch.py:105 | One leading `./` is removed exactly when there is one, and the rest is kept. |
| `Pairing.MatchOriginalSpec` | mkpatch/mkpatch.py:106-109 | `MatchOriginal` is the model of lines 106-109. The modified file is group 1 of the leftmost match of `(.+)SUFFIX$` (the nonempty newline-free run in front of the suffix at the end). There is no pair when the pattern does not match. |
| `Pairing.MatchOriginalNoNewline` | mkpatch/mkpatch.py:106-109 | For a path without a newline there is a pair iff the path is strictly longer than the suffix and ends with it. The modified file is then the path without the suffix. |
| `Pairing.MatchAfterAppend` | mkpatch/mkpatch.py:106-109 | Round trip: a nonempty newline-free name with the suffix appended pairs back with that name. |
| `Pairing.FileArgPairsWithItself` | mkpatch/mkpatch.py:92-109 | A file argument given without the suffix is compared against its original: the original named for it pairs back with the argument, less any leading `./`. |
| `Pairing.OriginalOfFileArgAsWritten` | mkpatch/mkpatch.py:93 | Line 93 with the suffix read as a regular expression: the result is the argument or the argument with the suffix. |
| `Pairing.MatchOriginalAsWritten` | mkpatch/mkpatch.py:106 | Line 106 with the suffix read as a regular expression: a pair's modified file is nonempty and has no newline. |
| `Pairing.WildcardSuffixMismatch` | mkpatch/mkpatch.py:93-106 | With `.orig`, the pattern reading pairs `notes_orig` with `notes` and appends no suffix to it. The literal reading pairs nothing and names the original `notes_orig.orig`. |
| `Pairing.AsWrittenAgreesWithoutDot` | mkpatch/mkpatch.py:93-106 | For a suffix without a `.`, the pattern reading and the literal reading agree on both lines. |
| `Pairing.PathJoin` | mkpatch/mkpatch.py:99 | `os.path.join(root, name)` ends with the name and, unless the name is absolute, begins with the root. |
| `Pairing.DirPaths` | mkpatch/mkpatch.py:98-99 | One joined path per file of a visited directory, in the order of its files. |
| `Pairing.WalkPathsMembers` | mkpatch/mkpatch.py:97-99 | `WalkPaths`, the model of the `paths` lines 96-99 collect, holds exactly these paths: a path is collected iff it is some file of some visited directory joined to that directory. |
| `Pairing.CollectWalk` | mkpatch/mkpatch.py:97-99 | The nested loops collect the joined paths directory by directory, in the order of the walk. |
| `Pairing.JoinFiles` | mkpatch/mkpatch.py:98-99 | The inner loop joins every file of one directory to it, in order. |
| `Pairing.LexLeqTotal` | mkpatch/mkpatch.py:104 | Python's string order is total. |
| `Pairing.LexLeqReflexive` | mkpatch/mkpatch.py:104 | Every string is at most itself. |
| `Pairing.LexLeqAntisymmetric` | mkpatch/mkpatch.py:104 | Two strings each at most the other are equal. |
| `Pairing.LexLeqTransitive` | mkpatch/mkpatch.py:104 | The string order is transitive. |
| `Pairing.Insert` | mkpatch/mkpatch.py:104 | Inserting into a sorted sequence keeps it sorted and adds exactly the one element. |
| `Pairing.Sort` | mkpatch/mkpatch.py:104 | `sorted(paths)` is sorted and a permutation of `paths`. |
| `Pairing.SortedHeadLeast` | mkpatch/mkpatch.py:104 | The first element of a sorted sequence is at most each of its elements. |
| `Pairing.SortedUnique` | mkpatch/mkpatch.py:104 | Two sorted permutations of the same strings are equal, so `Sort` gives what `sorted` gives. |
| `Pairing.PairOf` | mkpatch/mkpatch.py:105-109 | One candidate gives at most one pair. |
| `Pairing.PairsOfConcat` | mkpatch/mkpatch.py:104-109 | The pairs of consecutive runs of candidates follow each other, so the loop keeps the order of the sorted candidates. |
| `Pairing.PairsOfMembers` | mkpatch/mkpatch.py:104-109 | `PairsOf` is the model of the pairs the loop of lines 104-109 diffs. A pair is diffed iff some candidate, less its leading `./`, is the pair's original and the suffix match gives the pair's modified file. |
| `Pairing.DotWalkPairs` | mkpatch/mkpatch.py:104-109 | The pair loop over the candidate list `./a<suffix>`, `./b<suffix>`, `./c`, taken in that order, for an unrelated `c`, pairs `a` and then `b`, and skips `c`. |
| `Pairing.DotWalkOfThree` | mkpatch/mkpatch.py:97-99 | A walk of `.` that visits one directory with three relative files collects them under `./`, in the order visited. |
| `Pairing.DotJoin` | mkpatch/mkpatch.py:99 | A relative name joined to `.` is the name under `./`. |
| `Pairing.SortThree` | mkpatch/mkpatch.py:104 | `sorted` puts three strings, given in descending order, into ascending order. |
| `Pairing.LexLeqAfterPrefix` | mkpatch/mkpatch.py:104 | A common prefix such as `./` keeps the order of two strings. |
| `Filesystem.Resolve` | mkpatch/mkpatch.py:110-113 | Following links gives a node or nothing. A missing or empty name gives nothing, and a node name gives its node. |
| `Filesystem.GetSize` | mkpatch/mkpatch.py:113 | `os.path.getsize` succeeds exactly when the path exists (`PathExists`, the model of `os.path.exists` on line 110). |
| `Filesystem.StatOf` | mkpatch/mkpatch.py:86-96 | `os.stat` fails exactly when the path does not exist. |
| `Filesystem.ResolveAfterNewLink` | mkpatch/mkpatch.py:110-113 | A link added under a name that was not there changes no resolution that succeeded before. |
| `Filesystem.GetSizeAfterNewLink` | mkpatch/mkpatch.py:112-113 | Making the stand-in link leaves every readable size as it was, so the original's size is read as before. |
| `Filesystem.RemoveNewLink` | mkpatch/mkpatch.py:112-119 | Removing the link made under a fresh name gives back the filesystem as it was. |
| `Filesystem.FileSystem.Symlink` | mkpatch/mkpatch.py:112 | `os.symlink` succeeds iff the name is not taken (not even by a dangling link), and then adds exactly that link. Otherwise nothing changes. |
| `Filesystem.FileSystem.Unlink` | mkpatch/mkpatch.py:119 | `os.unlink` succeeds iff the name is there and is not a directory, and then removes exactly that name. Otherwise nothing changes. |
| `Patch.Diff` | mkpatch/mkpatch.py:54-81 | The command line is the one `BuildCommand` specifies. The output is `Preamble`, the model of the `Index:` and command lines (outside ports format) followed by `diff`'s lines after the header rewrite. |
| `Patch.EmitPair` | mkpatch/mkpatch.py:110-119 | `PairRaises`, `SeenBy`, `CallFor` and `LeftBehind` model lines 110-119. With `diff()` taken never to raise, the steps for one pair raise (`PairRaises`) exactly when the link cannot be made or the original's size cannot be read. Otherwise the diff runs on the filesystem with a `/dev/null` link for a missing modified file, against `/dev/null` for an empty original, and the filesystem is afterwards as it was. When an exception comes, the link made before it stays. |
| `Patch.SlashesOnlyUnusable` | mkpatch/mkpatch.py:85-90 | A path of slashes alone, such as `/`, is stripped to nothing, cannot be stat'ed, and gives status 1. |
| `Patch.MkPatch` | mkpatch/mkpatch.py:84-121 | `Unusable` models the failed `stat` and the neither-file-nor-directory case of lines 86-102, `Candidates` the `paths` of lines 92-99, and `PairsFor` the pairs of lines 104-109. Status 1 and no runs for an unusable path. Otherwise status 0 after every pair, in order, has had its run, with the filesystem unchanged. An exception comes exactly when one of the pairs raises (`PairRaises`: with `diff()` taken never to raise, the link or the size fails), after the runs of the pairs before it. The output is the runs' output in order. |
| `Patch.DirectoryCandidates` | mkpatch/mkpatch.py:96-99 | The candidates of a directory argument are the files its walk finds. |
| `Patch.DotDirectoryPairs` | mkpatch/mkpatch.py:96-109 | Comparing `.` when the walk finds an unrelated `c`, then `b<suffix>`, then `a<suffix>`, with `a<suffix>` ≤ `b<suffix>` ≤ `c`: the candidates are sorted first, so `a` is diffed before `b`, and `c` is skipped. |
| `Patch.RunsForRaises` | mkpatch/mkpatch.py:104-121 | The loop over the pairs ends in an exception exactly when one of the pairs raises (`PairRaises`, with `diff()` taken never to raise). |
| `Patch.DiffPairs` | mkpatch/mkpatch.py:104-121 | The loop runs `diff` for each pair of the sorted candidates in order and skips candidates without a match. It stops at the first pair that raises, leaving that pair's link behind. |
| `Patch.NoPairRaises` | mkpatch/mkpatch.py:104-121 | When every pair has had its run, none of them raised. |
| `Driver.IndexPath` | mkpatch/mkpatch.py:161 | A path read from an `Index:` line is nonempty, has no newline and does not end in whitespace. |
| `Driver.IndexPathSpec` | mkpatch/mkpatch.py:161 | `re.search('^Index:\s(.+)$', line.rstrip())` gives `v` iff the stripped line is `Index:`, one whitespace character and `v`, with `v` nonempty and free of newlines. |
| `Driver.IndexOfPreamble` | mkpatch/mkpatch.py:161 | Round trip with line 72: the `Index:` line printed ahead of a diff gives back the modified file, when its name has no newline and does not end in whitespace. |
| `Driver.IndexPathsMembers` | mkpatch/mkpatch.py:160-163 | `IndexPathsOf` is the model of the paths lines 160-163 read. A path is read from the patch file iff one of its lines gives it. |
| `Driver.ReadIndexPaths` | mkpatch/mkpatch.py:158-163 | The loop over the patch file collects the paths its lines give, in the order of the lines. |
| `Driver.GivenPaths` | mkpatch/mkpatch.py:158-163 | The given paths are the command-line paths followed by exactly the paths read from a readable patch file (`IndexPathsOf`), and the command-line paths alone otherwise. |
| `Driver.PathsOf` | mkpatch/mkpatch.py:167-168 | The paths compared are exactly the given paths when there are any, and exactly `["."]` when there are none, whether or not a patch file was read. |
| `Driver.ExitCodeIsOne` | mkpatch/mkpatch.py:170-174 | `ExitCode` is the model of `ret` after lines 170-173. The OR of the statuses is 1 iff some path cannot be stat'ed or is neither a file nor a directory, and 0 otherwise. |
| `Driver.AnyOfIff` | mkpatch/mkpatch.py:171-173 | The loop's view of "some path so far has a property" holds iff some element has it. |
| `Driver.CompareAll` | mkpatch/mkpatch.py:170-174 | The loop ends in an exception exactly when some path raises. Otherwise it returns the OR of the per-path statuses (`ExitCode`) and, after this normal return, leaves the filesystem as it was. |
| `Driver.ComparePath` | mkpatch/mkpatch.py:172 | One `mkpatch()` call raises exactly when its path raises. Otherwise it returns that path's status (`Status`) and, after this normal return, leaves the filesystem unchanged. |
| `Driver.Run` | mkpatch/mkpatch.py:158-174 | An unreadable patch file gives status 1 before any path is compared. Otherwise the paths of `PathsOf` are compared as `CompareAll` states. |

## Left out

- Spawning `diff`, reading its output and waiting for it (lines 67-70, 81) are
  I/O. `diff` is the parameter `DiffTool`, and its merged standard output
  and error is the sequence of lines it returns. The model says nothing
  about `diff` itself.
- `diff()` is taken never to raise. In the source it can also raise from
  `Popen` (line 67), from decoding `diff`'s output (line 74) or from writing
  a line (line 80). Such an exception skips the unlink of line 119 as well,
  so the `/dev/null` link made at line 112 stays behind. Neither the
  exception nor that link is modelled: `PairRaises` covers only the link
  and the size failing.
- Setting `TZ=UTC` for `diff` in ports format (lines 63-66) only affects how
  the external program renders time. It is not modelled.
- `sys.stdout` is a sequence of written lines. Text encoding and decoding
  errors are not modelled.
- `os.walk` (line 97) is the parameter `walkOf`: the directories it visits,
  each with its files, in its order. Its own traversal order and its
  silently ignored errors are part of that input.
- The filesystem is a flat map from names to entries. A link's target is
  looked up as a name of the same map. Relative link targets, directory
  permissions and `os.symlink` failing for a missing parent directory are
  not modelled. In particular, `os.symlink` fails in the model only when the
  name is taken.
- `warnx`/`errx` messages and their scrubbing (lines 44-51, 89, 101, 165) are
  diagnostic output. The model has only the statuses they come with.
- Argument parsing with argparse/optparse (lines 125-157) is not modelled.
  The parsed options are the datatypes `Options` and `Args`.
- The Windows newline rewrap of standard output (lines 178-179) is not
  modelled.
- `\d` (line 77) is modelled as the ASCII digits. Python also matches other
  Unicode decimal digits there.
- The suffix is taken as a literal string without a newline. The source
  interpolates it into its patterns unescaped. The `.` case is under
  Findings. Other regular-expression metacharacters in a user's `-s` and a
  suffix containing a newline are not modelled.
- Exceptions are the single outcome `Raised`. Their type, their message and
  Python's exit status for an uncaught exception are not modelled.
- An error while reading the `-r` file part way through is modelled as
  `Unreadable`: `errx(1, ...)` before any path is compared. The paths read
  before the error are not used either way.
- Driver.Run: states the exit status, and the final filesystem after a
  normal return; not the concatenated output of all paths, and not the
  filesystem an exception leaves. Both are stated per path by
  `Patch.MkPatch`.
- Driver.CompareAll: states the exit status, and the final filesystem after
  a normal return; not the output, and not the filesystem an exception
  leaves.
- Driver.ComparePath: states the status, and the filesystem after a normal
  return; not the output, and not the filesystem an exception leaves.
  `Patch.MkPatch` states both.
- A modified file whose name ends in whitespace or holds a newline is
  written in an `Index:` line that `-r` does not read back as it was. This
  is stated as the precondition of `Driver.IndexOfPreamble`, not modelled
  further.

## Findings

| source | as written | input that shows it | evidently intended | confidence | as-written member | corrected member |
|---|---|---|---|---|---|---|
| mkpatch/mkpatch.py:106 | The suffix is interpolated unescaped into `(.+)SUFFIX$`, so the `.` of `.orig` matches any character but a newline. | A walked file `notes_orig` with the default suffix is taken for the original of `notes` and paired with it. | Only names that end in the suffix itself are originals, so `notes_orig` pairs with nothing. | not executed | `Pairing.MatchOriginalAsWritten` (shown by `Pairing.WildcardSuffixMismatch`) | `Pairing.MatchOriginal` (proved by `Pairing.MatchOriginalSpec`) |
| mkpatch/mkpatch.py:93 | The suffix is interpolated unescaped into `SUFFIX$`, so the `.` of `.orig` matches any character but a newline. | The file argument `notes_orig` is taken as already naming its original, so no suffix is appended. | The suffix is appended unless the name ends in the suffix itself, so `notes_orig` names `notes_orig.orig`. | not executed | `Pairing.OriginalOfFileArgAsWritten` (shown by `Pairing.WildcardSuffixMismatch`) | `Pairing.OriginalOfFileArg` (proved by `Pairing.OriginalOfFileArgIdempotent`) |
