/** `diff()` and `mkpatch()`: one path argument becomes a sequence of
    `diff` runs, one per (original, modified) pair, whose output is written
    in order. A modified file that is gone is stood in for by a link to
    `/dev/null` for the length of its run, and an empty original is
    replaced by `/dev/null`. */
module Patch {
  import opened Text
  import opened DiffCommand
  import opened HeaderRewrite
  import opened Pairing
  import opened Filesystem

  /** The command-line options `mkpatch()` receives. */
  datatype Options = Options(suffix: Suffix, ignspcchg: bool, diffopts: seq<string>, portsFormat: bool)

  /** The external `diff`: the lines it prints for a command line, given
      the filesystem it runs against. */
  type DiffTool = (seq<string>, Entries) -> seq<string>

  /** The two lines printed ahead of `diff`'s output outside ports format. */
  function Preamble(newfile: string, command: seq<string>, portsFormat: bool): seq<string> {
    if portsFormat then [] else ["Index: " + newfile + "\n", Join(command, " ") + "\n"]
  }

  /** `diff(oldfile, newfile, ...)`: builds the command, prints the
      preamble, and copies `diff`'s output through the header rewrite. */
  method Diff(entries: Entries, oldfile: string, newfile: string, opts: Options, diffTool: DiffTool)
    returns (out: seq<string>, command: seq<string>)
    ensures IsDiffCommand(command, oldfile, newfile, opts.ignspcchg, opts.diffopts, opts.portsFormat)
    ensures out == Preamble(newfile, command, opts.portsFormat)
                   + NormalizeAll(diffTool(command, entries), opts.portsFormat)
  {
    command := BuildCommand(oldfile, newfile, opts.ignspcchg, opts.diffopts, opts.portsFormat);
    var lines := diffTool(command, entries);
    var written := WriteDiffOutput(lines, opts.portsFormat);
    out := Preamble(newfile, command, opts.portsFormat) + written;
  }

  /** One run of `diff`: the old side it was given, the modified file, its
      command line and the filesystem it saw. */
  datatype Invocation = Invocation(oldSide: string, newfile: string, command: seq<string>, seen: Entries)

  /** The filesystem while the pair is diffed: with a link from the
      modified file to `/dev/null` when that file does not exist. */
  function SeenBy(entries: Entries, pair: Pair): Entries {
    if PathExists(entries, pair.newfile) then entries else entries[pair.newfile := Link(DevNull)]
  }

  /** The pair stops mkpatch with an exception: the link cannot be made
      because the name is taken by something that does not exist (a
      dangling link), or the size of the original cannot be read. `diff()`
      is taken never to raise, so these are the only exceptions. */
  predicate PairRaises(entries: Entries, pair: Pair) {
    || (!PathExists(entries, pair.newfile) && pair.newfile in entries)
    || GetSize(SeenBy(entries, pair), pair.oldfile).None?
  }

  /** What diffing `pair` from `entries` amounts to: the run sees the
      filesystem with the stand-in link, the old side is `/dev/null` when
      the original is empty, and the command is the one `diff()` builds. */
  predicate CallFor(inv: Invocation, pair: Pair, entries: Entries, opts: Options) {
    && !PairRaises(entries, pair)
    && inv.newfile == pair.newfile
    && inv.seen == SeenBy(entries, pair)
    && inv.oldSide == (if GetSize(inv.seen, pair.oldfile) == Some(0) then DevNull else pair.oldfile)
    && IsDiffCommand(inv.command, inv.oldSide, pair.newfile, opts.ignspcchg, opts.diffopts, opts.portsFormat)
  }

  /** What a run writes to standard output. */
  function Output(inv: Invocation, opts: Options, diffTool: DiffTool): seq<string> {
    Preamble(inv.newfile, inv.command, opts.portsFormat)
    + NormalizeAll(diffTool(inv.command, inv.seen), opts.portsFormat)
  }

  function OutputOf(invs: seq<Invocation>, opts: Options, diffTool: DiffTool): seq<string> {
    if invs == [] then [] else OutputOf(invs[..|invs| - 1], opts, diffTool) + Output(invs[|invs| - 1], opts, diffTool)
  }

  /** The filesystem an exception leaves: with the stand-in link when it
      was made before the exception. */
  function LeftBehind(entries: Entries, pair: Pair): Entries {
    if pair.newfile in entries then entries else entries[pair.newfile := Link(DevNull)]
  }

  /** Lines 110-119 for one pair. Returns the run, or nothing when an
      exception stops mkpatch. */
  method EmitPair(fs: FileSystem, pair: Pair, opts: Options, diffTool: DiffTool)
    returns (result: Option<Invocation>, out: seq<string>)
    modifies fs
    ensures result.None? <==> PairRaises(old(fs.entries), pair)
    ensures result.Some? ==> && CallFor(result.value, pair, old(fs.entries), opts)
                             && out == Output(result.value, opts, diffTool)
                             && fs.entries == old(fs.entries)
    ensures result.None? ==> out == [] && fs.entries == LeftBehind(old(fs.entries), pair)
  {
    ghost var before := fs.entries;
    out := [];
    var removed := !PathExists(fs.entries, pair.newfile);
    if removed {
      var ok := fs.Symlink(DevNull, pair.newfile);
      if !ok {
        return None, [];
      }
      RemoveNewLink(before, pair.newfile, DevNull);
    }
    assert fs.entries == SeenBy(before, pair);
    var size := GetSize(fs.entries, pair.oldfile);
    if size.None? {
      return None, [];
    }
    var oldSide := if size.value == 0 then DevNull else pair.oldfile;
    var command;
    out, command := Diff(fs.entries, oldSide, pair.newfile, opts, diffTool);
    result := Some(Invocation(oldSide, pair.newfile, command, fs.entries));
    if removed {
      var _ := fs.Unlink(pair.newfile);
    }
  }

  /** Every run is the one its pair calls for. */
  predicate AllCalls(invs: seq<Invocation>, pairs: seq<Pair>, entries: Entries, opts: Options) {
    |invs| == |pairs| && forall k :: 0 <= k < |invs| ==> CallFor(invs[k], pairs[k], entries, opts)
  }

  /** `mkpatch()` returns a status, or an exception leaves it. */
  datatype Outcome = Returned(code: bv8) | Raised

  /** The path argument cannot be diffed: it does not exist, or it is
      neither a regular file nor a directory. It then gives status 1. */
  predicate Unusable(entries: Entries, path: string) {
    var kind := StatOf(entries, StripTrailingSlashes(path));
    kind == Missing || kind == IsOther
  }

  /** A path made of slashes alone, such as `/`, loses all of them and
      names nothing, so it is unusable. */
  lemma SlashesOnlyUnusable(entries: Entries, path: string)
    requires forall k :: 0 <= k < |path| ==> path[k] == '/'
    ensures Unusable(entries, path)
  {
  }

  /** The status `mkpatch()` returns for a path when no exception comes. */
  function Status(entries: Entries, path: string): bv8 {
    if Unusable(entries, path) then 1 else 0
  }

  /** The candidate originals for a usable path: the file argument's
      original, or every file found by walking the directory. */
  function Candidates(entries: Entries, path: string, suffix: Suffix,
                      walkOf: string -> seq<WalkStep>): seq<string>
  {
    var p := StripTrailingSlashes(path);
    if StatOf(entries, p) == IsFile then [OriginalOfFileArg(p, suffix)] else WalkPaths(walkOf(p))
  }

  /** The pairs of a path argument, in the order they are diffed. */
  function PairsFor(entries: Entries, path: string, suffix: Suffix,
                    walkOf: string -> seq<WalkStep>): seq<Pair>
  {
    PairsOf(Sort(Candidates(entries, path, suffix, walkOf)), suffix)
  }

  /** The path argument ends in an exception: it is usable and one of its
      pairs raises. */
  predicate PathRaises(entries: Entries, path: string, opts: Options, walkOf: string -> seq<WalkStep>) {
    && !Unusable(entries, path)
    && exists q :: q in PairsFor(entries, path, opts.suffix, walkOf) && PairRaises(entries, q)
  }

  /** Comparing `.` when the walk finds `c`, then the original of `b`,
      then the original of `a`: the candidates are sorted first, so `a` is
      diffed before `b`, and the unrelated `c` is skipped. */
  lemma DotDirectoryPairs(entries: Entries, a: string, b: string, c: string, suffix: Suffix,
                          walkOf: string -> seq<WalkStep>)
    requires StatOf(entries, ".") == IsDir
    requires |a| > 0 && NoNewline(a) && a[0] != '/'
    requires |b| > 0 && NoNewline(b) && b[0] != '/'
    requires |c| > 0 && NoNewline(c) && c[0] != '/' && !EndsWith(c, suffix)
    requires LexLeq(a + suffix, b + suffix) && LexLeq(b + suffix, c)
    requires walkOf(".") == [WalkStep(".", [c, b + suffix, a + suffix])]
    ensures PairsFor(entries, ".", suffix, walkOf) == [Pair(a + suffix, a), Pair(b + suffix, b)]
  {
    var x, y, z := "./" + (a + suffix), "./" + (b + suffix), "./" + c;
    DirectoryCandidates(entries, ".", suffix, walkOf);
    assert (a + suffix)[0] == a[0] && (b + suffix)[0] == b[0];
    DotWalkOfThree(c, b + suffix, a + suffix);
    LexLeqAfterPrefix("./", a + suffix, b + suffix);
    LexLeqAfterPrefix("./", b + suffix, c);
    SortThree(x, y, z);
    DotWalkPairs(a, b, c, suffix);
  }

  /** A directory argument's candidates are the files its walk finds. */
  lemma DirectoryCandidates(entries: Entries, path: string, suffix: Suffix,
                            walkOf: string -> seq<WalkStep>)
    requires StatOf(entries, StripTrailingSlashes(path)) == IsDir
    ensures Candidates(entries, path, suffix, walkOf) == WalkPaths(walkOf(StripTrailingSlashes(path)))
  {
  }

  /** `mkpatch(path, ...)`. It returns 1 for an unusable path and 0 after
      diffing every pair in order; the stand-in links are gone again and
      the writes are the runs' output in order. An exception stops it at
      the first pair that raises, after the runs of the pairs before it. */
  method MkPatch(fs: FileSystem, path: string, opts: Options, walkOf: string -> seq<WalkStep>,
                 diffTool: DiffTool)
    returns (outcome: Outcome, out: seq<string>, invs: seq<Invocation>)
    modifies fs
    ensures outcome.Raised? <==> PathRaises(old(fs.entries), path, opts, walkOf)
    ensures outcome.Returned? ==> && outcome.code == Status(old(fs.entries), path)
                                  && fs.entries == old(fs.entries)
    ensures Unusable(old(fs.entries), path) ==> invs == [] && out == []
    ensures !Unusable(old(fs.entries), path) ==>
              RunsFor(PairsFor(old(fs.entries), path, opts.suffix, walkOf), old(fs.entries), opts,
                      outcome.Raised?, invs, fs.entries)
    ensures out == OutputOf(invs, opts, diffTool)
  {
    ghost var entries := fs.entries;
    var p := StripTrailingSlashes(path);
    var kind := StatOf(fs.entries, p);
    var paths: seq<string> := [];
    if kind == IsFile {
      paths := paths + [OriginalOfFileArg(p, opts.suffix)];
    } else if kind == IsDir {
      paths := CollectWalk(walkOf(p));
    } else {
      return Returned(1), [], [];
    }
    assert !Unusable(entries, path);
    assert paths == Candidates(entries, path, opts.suffix, walkOf);
    ghost var pairs := PairsFor(entries, path, opts.suffix, walkOf);
    assert pairs == PairsOf(Sort(paths), opts.suffix);
    var raised;
    raised, out, invs := DiffPairs(fs, Sort(paths), opts, diffTool);
    RunsForRaises(pairs, entries, opts, raised, invs, fs.entries);
    assert raised <==> PathRaises(entries, path, opts, walkOf);
    outcome := if raised then Raised else Returned(0);
  }

  /** The runs `invs` are those of `pairs` from `entries`: all of them with
      the filesystem as it was, or, when an exception came, those in front
      of the pair that raised, with that pair's stand-in link left behind. */
  predicate RunsFor(pairs: seq<Pair>, entries: Entries, opts: Options, raised: bool,
                    invs: seq<Invocation>, after: Entries)
  {
    if raised then
      && |invs| < |pairs|
      && AllCalls(invs, pairs[..|invs|], entries, opts)
      && PairRaises(entries, pairs[|invs|])
      && after == LeftBehind(entries, pairs[|invs|])
    else AllCalls(invs, pairs, entries, opts) && after == entries
  }

  /** An exception came exactly when one of the pairs raises. */
  lemma RunsForRaises(pairs: seq<Pair>, entries: Entries, opts: Options, raised: bool,
                      invs: seq<Invocation>, after: Entries)
    requires RunsFor(pairs, entries, opts, raised, invs, after)
    ensures raised <==> exists q :: q in pairs && PairRaises(entries, q)
  {
    if raised {
      assert pairs[|invs|] in pairs;
    } else {
      NoPairRaises(invs, pairs, entries, opts);
    }
  }

  /** The loop of lines 104-119 over the sorted candidates. */
  method DiffPairs(fs: FileSystem, sorted: seq<string>, opts: Options, diffTool: DiffTool)
    returns (raised: bool, out: seq<string>, invs: seq<Invocation>)
    modifies fs
    ensures RunsFor(PairsOf(sorted, opts.suffix), old(fs.entries), opts, raised, invs, fs.entries)
    ensures out == OutputOf(invs, opts, diffTool)
  {
    ghost var entries := fs.entries;
    raised, invs, out := false, [], [];
    for i := 0 to |sorted|
      invariant fs.entries == entries
      invariant AllCalls(invs, PairsOf(sorted[..i], opts.suffix), entries, opts)
      invariant out == OutputOf(invs, opts, diffTool)
    {
      PairsOfSplit(sorted, i, opts.suffix);
      PairsOfConcat(sorted[..i + 1], sorted[i + 1..], opts.suffix);
      var oldfile := StripDotSlash(sorted[i]);
      var m := MatchOriginal(oldfile, opts.suffix);
      if m.None? {
        continue;
      }
      var newfile := m.value;
      var pair := Pair(oldfile, newfile);
      var result, o := EmitPair(fs, pair, opts, diffTool);
      if result.None? {
        raised := true;
        RaisedAt(sorted, i, opts.suffix, pair, |invs|);
        return;
      }
      AllCallsAppend(invs, result.value, PairsOf(sorted[..i], opts.suffix), pair, entries, opts);
      OutputOfAppend(invs, result.value, opts, diffTool);
      invs := invs + [result.value];
      out := out + o;
    }
    assert sorted[..|sorted|] == sorted;
  }

  /** The pair of candidate `i` comes right after the pairs in front of it. */
  lemma RaisedAt(sorted: seq<string>, i: nat, suffix: Suffix, pair: Pair, n: nat)
    requires i < |sorted| && n == |PairsOf(sorted[..i], suffix)|
    requires PairOf(sorted[i], suffix) == [pair]
    ensures n < |PairsOf(sorted, suffix)|
    ensures PairsOf(sorted, suffix)[..n] == PairsOf(sorted[..i], suffix)
    ensures PairsOf(sorted, suffix)[n] == pair
  {
    PairsOfSplit(sorted, i, suffix);
    PairAfter(PairsOf(sorted[..i], suffix), pair, PairsOf(sorted[i + 1..], suffix));
  }

  lemma PairAfter(before: seq<Pair>, pair: Pair, after: seq<Pair>)
    ensures |before| < |before + [pair] + after|
    ensures (before + [pair] + after)[..|before|] == before
    ensures (before + [pair] + after)[|before|] == pair
  {
  }

  lemma AllCallsAppend(invs: seq<Invocation>, inv: Invocation, pairs: seq<Pair>, pair: Pair,
                       entries: Entries, opts: Options)
    requires AllCalls(invs, pairs, entries, opts) && CallFor(inv, pair, entries, opts)
    ensures AllCalls(invs + [inv], pairs + [pair], entries, opts)
  {
  }

  lemma OutputOfAppend(invs: seq<Invocation>, inv: Invocation, opts: Options, diffTool: DiffTool)
    ensures OutputOf(invs + [inv], opts, diffTool) == OutputOf(invs, opts, diffTool) + Output(inv, opts, diffTool)
  {
    assert (invs + [inv])[..|invs|] == invs;
  }

  /** When every pair has had its run, none of them raised. */
  lemma NoPairRaises(invs: seq<Invocation>, pairs: seq<Pair>, entries: Entries, opts: Options)
    requires AllCalls(invs, pairs, entries, opts)
    ensures forall q :: q in pairs ==> !PairRaises(entries, q)
  {
    forall q | q in pairs ensures !PairRaises(entries, q) {
      var k :| 0 <= k < |pairs| && pairs[k] == q;
      assert CallFor(invs[k], pairs[k], entries, opts);
    }
  }
}
