/** `main()`: the paths to compare come from the command line and from the
    `Index:` lines of a patch file, default to `.`, and are handed to
    `mkpatch()` one by one; the exit status is the bitwise OR of the
    statuses returned. */
module Driver {
  import opened Text
  import opened Pairing
  import opened Filesystem
  import opened Patch

  /** Group 1 of `re.search('^Index:\s(.+)$', line.rstrip())`: what follows
      `Index:` and one whitespace character, when that is a nonempty run
      of non-newline characters reaching the end of the stripped line. */
  function IndexPath(line: string): (r: Option<string>)
    ensures r.Some? ==> |r.value| > 0 && NoNewline(r.value) && !IsSpace(r.value[|r.value| - 1])
  {
    var s := RStrip(line);
    if |s| > 7 && StartsWith(s, "Index:") && IsSpace(s[6]) && NoNewline(s[7..]) then Some(s[7..]) else None
  }

  /** The pattern matches exactly the stripped lines made of `Index:`, one
      whitespace character and the path. */
  lemma IndexPathSpec(line: string, v: string)
    ensures IndexPath(line) == Some(v) <==>
            (|v| > 0 && NoNewline(v) && exists c :: IsSpace(c) && RStrip(line) == "Index:" + [c] + v)
  {
    var s := RStrip(line);
    if IndexPath(line) == Some(v) {
      assert s == "Index:" + [s[6]] + v;
    }
    if |v| > 0 && NoNewline(v) && exists c :: IsSpace(c) && s == "Index:" + [c] + v {
      var c :| IsSpace(c) && s == "Index:" + [c] + v;
      assert s[..6] == "Index:" && s[6] == c && s[7..] == v;
    }
  }

  /** Round trip: the `Index:` line printed ahead of a diff outside ports
      format gives back the modified file, unless its name has a newline
      or ends in whitespace. */
  lemma IndexOfPreamble(newfile: string, command: seq<string>)
    requires |newfile| > 0 && NoNewline(newfile) && !IsSpace(newfile[|newfile| - 1])
    ensures IndexPath(Preamble(newfile, command, false)[0]) == Some(newfile)
  {
    var s := "Index: " + newfile;
    assert s[|s| - 1] == newfile[|newfile| - 1];
    RStripAfter(s, "\n");
    assert s[..6] == "Index:" && s[7..] == newfile;
  }

  /** The paths found in a patch file, in the order of its lines. */
  function IndexPathsOf(lines: seq<string>): seq<string> {
    if lines == [] then []
    else
      var found := IndexPath(lines[|lines| - 1]);
      IndexPathsOf(lines[..|lines| - 1]) + (if found.Some? then [found.value] else [])
  }

  /** Line `k` of the patch file gives path `v`. */
  predicate FoundAt(lines: seq<string>, k: int, v: string) {
    0 <= k < |lines| && IndexPath(lines[k]) == Some(v)
  }

  /** A path is read from the file exactly when one of its lines gives it. */
  lemma IndexPathsMembers(lines: seq<string>, v: string)
    ensures v in IndexPathsOf(lines) <==> exists k :: FoundAt(lines, k, v)
  {
    if v in IndexPathsOf(lines) {
      var k := FoundLine(lines, v);
    }
    if exists k :: FoundAt(lines, k, v) {
      var k :| FoundAt(lines, k, v);
      FoundIsRead(lines, k, v);
    }
  }

  lemma {:induction false} FoundLine(lines: seq<string>, v: string) returns (k: int)
    requires v in IndexPathsOf(lines)
    ensures FoundAt(lines, k, v)
  {
    var init := lines[..|lines| - 1];
    var found := IndexPath(lines[|lines| - 1]);
    assert IndexPathsOf(lines) == IndexPathsOf(init) + (if found.Some? then [found.value] else []);
    if v in IndexPathsOf(init) {
      k := FoundLine(init, v);
      assert init[k] == lines[k];
    } else {
      k := |lines| - 1;
    }
  }

  lemma {:induction false} FoundIsRead(lines: seq<string>, k: int, v: string)
    requires FoundAt(lines, k, v)
    ensures v in IndexPathsOf(lines)
    decreases |lines|
  {
    var init := lines[..|lines| - 1];
    var found := IndexPath(lines[|lines| - 1]);
    assert IndexPathsOf(lines) == IndexPathsOf(init) + (if found.Some? then [found.value] else []);
    if k < |init| {
      assert init[k] == lines[k];
      FoundIsRead(init, k, v);
    }
  }

  /** The loop of lines 160-163 over the patch file. */
  method ReadIndexPaths(lines: seq<string>) returns (paths: seq<string>)
    ensures paths == IndexPathsOf(lines)
  {
    paths := [];
    for i := 0 to |lines|
      invariant paths == IndexPathsOf(lines[..i])
    {
      assert lines[..i + 1][..i] == lines[..i];
      var found := IndexPath(lines[i]);
      if found.Some? {
        paths := paths + [found.value];
      }
    }
    assert lines[..|lines|] == lines;
  }

  /** The patch file named by `-r`: not given, unreadable, or its lines. */
  datatype IndexFile = NotGiven | Unreadable | Readable(lines: seq<string>)

  datatype Args = Args(paths: seq<string>, indexFile: IndexFile, opts: Options)

  /** The paths given to `main()`: those on the command line, followed by
      those read from the patch file. */
  function GivenPaths(args: Args): (r: seq<string>)
    ensures |args.paths| <= |r| && r[..|args.paths|] == args.paths
    ensures args.indexFile.Readable? ==> r[|args.paths|..] == IndexPathsOf(args.indexFile.lines)
    ensures !args.indexFile.Readable? ==> r == args.paths
  {
    args.paths + if args.indexFile.Readable? then IndexPathsOf(args.indexFile.lines) else []
  }

  /** The paths `main()` hands to `mkpatch()`: the given ones, or `.` alone
      when none are given. */
  function PathsOf(args: Args): (r: seq<string>)
    ensures |r| > 0
    ensures GivenPaths(args) == [] ==> r == ["."]
    ensures GivenPaths(args) != [] ==> r == GivenPaths(args)
  {
    var given := GivenPaths(args);
    if given == [] then ["."] else given
  }

  /** `main()` after the options are parsed. An unreadable patch file ends
      the program with status 1 before any path is compared; otherwise the
      paths are compared in turn, as `CompareAll` does. */
  method Run(fs: FileSystem, args: Args, walkOf: string -> seq<WalkStep>, diffTool: DiffTool)
    returns (exit: Outcome, out: seq<string>)
    modifies fs
    ensures args.indexFile.Unreadable? ==> exit == Returned(1) && out == [] && fs.entries == old(fs.entries)
    ensures !args.indexFile.Unreadable? ==>
              CompareAllSpec(old(fs.entries), PathsOf(args), args.opts, walkOf, exit, fs.entries)
  {
    if args.indexFile.Unreadable? {
      return Returned(1), [];
    }
    var paths := args.paths;
    if args.indexFile.Readable? {
      var found := ReadIndexPaths(args.indexFile.lines);
      paths := paths + found;
    }
    if |paths| == 0 {
      paths := paths + ["."];
    }
    assert paths == PathsOf(args);
    exit, out := CompareAll(fs, paths, args.opts, walkOf, diffTool);
  }

  /** `ret |= mkpatch(path, ...)` over the paths, from `ret = 0`. */
  function ExitCode(entries: Entries, paths: seq<string>): bv8 {
    if paths == [] then 0
    else ExitCode(entries, paths[..|paths| - 1]) | Status(entries, paths[|paths| - 1])
  }

  /** The exit status is 1 exactly when some path is unusable, and 0
      otherwise. */
  lemma {:induction false} ExitCodeIsOne(entries: Entries, paths: seq<string>)
    ensures ExitCode(entries, paths) == if exists k :: 0 <= k < |paths| && Unusable(entries, paths[k]) then 1 else 0
  {
    if paths != [] {
      var init := paths[..|paths| - 1];
      ExitCodeIsOne(entries, init);
      if exists k :: 0 <= k < |init| && Unusable(entries, init[k]) {
        var k :| 0 <= k < |init| && Unusable(entries, init[k]);
        assert paths[k] == init[k];
      }
      if exists k :: 0 <= k < |paths| && Unusable(entries, paths[k]) {
        var k :| 0 <= k < |paths| && Unusable(entries, paths[k]);
        if k < |init| {
          assert init[k] == paths[k];
        }
      }
    }
  }

  /** Some element of `paths` has property `f`, looked at from the back as
      the loop of lines 170-174 builds up its list. */
  predicate AnyOf(paths: seq<string>, f: string -> bool) {
    paths != [] && (AnyOf(paths[..|paths| - 1], f) || f(paths[|paths| - 1]))
  }

  lemma AnyOfIff(paths: seq<string>, f: string -> bool)
    ensures AnyOf(paths, f) <==> exists k :: 0 <= k < |paths| && f(paths[k])
  {
    if AnyOf(paths, f) {
      var k := Witness(paths, f);
    }
    if exists k :: 0 <= k < |paths| && f(paths[k]) {
      var k :| 0 <= k < |paths| && f(paths[k]);
      AnyOfAt(paths, k, f);
    }
  }

  lemma {:induction false} Witness(paths: seq<string>, f: string -> bool) returns (k: int)
    requires AnyOf(paths, f)
    ensures 0 <= k < |paths| && f(paths[k])
  {
    var init := paths[..|paths| - 1];
    if AnyOf(init, f) {
      k := Witness(init, f);
      assert init[k] == paths[k];
    } else {
      k := |paths| - 1;
    }
  }

  lemma {:induction false} AnyOfAt(paths: seq<string>, k: int, f: string -> bool)
    requires 0 <= k < |paths| && f(paths[k])
    ensures AnyOf(paths, f)
    decreases |paths|
  {
    var init := paths[..|paths| - 1];
    if k < |init| {
      assert init[k] == paths[k];
      AnyOfAt(init, k, f);
    }
  }

  /** Some path of `paths` ends in an exception. */
  predicate AnyRaises(entries: Entries, paths: seq<string>, opts: Options, walkOf: string -> seq<WalkStep>) {
    AnyOf(paths, p => PathRaises(entries, p, opts, walkOf))
  }

  /** What comparing `paths` from `entries` ends with: an exception exactly
      when some path raises; otherwise the OR of the statuses, with the
      filesystem as it was. */
  predicate CompareAllSpec(entries: Entries, paths: seq<string>, opts: Options,
                           walkOf: string -> seq<WalkStep>, exit: Outcome, after: Entries)
  {
    && (exit.Raised? <==> AnyRaises(entries, paths, opts, walkOf))
    && (exit.Returned? ==> exit.code == ExitCode(entries, paths) && after == entries)
  }

  /** The loop of lines 170-174. */
  method CompareAll(fs: FileSystem, paths: seq<string>, opts: Options,
                    walkOf: string -> seq<WalkStep>, diffTool: DiffTool)
    returns (exit: Outcome, out: seq<string>)
    modifies fs
    ensures CompareAllSpec(old(fs.entries), paths, opts, walkOf, exit, fs.entries)
  {
    ghost var entries := fs.entries;
    var ret: bv8 := 0;
    out := [];
    for i := 0 to |paths|
      invariant fs.entries == entries
      invariant ret == ExitCode(entries, paths[..i])
      invariant !AnyRaises(entries, paths[..i], opts, walkOf)
    {
      var outcome, o := ComparePath(fs, paths[i], opts, walkOf, diffTool);
      out := out + o;
      if outcome.Raised? {
        AnyOfAt(paths, i, p => PathRaises(entries, p, opts, walkOf));
        return Raised, out;
      }
      CompareStep(entries, paths, i, opts, walkOf);
      ret := ret | outcome.code;
    }
    assert paths[..|paths|] == paths;
    exit := Returned(ret);
  }

  /** One more path that returns extends both loop invariants. */
  lemma CompareStep(entries: Entries, paths: seq<string>, i: nat, opts: Options,
                    walkOf: string -> seq<WalkStep>)
    requires i < |paths|
    requires !AnyRaises(entries, paths[..i], opts, walkOf) && !PathRaises(entries, paths[i], opts, walkOf)
    ensures !AnyRaises(entries, paths[..i + 1], opts, walkOf)
    ensures ExitCode(entries, paths[..i + 1]) == ExitCode(entries, paths[..i]) | Status(entries, paths[i])
  {
    assert paths[..i + 1][..i] == paths[..i];
  }

  /** One call `mkpatch(path, ...)` of the loop, seen from the loop: whether
      it raises, the status it returns, and the filesystem it leaves. */
  method ComparePath(fs: FileSystem, path: string, opts: Options,
                     walkOf: string -> seq<WalkStep>, diffTool: DiffTool)
    returns (outcome: Outcome, out: seq<string>)
    modifies fs
    ensures outcome.Raised? <==> PathRaises(old(fs.entries), path, opts, walkOf)
    ensures outcome.Returned? ==> outcome.code == Status(old(fs.entries), path) && fs.entries == old(fs.entries)
  {
    var invs;
    outcome, out, invs := MkPatch(fs, path, opts, walkOf, diffTool);
  }
}
