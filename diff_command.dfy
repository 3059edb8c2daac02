/** The argument list mkpatch hands to the external `diff` program. */
module DiffCommand {
  import opened Text

  /** `re.search('.+\.' + ext + '$', name)`: `ext` ends the name (or ends it
      just before a final newline) and is preceded by at least one character
      that is not a newline, since `.` does not match a newline. */
  predicate HasExtension(name: string, ext: string) {
    var b := Body(name);
    |b| > |ext| && EndsWith(b, ext) && b[|b| - |ext| - 1] != '\n'
  }

  /** The pattern `.+\.(c|cpp|py)$` that turns on `-p` (show the enclosing
      C function) without ports format. */
  predicate CLikeName(name: string) {
    HasExtension(name, ".c") || HasExtension(name, ".cpp") || HasExtension(name, ".py")
  }

  /** Position of an automatic flag in the fixed order `-b`, `-p`, `-d`;
      3 for anything else. */
  function FlagRank(f: string): int {
    if f == "-b" then 0 else if f == "-p" then 1 else if f == "-d" then 2 else 3
  }

  /** `auto` holds only automatic flags, each at most once, in the order
      `-b`, `-p`, `-d`. */
  predicate InFlagOrder(auto: seq<string>) {
    && (forall k :: 0 <= k < |auto| ==> FlagRank(auto[k]) < 3)
    && (forall i, j :: 0 <= i < j < |auto| ==> FlagRank(auto[i]) < FlagRank(auto[j]))
  }

  /** `auto` is in flag order and holds each flag exactly when it is wanted. */
  predicate AutoFlagsOk(auto: seq<string>, wantB: bool, wantP: bool, wantD: bool) {
    && InFlagOrder(auto)
    && ("-b" in auto <==> wantB)
    && ("-p" in auto <==> wantP)
    && ("-d" in auto <==> wantD)
  }

  /** What the command line of `diff(oldfile, newfile, ...)` looks like:
      `diff -u`, then the user's options in their order, then the automatic
      flags, then the two paths. `-b` comes from `ignspcchg`; `-p` from ports
      format or a C-like name; `-d` from ports format. */
  predicate IsDiffCommand(cmd: seq<string>, oldfile: string, newfile: string,
                          ignspcchg: bool, diffopts: seq<string>, portsFormat: bool)
  {
    && |cmd| >= 4 + |diffopts|
    && cmd[..2] == ["diff", "-u"]
    && cmd[2..2 + |diffopts|] == diffopts
    && cmd[|cmd| - 2..] == [oldfile, newfile]
    && AutoFlagsOk(cmd[2 + |diffopts|..|cmd| - 2], ignspcchg,
                   portsFormat || CLikeName(newfile), portsFormat)
  }

  /** Builds `command` by successive appends, as the source builds `dopts`. */
  method BuildCommand(oldfile: string, newfile: string, ignspcchg: bool,
                      diffopts: seq<string>, portsFormat: bool)
    returns (command: seq<string>)
    ensures IsDiffCommand(command, oldfile, newfile, ignspcchg, diffopts, portsFormat)
  {
    var dopts := ["-u"] + diffopts;
    var wantP := portsFormat || CLikeName(newfile);
    if ignspcchg {
      dopts := dopts + ["-b"];
    }
    if wantP {
      dopts := dopts + ["-p"];
    }
    if portsFormat {
      dopts := dopts + ["-d"];
    }
    command := ["diff"] + dopts + [oldfile, newfile];
    ghost var auto := FlagsInOrder(ignspcchg, wantP, portsFormat);
    assert dopts == ["-u"] + diffopts + auto;
    CommandLayout(diffopts, auto, oldfile, newfile);
    FlagsInOrderOk(ignspcchg, wantP, portsFormat);
  }

  /** Where the pieces of a command line sit. */
  lemma CommandLayout(diffopts: seq<string>, auto: seq<string>, oldfile: string, newfile: string)
    ensures var c := ["diff"] + (["-u"] + diffopts + auto) + [oldfile, newfile];
      && |c| == 4 + |diffopts| + |auto|
      && c[..2] == ["diff", "-u"]
      && c[2..2 + |diffopts|] == diffopts
      && c[2 + |diffopts|..|c| - 2] == auto
      && c[|c| - 2..] == [oldfile, newfile]
  {
    var c := ["diff"] + (["-u"] + diffopts + auto) + [oldfile, newfile];
    assert c == ["diff", "-u"] + diffopts + auto + [oldfile, newfile];
  }

  /** The wanted automatic flags in their fixed order. */
  function FlagsInOrder(wantB: bool, wantP: bool, wantD: bool): seq<string> {
    (if wantB then ["-b"] else []) + (if wantP then ["-p"] else []) + (if wantD then ["-d"] else [])
  }

  lemma FlagsInOrderOk(wantB: bool, wantP: bool, wantD: bool)
    ensures AutoFlagsOk(FlagsInOrder(wantB, wantP, wantD), wantB, wantP, wantD)
  {
    if wantB {
      FlagsAfterB(wantP, wantD);
    } else {
      assert FlagsInOrder(wantB, wantP, wantD) == FlagsInOrder(false, wantP, wantD);
      FlagsWithoutB(wantP, wantD);
    }
  }

  lemma FlagsWithoutB(wantP: bool, wantD: bool)
    ensures AutoFlagsOk(FlagsInOrder(false, wantP, wantD), false, wantP, wantD)
  {
    if wantP && wantD {
      assert FlagsInOrder(false, wantP, wantD) == ["-p", "-d"];
    } else if wantP {
      assert FlagsInOrder(false, wantP, wantD) == ["-p"];
    } else if wantD {
      assert FlagsInOrder(false, wantP, wantD) == ["-d"];
    } else {
      assert FlagsInOrder(false, wantP, wantD) == [];
    }
  }

  lemma FlagsAfterB(wantP: bool, wantD: bool)
    ensures AutoFlagsOk(FlagsInOrder(true, wantP, wantD), true, wantP, wantD)
  {
    if wantP && wantD {
      assert FlagsInOrder(true, wantP, wantD) == ["-b", "-p", "-d"];
    } else if wantP {
      assert FlagsInOrder(true, wantP, wantD) == ["-b", "-p"];
    } else if wantD {
      assert FlagsInOrder(true, wantP, wantD) == ["-b", "-d"];
    } else {
      assert FlagsInOrder(true, wantP, wantD) == ["-b"];
    }
  }

  /** The three automatic flags are fixed by the three conditions alone. */
  lemma {:induction false} AutoFlagsDetermined(a: seq<string>, c: seq<string>,
                                               wantB: bool, wantP: bool, wantD: bool)
    requires AutoFlagsOk(a, wantB, wantP, wantD) && AutoFlagsOk(c, wantB, wantP, wantD)
    ensures a == c
  {
    AutoFlagsShape(a, wantB, wantP, wantD);
    AutoFlagsShape(c, wantB, wantP, wantD);
  }

  lemma {:induction false} AutoFlagsShape(a: seq<string>, wantB: bool, wantP: bool, wantD: bool)
    requires AutoFlagsOk(a, wantB, wantP, wantD)
    ensures a == FlagsInOrder(wantB, wantP, wantD)
  {
    AtMostThree(a);
    forall k | 0 <= k < |a|
      ensures a[k] == "-b" || a[k] == "-p" || a[k] == "-d"
    {
      assert FlagRank(a[k]) < 3;
    }
    if |a| == 3 {
      assert FlagRank(a[0]) < FlagRank(a[1]) < FlagRank(a[2]);
    } else if |a| == 2 {
      assert FlagRank(a[0]) < FlagRank(a[1]);
    }
  }

  /** Ranks strictly increase, so the `k`-th flag has rank at least `k`. */
  lemma {:induction false} RankFloor(a: seq<string>, k: nat)
    requires InFlagOrder(a) && k < |a|
    ensures FlagRank(a[k]) >= k
  {
    if k > 0 {
      RankFloor(a, k - 1);
    }
  }

  /** Only three flags can be in flag order. */
  lemma AtMostThree(a: seq<string>)
    requires InFlagOrder(a)
    ensures |a| <= 3
  {
    if |a| > 3 {
      RankFloor(a, 3);
      assert false;
    }
  }

  /** The contract of `BuildCommand` admits exactly one command line. */
  lemma DiffCommandDetermined(c1: seq<string>, c2: seq<string>, oldfile: string,
                              newfile: string, ignspcchg: bool, diffopts: seq<string>,
                              portsFormat: bool)
    requires IsDiffCommand(c1, oldfile, newfile, ignspcchg, diffopts, portsFormat)
    requires IsDiffCommand(c2, oldfile, newfile, ignspcchg, diffopts, portsFormat)
    ensures c1 == c2
  {
    var n := 2 + |diffopts|;
    AutoFlagsDetermined(c1[n..|c1| - 2], c2[n..|c2| - 2], ignspcchg,
                        portsFormat || CLikeName(newfile), portsFormat);
    SameParts(c1, c2, n);
  }

  /** Two sequences that agree on their first two elements, on the next
      `n - 2`, on the middle and on their last two are equal. */
  lemma SameParts<T>(c1: seq<T>, c2: seq<T>, n: nat)
    requires 2 <= n <= |c1| - 2 && n <= |c2| - 2
    requires c1[..2] == c2[..2] && c1[2..n] == c2[2..n]
    requires c1[n..|c1| - 2] == c2[n..|c2| - 2] && c1[|c1| - 2..] == c2[|c2| - 2..]
    ensures c1 == c2
  {
    assert c1 == c1[..2] + c1[2..n] + c1[n..|c1| - 2] + c1[|c1| - 2..];
    assert c2 == c2[..2] + c2[2..n] + c2[n..|c2| - 2] + c2[|c2| - 2..];
  }

  /** A name with at least one non-newline character in front of a C-like
      extension is C-like, with or without a final newline. */
  lemma ExtensionAfterStem(stem: string, ext: string)
    requires |stem| > 0 && stem[|stem| - 1] != '\n'
    requires ext == ".c" || ext == ".cpp" || ext == ".py"
    ensures CLikeName(stem + ext) && CLikeName(stem + ext + "\n")
  {
    var name := stem + ext;
    assert Body(name + "\n") == name;
    assert name[|name| - |ext|..] == ext;
    assert name[|name| - |ext| - 1] == stem[|stem| - 1];
  }

  /** A name whose only dot is its first character, such as a bare `.c`,
      has nothing in front of the extension, so it is not C-like. */
  lemma BareExtensionNotCLike(name: string)
    requires forall k :: 0 < k < |name| ==> name[k] != '.'
    ensures !CLikeName(name)
  {
    if HasExtension(name, ".c") {
      DotBeforeExtension(name, ".c");
    }
    if HasExtension(name, ".cpp") {
      DotBeforeExtension(name, ".cpp");
    }
    if HasExtension(name, ".py") {
      DotBeforeExtension(name, ".py");
    }
  }

  /** An extension that is found starts with a dot past the first character. */
  lemma DotBeforeExtension(name: string, ext: string)
    requires |ext| > 0 && ext[0] == '.' && HasExtension(name, ext)
    ensures var b := Body(name); 0 < |b| - |ext| && name[|b| - |ext|] == '.'
  {
    var b := Body(name);
    assert b[|b| - |ext|..][0] == ext[0];
    assert name[|b| - |ext|] == b[|b| - |ext|];
  }

  /** Header files and compiled Python are not C-like. */
  lemma OtherExtensionsNotCLike(stem: string)
    ensures !CLikeName(stem + ".h") && !CLikeName(stem + ".pyc")
  {
    assert (stem + ".h")[|stem + ".h"| - 1] == 'h';
    assert (stem + ".pyc")[|stem + ".pyc"| - 1] == 'c';
    assert (stem + ".pyc")[|stem + ".pyc"| - 2] == 'y';
  }
}
