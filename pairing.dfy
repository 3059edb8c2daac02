/** How mkpatch turns a path argument into (original, modified) pairs: the
    argument loses its trailing slashes, a file argument names its original
    by the suffix, the candidates are sorted, and each candidate that ends
    in the suffix is paired with the name that is left once the suffix is
    removed. The suffix is taken literally, as its users read it. */
module Pairing {
  import opened Text

  /** A suffix is a literal string without a newline (the default is
      `.orig`). */
  type Suffix = s: string | NoNewline(s) witness ".orig"

  const DefaultSuffix: Suffix := ".orig"

  // ---------------------------------------------------------------------
  // The path argument
  // ---------------------------------------------------------------------

  /** `path.rstrip('/')`: the longest prefix that does not end in `/`. */
  function StripTrailingSlashes(path: string): (r: string)
    ensures StartsWith(path, r)
    ensures r == [] || r[|r| - 1] != '/'
    ensures forall k :: |r| <= k < |path| ==> path[k] == '/'
  {
    if |path| > 0 && path[|path| - 1] == '/' then StripTrailingSlashes(path[..|path| - 1]) else path
  }

  /** The regular expression `SUFFIX$` for a literal suffix: the suffix ends
      the path, or ends it just before a final newline. */
  predicate HasSuffix(path: string, suffix: Suffix) {
    EndsWith(Body(path), suffix)
  }

  /** A file argument names the modified file or its original; the original
      is the name with the suffix, which is appended when it is missing. */
  function OriginalOfFileArg(path: string, suffix: Suffix): (r: string)
    ensures r == path || r == path + suffix
    ensures StartsWith(r, path) && |r| <= |path| + |suffix|
    ensures HasSuffix(r, suffix)
    ensures r == path <==> HasSuffix(path, suffix)
  {
    if HasSuffix(path, suffix) then path
    else
      assert Body(path + suffix) == path + suffix by {
        if |suffix| > 0 {
          assert (path + suffix)[|path + suffix| - 1] == suffix[|suffix| - 1];
        }
      }
      assert (path + suffix)[|path + suffix| - |suffix|..] == suffix;
      path + suffix
  }

  /** Naming the original twice gives the name once. */
  lemma OriginalOfFileArgIdempotent(path: string, suffix: Suffix)
    ensures OriginalOfFileArg(OriginalOfFileArg(path, suffix), suffix) == OriginalOfFileArg(path, suffix)
  {
  }

  /** `re.sub('^\./', '', path)`: one leading `./` goes. */
  function StripDotSlash(path: string): (r: string)
    ensures EndsWith(path, r)
    ensures |r| == |path| - 2 <==> StartsWith(path, "./")
    ensures |r| == |path| || |r| == |path| - 2
  {
    if StartsWith(path, "./") then path[2..] else path
  }

  // ---------------------------------------------------------------------
  // `re.search('(.+)SUFFIX$', oldfile)` and its group
  // ---------------------------------------------------------------------

  /** Where the line that holds position `g` begins: just after the last
      newline in front of `g`. */
  function LineStart(t: string, g: nat): (j: nat)
    requires g <= |t|
    ensures j <= g && (forall m :: j <= m < g ==> t[m] != '\n')
    ensures j == 0 || t[j - 1] == '\n'
  {
    if g == 0 || t[g - 1] == '\n' then g else LineStart(t, g - 1)
  }

  /** The pattern `(.+)SUFFIX$` matches `s[p..e]`: `.+` takes a nonempty run
      of non-newline characters, the suffix follows it literally, and `$`
      matches at `e`, the end of `s` or just before a final newline. */
  predicate MatchSpan(s: string, p: int, e: int, suffix: Suffix) {
    && 0 <= p && p + |suffix| < e <= |s|
    && (e == |s| || (e == |s| - 1 && s[e] == '\n'))
    && (forall m :: p <= m < e - |suffix| ==> s[m] != '\n')
    && s[e - |suffix|..e] == suffix
  }

  /** The modified file paired with `oldfile`: group 1 of the leftmost
      match, or nothing when the pattern does not match. */
  function MatchOriginal(oldfile: string, suffix: Suffix): (m: Option<string>)
    ensures m.Some? ==> |m.value| > 0 && NoNewline(m.value)
  {
    var t := Body(oldfile);
    if |t| > |suffix| && EndsWith(t, suffix) && t[|t| - |suffix| - 1] != '\n' then
      var g := |t| - |suffix|;
      Some(t[LineStart(t, g)..g])
    else None
  }

  /** A match ends where the content of `s` ends: the final newline, if
      any, can be neither the suffix's last character nor one of `.+`. */
  lemma MatchSpanEnd(s: string, p: int, e: int, suffix: Suffix)
    requires MatchSpan(s, p, e, suffix)
    ensures e == |Body(s)|
  {
    if |suffix| > 0 {
      assert s[e - 1] == s[e - |suffix|..e][|suffix| - 1];
    }
  }

  /** `re.search` picks the leftmost match, and group 1 is what `.+` took;
      without a match there is no pair. */
  lemma MatchOriginalSpec(s: string, suffix: Suffix)
    ensures forall p, e :: MatchSpan(s, p, e, suffix)
                           && (forall p', e' :: 0 <= p' < p ==> !MatchSpan(s, p', e', suffix)) ==>
              MatchOriginal(s, suffix) == Some(s[p..e - |suffix|])
    ensures (forall p, e :: !MatchSpan(s, p, e, suffix)) ==> MatchOriginal(s, suffix) == None
  {
    var t := Body(s);
    forall p, e | MatchSpan(s, p, e, suffix)
                  && (forall p', e' :: 0 <= p' < p ==> !MatchSpan(s, p', e', suffix))
      ensures MatchOriginal(s, suffix) == Some(s[p..e - |suffix|])
    {
      MatchSpanEnd(s, p, e, suffix);
      var g := |t| - |suffix|;
      assert t[g..] == s[g..e];
      assert t[g - 1] == s[g - 1];
      var j := LineStart(t, g);
      assert j <= p;
      assert MatchSpan(s, j, e, suffix);
      assert t[j..g] == s[j..g];
    }
    if |t| > |suffix| && EndsWith(t, suffix) && t[|t| - |suffix| - 1] != '\n' {
      var g := |t| - |suffix|;
      var j := LineStart(t, g);
      assert s[g..|t|] == t[g..];
      assert MatchSpan(s, j, |t|, suffix);
    }
  }

  /** For a path without newlines: a pair exactly when the path is longer
      than the suffix and ends with it, and the modified file is the path
      without the suffix. */
  lemma {:induction false} MatchOriginalNoNewline(s: string, suffix: Suffix)
    requires NoNewline(s)
    ensures MatchOriginal(s, suffix) ==
            if |s| > |suffix| && EndsWith(s, suffix) then Some(s[..|s| - |suffix|]) else None
  {
    if |s| > |suffix| && EndsWith(s, suffix) {
      LineStartNoNewline(s, |s| - |suffix|);
    }
  }

  lemma {:induction false} LineStartNoNewline(t: string, g: nat)
    requires g <= |t| && NoNewline(t)
    ensures LineStart(t, g) == 0
  {
    if g > 0 {
      LineStartNoNewline(t, g - 1);
    }
  }

  /** Round trip: the original of `m` is `m` with the suffix, and it pairs
      back with `m`. */
  lemma MatchAfterAppend(m: string, suffix: Suffix)
    requires |m| > 0 && NoNewline(m)
    ensures MatchOriginal(m + suffix, suffix) == Some(m)
  {
    var s := m + suffix;
    assert NoNewline(s) by {
      forall k | 0 <= k < |s| ensures s[k] != '\n' {
        if k >= |m| {
          assert s[k] == suffix[k - |m|];
        }
      }
    }
    assert s[|s| - |suffix|..] == suffix;
    assert s[..|s| - |suffix|] == m;
    MatchOriginalNoNewline(s, suffix);
  }

  /** A file argument that does not name its original is diffed against
      the original it names once the suffix is appended. */
  lemma FileArgPairsWithItself(path: string, suffix: Suffix)
    requires NoNewline(path) && |suffix| > 0 && suffix[0] != '/' && !HasSuffix(path, suffix)
    requires |StripDotSlash(path)| > 0
    ensures MatchOriginal(StripDotSlash(OriginalOfFileArg(path, suffix)), suffix)
            == Some(StripDotSlash(path))
  {
    var m := StripDotSlash(path);
    assert StripDotSlash(path + suffix) == m + suffix by {
      if StartsWith(path, "./") {
        assert (path + suffix)[..2] == path[..2];
        assert (path + suffix)[2..] == path[2..] + suffix;
      } else if |path| >= 2 {
        assert (path + suffix)[..2] == path[..2];
      } else if |path| == 1 {
        assert (path + suffix)[1] == suffix[0];
      }
    }
    assert NoNewline(m) by {
      forall k | 0 <= k < |m| ensures m[k] != '\n' {
        assert m[k] == path[|path| - |m| + k];
      }
    }
    MatchAfterAppend(m, suffix);
  }

  // ---------------------------------------------------------------------
  // The suffix as the source interpolates it: a regular expression
  // ---------------------------------------------------------------------

  /** The suffix's characters read as a regular expression in which `.`
      matches any character but a newline and every other character
      stands for itself; this is how `.orig` is read. */
  predicate SuffixPatternAt(t: string, g: int, suffix: Suffix) {
    && 0 <= g && g + |suffix| <= |t|
    && forall k :: 0 <= k < |suffix| ==>
         if suffix[k] == '.' then t[g + k] != '\n' else t[g + k] == suffix[k]
  }

  /** Line 93 as written: `re.search(SUFFIX + '$', path)` with the suffix
      interpolated as a pattern. */
  function OriginalOfFileArgAsWritten(path: string, suffix: Suffix): (r: string)
    ensures r == path || r == path + suffix
  {
    var t := Body(path);
    if SuffixPatternAt(t, |t| - |suffix|, suffix) then path else path + suffix
  }

  /** Line 106 as written: `re.search('(.+)' + SUFFIX + '$', oldfile)` with
      the suffix interpolated as a pattern. */
  function MatchOriginalAsWritten(oldfile: string, suffix: Suffix): (m: Option<string>)
    ensures m.Some? ==> |m.value| > 0 && NoNewline(m.value)
  {
    var t := Body(oldfile);
    var g := |t| - |suffix|;
    if |t| > |suffix| && SuffixPatternAt(t, g, suffix) && t[g - 1] != '\n' then
      Some(t[LineStart(t, g)..g])
    else None
  }

  /** With `.orig`, a name that ends in any character followed by `orig`
      is taken for an original: `notes_orig` is paired with `notes`, and
      the file argument `notes_orig` gets no suffix appended. The literal
      reading pairs nothing and appends the suffix. */
  lemma WildcardSuffixMismatch()
    ensures MatchOriginalAsWritten("notes_orig", DefaultSuffix) == Some("notes")
    ensures MatchOriginal("notes_orig", DefaultSuffix) == None
    ensures OriginalOfFileArgAsWritten("notes_orig", DefaultSuffix) == "notes_orig"
    ensures OriginalOfFileArg("notes_orig", DefaultSuffix) == "notes_orig.orig"
  {
    var s := "notes_orig";
    assert Body(s) == s;
    assert SuffixPatternAt(s, 5, DefaultSuffix);
    assert s[..5] == "notes";
    assert s[5..] != DefaultSuffix by {
      assert s[5] == '_';
    }
    assert NoNewline(s);
    LineStartNoNewline(s, 5);
  }

  /** For a suffix without a `.`, the pattern reading and the literal one
      agree. */
  lemma AsWrittenAgreesWithoutDot(s: string, suffix: Suffix)
    requires forall k :: 0 <= k < |suffix| ==> suffix[k] != '.'
    ensures MatchOriginalAsWritten(s, suffix) == MatchOriginal(s, suffix)
    ensures OriginalOfFileArgAsWritten(s, suffix) == OriginalOfFileArg(s, suffix)
  {
    var t := Body(s);
    var g := |t| - |suffix|;
    if 0 <= g {
      assert SuffixPatternAt(t, g, suffix) <==> t[g..] == suffix by {
        if SuffixPatternAt(t, g, suffix) {
          assert forall k :: 0 <= k < |suffix| ==> t[g..][k] == suffix[k];
        }
      }
    }
  }

  // ---------------------------------------------------------------------
  // The candidates: `os.walk` joined up, and `sorted`
  // ---------------------------------------------------------------------

  /** One directory visited by `os.walk`: its path and the names of the
      files in it. */
  datatype WalkStep = WalkStep(root: string, files: seq<string>)

  /** `os.path.join(root, name)` on POSIX: an absolute name replaces the
      root; otherwise a `/` is put between them unless the root is empty or
      already ends in one. */
  function PathJoin(root: string, name: string): (p: string)
    ensures EndsWith(p, name)
    ensures StartsWith(name, "/") || StartsWith(p, root)
  {
    if StartsWith(name, "/") then name
    else if root == [] || root[|root| - 1] == '/' then root + name
    else
      assert (root + "/" + name)[|root| + 1..] == name;
      root + "/" + name
  }

  /** The files of one directory of the walk, each joined to it. */
  function DirPaths(d: WalkStep): (r: seq<string>)
    ensures |r| == |d.files|
    ensures forall k :: 0 <= k < |d.files| ==> r[k] == PathJoin(d.root, d.files[k])
  {
    seq(|d.files|, k requires 0 <= k < |d.files| => PathJoin(d.root, d.files[k]))
  }

  /** The file paths of a walk, directory by directory, in the order found. */
  function WalkPaths(walk: seq<WalkStep>): seq<string> {
    if walk == [] then [] else DirPaths(walk[0]) + WalkPaths(walk[1..])
  }

  lemma WalkPathsFrom(walk: seq<WalkStep>, i: nat)
    requires i < |walk|
    ensures WalkPaths(walk[i..]) == DirPaths(walk[i]) + WalkPaths(walk[i + 1..])
  {
    assert walk[i..][1..] == walk[i + 1..];
  }

  /** Path `p` is file `k` of directory `i` of the walk, joined to it. */
  predicate WalkedAt(walk: seq<WalkStep>, i: int, k: int, p: string) {
    0 <= i < |walk| && 0 <= k < |walk[i].files| && p == PathJoin(walk[i].root, walk[i].files[k])
  }

  /** Every walked path is a file of some visited directory joined to that
      directory, and every such file is walked. */
  lemma {:induction false} WalkPathsMembers(walk: seq<WalkStep>, p: string)
    ensures p in WalkPaths(walk) <==> exists i, k :: WalkedAt(walk, i, k, p)
  {
    if walk != [] {
      WalkPathsMembers(walk[1..], p);
      var here := DirPaths(walk[0]);
      if p in here {
        var k :| 0 <= k < |here| && here[k] == p;
        assert WalkedAt(walk, 0, k, p);
      }
      if p in WalkPaths(walk[1..]) {
        var i, k :| WalkedAt(walk[1..], i, k, p);
        assert walk[1..][i] == walk[i + 1];
        assert WalkedAt(walk, i + 1, k, p);
      }
      if exists i, k :: WalkedAt(walk, i, k, p) {
        var i, k :| WalkedAt(walk, i, k, p);
        if i == 0 {
          assert here[k] == p;
        } else {
          assert walk[1..][i - 1] == walk[i];
          assert WalkedAt(walk[1..], i - 1, k, p);
        }
      }
    }
  }

  /** The outer loop over the walk, directory by directory. */
  method CollectWalk(walk: seq<WalkStep>) returns (paths: seq<string>)
    ensures paths == WalkPaths(walk)
  {
    paths := [];
    for i := 0 to |walk|
      invariant paths + WalkPaths(walk[i..]) == WalkPaths(walk)
    {
      WalkPathsFrom(walk, i);
      var joined := JoinFiles(walk[i]);
      paths := paths + joined;
    }
    assert walk[|walk|..] == [];
  }

  /** The inner loop over the files of one directory, joining each to it. */
  method JoinFiles(d: WalkStep) returns (paths: seq<string>)
    ensures paths == DirPaths(d)
  {
    paths := [];
    for k := 0 to |d.files|
      invariant |paths| == k
      invariant forall j :: 0 <= j < k ==> paths[j] == PathJoin(d.root, d.files[j])
    {
      paths := paths + [PathJoin(d.root, d.files[k])];
    }
  }

  /** Python's string order: code point by code point, a proper prefix
      first. */
  predicate LexLeq(a: string, b: string)
    decreases |a|
  {
    |a| == 0 || (|b| > 0 && (a[0] < b[0] || (a[0] == b[0] && LexLeq(a[1..], b[1..]))))
  }

  lemma {:induction false} LexLeqTotal(a: string, b: string)
    ensures LexLeq(a, b) || LexLeq(b, a)
    decreases |a|
  {
    if |a| > 0 && |b| > 0 && a[0] == b[0] {
      LexLeqTotal(a[1..], b[1..]);
    }
  }

  lemma {:induction false} LexLeqReflexive(a: string)
    ensures LexLeq(a, a)
    decreases |a|
  {
    if |a| > 0 {
      LexLeqReflexive(a[1..]);
    }
  }

  lemma {:induction false} LexLeqAntisymmetric(a: string, b: string)
    requires LexLeq(a, b) && LexLeq(b, a)
    ensures a == b
    decreases |a|
  {
    if |a| > 0 {
      LexLeqAntisymmetric(a[1..], b[1..]);
      assert a == [a[0]] + a[1..] && b == [b[0]] + b[1..];
    }
  }

  lemma {:induction false} LexLeqTransitive(a: string, b: string, c: string)
    requires LexLeq(a, b) && LexLeq(b, c)
    ensures LexLeq(a, c)
    decreases |a|
  {
    if |a| > 0 && a[0] == b[0] && b[0] == c[0] {
      LexLeqTransitive(a[1..], b[1..], c[1..]);
    }
  }

  /** A walk of `.` that visits one directory holding three files finds
      them under `./`, in the order visited. */
  lemma DotWalkOfThree(u: string, v: string, w: string)
    requires |u| > 0 && u[0] != '/' && |v| > 0 && v[0] != '/' && |w| > 0 && w[0] != '/'
    ensures WalkPaths([WalkStep(".", [u, v, w])]) == ["./" + u, "./" + v, "./" + w]
  {
    WalkOfOne(WalkStep(".", [u, v, w]));
    DirPathsThree(".", u, v, w);
    DotJoin(u);
    DotJoin(v);
    DotJoin(w);
  }

  lemma WalkOfOne(d: WalkStep)
    ensures WalkPaths([d]) == DirPaths(d)
  {
    assert [d][1..] == [];
  }

  lemma DirPathsThree(root: string, u: string, v: string, w: string)
    ensures DirPaths(WalkStep(root, [u, v, w])) == [PathJoin(root, u), PathJoin(root, v), PathJoin(root, w)]
  {
  }

  /** A relative name joined to `.` is the name under `./`. */
  lemma DotJoin(u: string)
    requires |u| > 0 && u[0] != '/'
    ensures PathJoin(".", u) == "./" + u
  {
    assert !StartsWith(u, "/");
    assert "." + "/" + u == "./" + u;
  }

  /** Three strings given in descending order sort into ascending order. */
  lemma SortThree(x: string, y: string, z: string)
    requires LexLeq(x, y) && LexLeq(y, z)
    ensures Sort([z, y, x]) == [x, y, z]
  {
    LexLeqTransitive(x, y, z);
    var up, down := [x, y, z], [z, y, x];
    assert Sorted(up) by {
      assert LexLeq(up[0], up[1]) && LexLeq(up[0], up[2]) && LexLeq(up[1], up[2]);
    }
    assert multiset(down) == multiset(up);
    SortedUnique(Sort(down), up);
  }

  /** A common prefix keeps the order of two strings. */
  lemma {:induction false} LexLeqAfterPrefix(p: string, x: string, y: string)
    requires LexLeq(x, y)
    ensures LexLeq(p + x, p + y)
    decreases |p|
  {
    if |p| > 0 {
      assert (p + x)[1..] == p[1..] + x;
      assert (p + y)[1..] == p[1..] + y;
      LexLeqAfterPrefix(p[1..], x, y);
    } else {
      assert p + x == x && p + y == y;
    }
  }

  predicate Sorted(s: seq<string>) {
    forall i, j :: 0 <= i < j < |s| ==> LexLeq(s[i], s[j])
  }

  /** `x` put into sorted `s` in front of the first element not below it. */
  function Insert(x: string, s: seq<string>): (r: seq<string>)
    requires Sorted(s)
    ensures Sorted(r) && multiset(r) == multiset(s) + multiset{x}
    ensures forall k :: 0 <= k < |r| ==> r[k] == x || r[k] in s
  {
    if s == [] then [x]
    else if LexLeq(x, s[0]) then
      InsertFront(x, s);
      [x] + s
    else
      var t := Insert(x, s[1..]);
      InsertBehind(x, s, t);
      assert s == [s[0]] + s[1..];
      [s[0]] + t
  }

  lemma InsertFront(x: string, s: seq<string>)
    requires Sorted(s) && s != [] && LexLeq(x, s[0])
    ensures Sorted([x] + s)
  {
    forall j | 0 < j < |s| ensures LexLeq(x, s[j]) {
      LexLeqTransitive(x, s[0], s[j]);
    }
  }

  lemma InsertBehind(x: string, s: seq<string>, t: seq<string>)
    requires Sorted(s) && s != [] && !LexLeq(x, s[0])
    requires Sorted(t) && forall k :: 0 <= k < |t| ==> t[k] == x || t[k] in s[1..]
    ensures Sorted([s[0]] + t)
  {
    LexLeqTotal(x, s[0]);
    forall k | 0 <= k < |t| ensures LexLeq(s[0], t[k]) {
      if t[k] != x {
        var j :| 0 <= j < |s[1..]| && s[1..][j] == t[k];
        assert s[j + 1] == t[k];
      }
    }
  }

  /** `sorted(paths)`, by insertion. */
  function Sort(s: seq<string>): (r: seq<string>)
    ensures Sorted(r) && multiset(r) == multiset(s)
  {
    if s == [] then []
    else
      assert s == [s[0]] + s[1..];
      Insert(s[0], Sort(s[1..]))
  }

  /** The first element of a sorted sequence is below all of it. */
  lemma SortedHeadLeast(a: seq<string>, x: string)
    requires Sorted(a) && x in a
    ensures LexLeq(a[0], x)
  {
    var i :| 0 <= i < |a| && a[i] == x;
    if i == 0 {
      LexLeqReflexive(x);
    }
  }

  /** Strings are totally ordered, so a sorted permutation is unique: `Sort`
      gives what any sort gives. */
  lemma {:induction false} SortedUnique(a: seq<string>, b: seq<string>)
    requires Sorted(a) && Sorted(b) && multiset(a) == multiset(b)
    ensures a == b
    decreases |a|
  {
    if a != [] {
      SortedHeads(a, b);
      SortedTail(a);
      SortedTail(b);
      SortedUnique(a[1..], b[1..]);
      assert a == [a[0]] + a[1..] && b == [b[0]] + b[1..];
    } else {
      assert |b| == |multiset(b)|;
    }
  }

  /** Sorted permutations of the same strings begin alike. */
  lemma SortedHeads(a: seq<string>, b: seq<string>)
    requires Sorted(a) && Sorted(b) && multiset(a) == multiset(b) && a != []
    ensures b != [] && a[0] == b[0]
  {
    assert a[0] in multiset(b);
    assert b[0] in multiset(a);
    SortedHeadLeast(b, a[0]);
    SortedHeadLeast(a, b[0]);
    LexLeqAntisymmetric(a[0], b[0]);
  }

  lemma SortedTail(a: seq<string>)
    requires Sorted(a) && a != []
    ensures Sorted(a[1..]) && multiset(a[1..]) == multiset(a) - multiset{a[0]}
  {
    assert a == [a[0]] + a[1..];
  }

  // ---------------------------------------------------------------------
  // The pairs
  // ---------------------------------------------------------------------

  /** An original, without a leading `./`, and the modified file it pairs
      with. */
  datatype Pair = Pair(oldfile: string, newfile: string)

  /** What one candidate gives: the candidate without its leading `./`
      paired with what the suffix match leaves, or nothing. */
  function PairOf(path: string, suffix: Suffix): (r: seq<Pair>)
    ensures |r| <= 1
  {
    var o := StripDotSlash(path);
    match MatchOriginal(o, suffix)
    case Some(n) => [Pair(o, n)]
    case None => []
  }

  /** What the loop over the sorted candidates diffs, in order. */
  function PairsOf(paths: seq<string>, suffix: Suffix): seq<Pair> {
    if paths == [] then [] else PairOf(paths[0], suffix) + PairsOf(paths[1..], suffix)
  }

  /** The pairs of consecutive runs of candidates follow each other: the
      order of the candidates is kept. */
  lemma {:induction false} PairsOfConcat(a: seq<string>, b: seq<string>, suffix: Suffix)
    ensures PairsOf(a + b, suffix) == PairsOf(a, suffix) + PairsOf(b, suffix)
  {
    if a != [] {
      assert (a + b)[0] == a[0];
      assert (a + b)[1..] == a[1..] + b;
      PairsOfConcat(a[1..], b, suffix);
    } else {
      assert a + b == b;
    }
  }

  /** Candidate `k` gives pair `q`. */
  predicate PairFrom(paths: seq<string>, k: int, suffix: Suffix, q: Pair) {
    0 <= k < |paths| && q.oldfile == StripDotSlash(paths[k]) && MatchOriginal(q.oldfile, suffix) == Some(q.newfile)
  }

  /** A pair comes from a candidate: the original is the candidate without
      its leading `./`, and the modified file is what the suffix match
      leaves; every matching candidate gives one. */
  lemma PairsOfMembers(paths: seq<string>, suffix: Suffix, q: Pair)
    ensures q in PairsOf(paths, suffix) <==> exists k :: PairFrom(paths, k, suffix, q)
  {
    if q in PairsOf(paths, suffix) {
      var k := PairSource(paths, suffix, q);
    }
    if exists k :: PairFrom(paths, k, suffix, q) {
      var k :| PairFrom(paths, k, suffix, q);
      PairFromIsListed(paths, k, suffix, q);
    }
  }

  lemma {:induction false} PairSource(paths: seq<string>, suffix: Suffix, q: Pair) returns (k: int)
    requires q in PairsOf(paths, suffix)
    ensures PairFrom(paths, k, suffix, q)
  {
    PairsOfStep(paths, suffix, q);
    if q in PairOf(paths[0], suffix) {
      InPairOf(paths, suffix, q);
      k := 0;
    } else {
      var j := PairSource(paths[1..], suffix, q);
      k := PairFromShift(paths, j, suffix, q);
    }
  }

  /** A listed pair comes from the first candidate or from the rest. */
  lemma PairsOfStep(paths: seq<string>, suffix: Suffix, q: Pair)
    requires q in PairsOf(paths, suffix)
    ensures paths != []
    ensures q in PairOf(paths[0], suffix) || q in PairsOf(paths[1..], suffix)
  {
  }

  /** The pair of the first candidate is that candidate's original and match. */
  lemma InPairOf(paths: seq<string>, suffix: Suffix, q: Pair)
    requires paths != [] && q in PairOf(paths[0], suffix)
    ensures PairFrom(paths, 0, suffix, q)
  {
  }

  /** Candidate `k` after the first is candidate `k + 1` of the whole list. */
  lemma PairFromShift(paths: seq<string>, j: int, suffix: Suffix, q: Pair) returns (k: int)
    requires paths != [] && PairFrom(paths[1..], j, suffix, q)
    ensures k == j + 1 && PairFrom(paths, k, suffix, q)
  {
    k := j + 1;
    assert paths[1..][j] == paths[k];
  }

  lemma {:induction false} PairFromIsListed(paths: seq<string>, k: int, suffix: Suffix, q: Pair)
    requires PairFrom(paths, k, suffix, q)
    ensures q in PairsOf(paths, suffix)
    decreases |paths|
  {
    if k == 0 {
      assert q in PairOf(paths[0], suffix);
    } else {
      assert paths[1..][k - 1] == paths[k];
      PairFromIsListed(paths[1..], k - 1, suffix, q);
    }
  }

  /** A walk of `.` that finds the originals of `a` and `b` and an
      unrelated `c` pairs the two originals, in that order, and skips `c`. */
  lemma DotWalkPairs(a: string, b: string, c: string, suffix: Suffix)
    requires |a| > 0 && NoNewline(a) && |b| > 0 && NoNewline(b)
    requires NoNewline(c) && !EndsWith(c, suffix)
    ensures PairsOf(["./" + (a + suffix), "./" + (b + suffix), "./" + c], suffix)
            == [Pair(a + suffix, a), Pair(b + suffix, b)]
  {
    PairsOfThree("./" + (a + suffix), "./" + (b + suffix), "./" + c, suffix);
    DotOriginal(a, suffix);
    DotOriginal(b, suffix);
    DotUnrelated(c, suffix);
  }

  lemma PairsOfThree(x: string, y: string, z: string, suffix: Suffix)
    ensures PairsOf([x, y, z], suffix) == PairOf(x, suffix) + PairOf(y, suffix) + PairOf(z, suffix)
  {
    assert [x, y, z] == [x] + [y, z] && [y, z] == [y] + [z];
    PairsOfCons(x, [y, z], suffix);
    PairsOfCons(y, [z], suffix);
    PairsOfSingle(z, suffix);
  }

  lemma PairsOfCons(path: string, rest: seq<string>, suffix: Suffix)
    ensures PairsOf([path] + rest, suffix) == PairOf(path, suffix) + PairsOf(rest, suffix)
  {
    assert ([path] + rest)[1..] == rest;
  }

  /** The original of `m` found under `.` pairs with `m`. */
  lemma DotOriginal(m: string, suffix: Suffix)
    requires |m| > 0 && NoNewline(m)
    ensures PairOf("./" + (m + suffix), suffix) == [Pair(m + suffix, m)]
  {
    MatchAfterAppend(m, suffix);
    DotCandidate(m + suffix, suffix);
  }

  /** A file found under `.` that does not end in the suffix pairs with
      nothing. */
  lemma DotUnrelated(c: string, suffix: Suffix)
    requires NoNewline(c) && !EndsWith(c, suffix)
    ensures PairOf("./" + c, suffix) == []
  {
    MatchOriginalNoNewline(c, suffix);
    DotCandidate(c, suffix);
  }

  /** The pairs of a single candidate. */
  lemma PairsOfSingle(path: string, suffix: Suffix)
    ensures PairsOf([path], suffix) == PairOf(path, suffix)
  {
    assert [path][1..] == [];
  }

  /** A single candidate found under `.`. */
  lemma DotCandidate(o: string, suffix: Suffix)
    ensures PairOf("./" + o, suffix)
            == if MatchOriginal(o, suffix).Some? then [Pair(o, MatchOriginal(o, suffix).value)] else []
  {
    assert StartsWith("./" + o, "./");
    assert ("./" + o)[2..] == o;
  }

  /** Cutting the candidates at `i` cuts their pairs. */
  lemma PairsOfSplit(paths: seq<string>, i: nat, suffix: Suffix)
    requires i < |paths|
    ensures PairsOf(paths[..i + 1], suffix) == PairsOf(paths[..i], suffix) + PairOf(paths[i], suffix)
    ensures PairsOf(paths, suffix) == PairsOf(paths[..i + 1], suffix) + PairsOf(paths[i + 1..], suffix)
  {
    assert paths[..i + 1] == paths[..i] + [paths[i]];
    assert paths == paths[..i + 1] + paths[i + 1..];
    PairsOfConcat(paths[..i], [paths[i]], suffix);
    PairsOfSingle(paths[i], suffix);
    PairsOfConcat(paths[..i + 1], paths[i + 1..], suffix);
  }
}
