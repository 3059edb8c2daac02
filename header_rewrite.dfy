/** The line-by-line pass over `diff`'s output. In ports format every output
    line that begins with `---` or `+++` loses its time-stamp noise: a `---`
    line has its fractional seconds and `+0000` offset replaced by ` UTC`, a
    `+++` line loses its time stamp altogether. These are the two file
    headers, but also a deleted body line whose text begins with `--` and an
    added one whose text begins with `++`. Every other line is copied. */
module HeaderRewrite {
  import opened Text
  import opened TailGroups

  /** The character class `[-0-9:.+]` of time-stamp characters. */
  predicate IsStampChar(c: char) {
    c == '-' || IsDigit(c) || c == ':' || c == '.' || c == '+'
  }

  predicate IsStampOrSpace(c: char) {
    IsSpace(c) || IsStampChar(c)
  }

  // ---------------------------------------------------------------------
  // `---` lines: re.sub(r'\.\d* \+0000$', ' UTC', line)
  // ---------------------------------------------------------------------

  /** The pattern `\.\d* \+0000` matches `body[i..]` in full. */
  predicate OffsetTailAt(body: string, i: int) {
    && 0 <= i && i + 7 <= |body|
    && body[i] == '.'
    && AllDigits(body[i + 1..|body| - 6])
    && body[|body| - 6..] == " +0000"
  }

  /** Start of the run of digits that ends at `k`. */
  function DigitRunStart(s: string, k: nat): (j: nat)
    requires k <= |s|
    ensures j <= k && AllDigits(s[j..k])
    ensures j == 0 || !IsDigit(s[j - 1])
  {
    if k == 0 || !IsDigit(s[k - 1]) then k
    else
      var j := DigitRunStart(s, k - 1);
      assert s[j..k] == s[j..k - 1] + [s[k - 1]];
      j
  }

  function RewriteOldHeader(line: string): string {
    var b := Body(line);
    if EndsWith(b, " +0000") then
      var j := DigitRunStart(b, |b| - 6);
      if j > 0 && b[j - 1] == '.' then b[..j - 1] + " UTC" + Terminator(line) else line
    else line
  }

  /** A `.` is not a digit, so the pattern can start in one place only. */
  lemma {:induction false} OffsetTailUnique(body: string, i: int, i': int)
    requires OffsetTailAt(body, i) && OffsetTailAt(body, i')
    ensures i == i'
  {
  }

  /** The run of digits ending at `k` reaches back over every all-digit
      stretch that ends at `k`. */
  lemma {:induction false} DigitRunCovers(s: string, k: nat, m: nat)
    requires m <= k <= |s| && AllDigits(s[m..k])
    ensures DigitRunStart(s, k) <= m
    decreases k
  {
    if m < k {
      var run, shorter := s[m..k], s[m..k - 1];
      assert run[k - 1 - m] == s[k - 1];
      assert AllDigits(shorter) by {
        forall x | 0 <= x < |shorter| ensures IsDigit(shorter[x]) {
          assert shorter[x] == run[x];
        }
      }
      DigitRunCovers(s, k - 1, m);
    }
  }

  /** The run of digits ending at `k` stops after a non-digit. */
  lemma {:induction false} DigitRunStops(s: string, k: nat, m: nat)
    requires m < k <= |s| && !IsDigit(s[m])
    ensures DigitRunStart(s, k) > m
    decreases k
  {
    if IsDigit(s[k - 1]) {
      DigitRunStops(s, k - 1, m);
    }
  }

  /** Where the pattern matches: at the `.` in front of the run of digits
      that precedes a final ` +0000`. */
  lemma OffsetTailAtIff(b: string, i: int)
    ensures OffsetTailAt(b, i) <==>
            (EndsWith(b, " +0000") && 0 <= i && i + 1 == DigitRunStart(b, |b| - 6) && b[i] == '.')
  {
    if OffsetTailAt(b, i) {
      DigitRunCovers(b, |b| - 6, i + 1);
      DigitRunStops(b, |b| - 6, i);
    }
    if EndsWith(b, " +0000") && 0 <= i && i + 1 == DigitRunStart(b, |b| - 6) && b[i] == '.' {
      assert b[i + 1..|b| - 6] == b[DigitRunStart(b, |b| - 6)..|b| - 6];
    }
  }

  /** `re.sub` replaces the one match of `\.\d* \+0000` that ends the line's
      content with ` UTC` and keeps the final newline; without a match the
      line is unchanged. */
  lemma RewriteOldHeaderSpec(line: string)
    ensures forall i :: OffsetTailAt(Body(line), i) ==>
              RewriteOldHeader(line) == Body(line)[..i] + " UTC" + Terminator(line)
    ensures (forall i :: !OffsetTailAt(Body(line), i)) ==> RewriteOldHeader(line) == line
  {
    forall i | OffsetTailAt(Body(line), i)
      ensures RewriteOldHeader(line) == Body(line)[..i] + " UTC" + Terminator(line)
    {
      OffsetTailAtIff(Body(line), i);
    }
    RewriteOldHeaderMatched(line);
  }

  /** When the line is rewritten, the pattern matched at the `.` in front of
      the digits. */
  lemma RewriteOldHeaderMatched(line: string)
    ensures RewriteOldHeader(line) != line ==> OffsetTailAt(Body(line), DigitRunStart(Body(line), |Body(line)| - 6) - 1)
  {
    var b := Body(line);
    if RewriteOldHeader(line) != line {
      OffsetTailAtIff(b, DigitRunStart(b, |b| - 6) - 1);
    }
  }

  /** A `---` header whose time stamp ends in fractional seconds and
      ` +0000` comes out with that tail replaced by ` UTC`. */
  lemma OldHeaderStamp(head: string, fraction: string, t: string)
    requires AllDigits(fraction)
    requires t == [] || t == "\n"
    ensures RewriteOldHeader(head + "." + fraction + " +0000" + t) == head + " UTC" + t
  {
    var content := head + "." + fraction + " +0000";
    BodyOfJoin(content, t);
    assert content[|head| + 1..|content| - 6] == fraction;
    assert OffsetTailAt(content, |head|);
    RewriteOldHeaderSpec(content + t);
    assert content[..|head|] == head;
  }

  // ---------------------------------------------------------------------
  // `+++` lines: re.sub(r'(\s+[-0-9:.+]+)+$', '', line)
  // ---------------------------------------------------------------------

  lemma SpaceAndStampDisjoint()
    ensures Disjoint(IsSpace, IsStampChar)
  {
  }

  function RewriteNewHeader(line: string): string {
    StripGroups(line, IsSpace, IsStampChar)
  }

  /** `re.sub` removes the leftmost match of `(\s+[-0-9:.+]+)+` that ends the
      line's content, which is the longest trailing sequence of (whitespace
      run, time-stamp run) groups, and keeps the final newline; without a
      match the line is unchanged. */
  lemma RewriteNewHeaderSpec(line: string)
    ensures forall i :: TailAt(Body(line), i, IsSpace, IsStampChar)
                        && (forall k :: 0 <= k < i ==> !TailAt(Body(line), k, IsSpace, IsStampChar)) ==>
              RewriteNewHeader(line) == Body(line)[..i] + Terminator(line)
    ensures (forall i :: !TailAt(Body(line), i, IsSpace, IsStampChar)) ==> RewriteNewHeader(line) == line
  {
    SpaceAndStampDisjoint();
    StripGroupsSpec(line, IsSpace, IsStampChar);
  }

  /** A `+++` header made of a head and a time stamp comes out as the head,
      provided the head does not itself end in whitespace followed only by
      whitespace and time-stamp characters. */
  lemma NewHeaderStamp(head: string, stamp: string, t: string)
    requires Groups(stamp, IsSpace, IsStampChar)
    requires forall k :: 0 <= k < |head| && IsSpace(head[k]) ==>
               exists m :: k <= m < |head| && !IsStampOrSpace(head[m])
    requires t == [] || t == "\n"
    ensures RewriteNewHeader(head + stamp + t) == head + t
  {
    SpaceAndStampDisjoint();
    StripGroupsAfterHead(head, stamp, t, IsSpace, IsStampChar);
  }

  // ---------------------------------------------------------------------
  // The loop over diff's output
  // ---------------------------------------------------------------------

  /** What one line of `diff`'s output becomes. */
  function NormalizeLine(line: string, portsFormat: bool): string {
    if !portsFormat then line
    else if StartsWith(line, "---") then RewriteOldHeader(line)
    else if StartsWith(line, "+++") then RewriteNewHeader(line)
    else line
  }

  function NormalizeAll(lines: seq<string>, portsFormat: bool): (out: seq<string>)
    ensures |out| == |lines|
  {
    seq(|lines|, k requires 0 <= k < |lines| => NormalizeLine(lines[k], portsFormat))
  }

  /** Reads `diff`'s output line by line and writes each line, rewritten in
      ports format when it begins with `---` or `+++`, in the order read. */
  method WriteDiffOutput(lines: seq<string>, portsFormat: bool) returns (written: seq<string>)
    ensures |written| == |lines|
    ensures forall k :: 0 <= k < |lines| ==> written[k] == NormalizeLine(lines[k], portsFormat)
    ensures !portsFormat ==> written == lines
    ensures written == NormalizeAll(lines, portsFormat)
  {
    written := [];
    for n := 0 to |lines|
      invariant |written| == n
      invariant forall k :: 0 <= k < n ==> written[k] == NormalizeLine(lines[k], portsFormat)
    {
      var line := lines[n];
      if portsFormat {
        if StartsWith(line, "---") {
          line := RewriteOldHeader(line);
        } else if StartsWith(line, "+++") {
          line := RewriteNewHeader(line);
        }
      }
      written := written + [line];
    }
  }

  /** The `---` rewrite keeps the `---` prefix and the final newline, and
      leaves nothing for a second rewrite to do. */
  lemma OldHeaderShape(line: string)
    requires StartsWith(line, "---")
    ensures StartsWith(RewriteOldHeader(line), "---")
    ensures Terminator(RewriteOldHeader(line)) == Terminator(line)
    ensures RewriteOldHeader(RewriteOldHeader(line)) == RewriteOldHeader(line)
  {
    var b := Body(line);
    RewriteOldHeaderSpec(line);
    if j :| OffsetTailAt(b, j) {
      OldHeaderRewritten(line, j);
    }
  }

  /** The `---` line once rewritten ends in ` UTC`, which the pattern does
      not match. */
  lemma OldHeaderRewritten(line: string, j: int)
    requires StartsWith(line, "---") && OffsetTailAt(Body(line), j)
    requires RewriteOldHeader(line) == Body(line)[..j] + " UTC" + Terminator(line)
    ensures StartsWith(RewriteOldHeader(line), "---")
    ensures Terminator(RewriteOldHeader(line)) == Terminator(line)
    ensures RewriteOldHeader(RewriteOldHeader(line)) == RewriteOldHeader(line)
  {
    var b := Body(line);
    var t := Terminator(line);
    assert b[..3] == line[..3];
    var content := b[..j] + " UTC";
    var r := content + t;
    assert r[..3] == b[..3];
    BodyOfJoin(content, t);
    RewriteOldHeaderSpec(r);
    assert content[|content| - 1] == 'C';
  }

  /** The `+++` rewrite keeps the `+++` prefix and the final newline, and
      leaves nothing for a second rewrite to do. */
  lemma NewHeaderShape(line: string)
    requires StartsWith(line, "+++")
    ensures StartsWith(RewriteNewHeader(line), "+++")
    ensures Terminator(RewriteNewHeader(line)) == Terminator(line)
    ensures RewriteNewHeader(RewriteNewHeader(line)) == RewriteNewHeader(line)
  {
    SpaceAndStampDisjoint();
    StripGroupsShape(line, IsSpace, IsStampChar);
    StripGroupsIdempotent(line, IsSpace, IsStampChar);
    KeepsPlusPrefix(line, RewriteNewHeader(line));
  }

  /** A line whose content begins the content of a `+++` line, reaching at
      least to its first space, begins with `+++` too. */
  lemma KeepsPlusPrefix(line: string, r: string)
    requires StartsWith(line, "+++")
    requires StartsWith(Body(line), Body(r)) && |Body(r)| >= FirstIn(Body(line), 0, IsSpace)
    ensures StartsWith(r, "+++")
  {
    var b := Body(line);
    assert b[..3] == line[..3];
    assert FirstIn(b, 0, IsSpace) >= 3 by {
      assert !IsSpace(b[0]) && !IsSpace(b[1]) && !IsSpace(b[2]);
    }
    assert Body(r)[..3] == b[..3];
    assert r[..3] == Body(r)[..3];
  }

  /** Only lines that begin with `---` or `+++` change, and only in ports
      format; they keep that beginning and their final newline. */
  lemma NormalizeKeepsShape(line: string, portsFormat: bool)
    ensures var r := NormalizeLine(line, portsFormat);
      && (!portsFormat || !(StartsWith(line, "---") || StartsWith(line, "+++")) ==> r == line)
      && (StartsWith(line, "---") ==> StartsWith(r, "---"))
      && (StartsWith(line, "+++") ==> StartsWith(r, "+++"))
      && Terminator(r) == Terminator(line)
  {
    if !portsFormat {
      assert NormalizeLine(line, portsFormat) == line;
    } else if StartsWith(line, "---") {
      assert NormalizeLine(line, portsFormat) == RewriteOldHeader(line);
      OldHeaderShape(line);
    } else if StartsWith(line, "+++") {
      assert NormalizeLine(line, portsFormat) == RewriteNewHeader(line);
      NewHeaderShape(line);
    } else {
      assert NormalizeLine(line, portsFormat) == line;
    }
  }

  /** The test is on the line alone, not on where it stands in the diff: a
      deleted body line whose text begins with `--` is rewritten like the
      `---` header. */
  lemma DeletedLineRewritten(text: string, fraction: string)
    requires StartsWith(text, "--") && AllDigits(fraction)
    ensures NormalizeLine("-" + text + "." + fraction + " +0000" + "\n", true) == "-" + text + " UTC" + "\n"
  {
    var line := "-" + text + "." + fraction + " +0000" + "\n";
    MarkedPrefix('-', text, "." + fraction + " +0000" + "\n");
    assert line == "-" + text + ("." + fraction + " +0000" + "\n");
    OldHeaderStamp("-" + text, fraction, "\n");
  }

  /** Likewise an added body line whose text begins with `++` loses a
      trailing time stamp like the `+++` header. */
  lemma AddedLineRewritten(text: string, stamp: string)
    requires StartsWith(text, "++") && Groups(stamp, IsSpace, IsStampChar)
    requires forall k :: 0 <= k < |text| && IsSpace(text[k]) ==>
               exists m :: k <= m < |text| && !IsStampOrSpace(text[m])
    ensures NormalizeLine("+" + text + stamp + "\n", true) == "+" + text + "\n"
  {
    var head := "+" + text;
    MarkedPrefix('+', text, stamp + "\n");
    assert head + stamp + "\n" == head + (stamp + "\n");
    SpaceFollowedAfter(head, text);
    NewHeaderStamp(head, stamp, "\n");
    NormalizeAddedLine(head + stamp + "\n");
  }

  /** A diff body line marked with `c` whose text starts with `c c` starts
      with three `c`. */
  lemma MarkedPrefix(c: char, text: string, rest: string)
    requires StartsWith(text, [c, c])
    ensures StartsWith([c] + text + rest, [c, c, c])
  {
    var line := [c] + text + rest;
    assert text[..2] == [c, c];
    assert line[0] == c && line[1] == text[0] && line[2] == text[1];
    assert line[..3] == [c, c, c];
  }

  lemma NormalizeAddedLine(line: string)
    requires StartsWith(line, "+++")
    ensures NormalizeLine(line, true) == RewriteNewHeader(line)
  {
    assert line[..3][0] == '+';
  }

  /** A non-space character before the text keeps every space of the text
      followed by a character that is neither space nor time stamp. */
  lemma SpaceFollowedAfter(head: string, text: string)
    requires forall k :: 0 <= k < |text| && IsSpace(text[k]) ==>
               exists m :: k <= m < |text| && !IsStampOrSpace(text[m])
    requires |head| == |text| + 1 && head[1..] == text && !IsSpace(head[0])
    ensures forall k :: 0 <= k < |head| && IsSpace(head[k]) ==>
              exists m :: k <= m < |head| && !IsStampOrSpace(head[m])
  {
    forall k | 0 <= k < |head| && IsSpace(head[k])
      ensures exists m :: k <= m < |head| && !IsStampOrSpace(head[m])
    {
      assert head[k] == text[k - 1];
      var m :| k - 1 <= m < |text| && !IsStampOrSpace(text[m]);
      assert head[m + 1] == text[m];
    }
  }

  /** Normalising twice gives what normalising once gives. */
  lemma NormalizeIdempotent(line: string, portsFormat: bool)
    ensures NormalizeLine(NormalizeLine(line, portsFormat), portsFormat)
            == NormalizeLine(line, portsFormat)
  {
    if portsFormat && StartsWith(line, "---") {
      OldHeaderShape(line);
    } else if portsFormat && StartsWith(line, "+++") {
      NewHeaderShape(line);
    }
  }
}
