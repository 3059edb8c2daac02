/** The regular expression `(A+B+)+$` for two disjoint character classes `A`
    and `B`, and `re.sub` with it and an empty replacement: the removal of
    the longest trailing sequence of groups, each a run of `A` characters
    followed by a run of `B` characters. The classes are parameters so that
    the reasoning about runs does not depend on which characters they hold. */
module TailGroups {
  import opened Text

  predicate Disjoint(a: char -> bool, b: char -> bool) {
    forall c :: !(a(c) && b(c))
  }

  /** End of the run of `cls` characters that starts at `i`. */
  function RunEnd(w: string, i: nat, cls: char -> bool): (e: nat)
    requires i <= |w|
    ensures i <= e <= |w| && (forall k :: i <= k < e ==> cls(w[k]))
    ensures e == |w| || !cls(w[e])
    decreases |w| - i
  {
    if i < |w| && cls(w[i]) then RunEnd(w, i + 1, cls) else i
  }

  /** End of the group that starts at `i`: its `A` run and the `B` run
      after it. */
  function GroupEnd(w: string, i: nat, a: char -> bool, b: char -> bool): (e: nat)
    requires i <= |w|
    ensures RunEnd(w, i, a) <= e <= |w|
  {
    RunEnd(w, RunEnd(w, i, a), b)
  }

  /** `w[i..]` is matched in full by `(A+B+)+`. When the classes are
      disjoint there is only one way to cut it into groups, the cut at the
      ends of the maximal runs, which is the one followed here. */
  predicate GroupsFrom(w: string, i: nat, a: char -> bool, b: char -> bool)
    requires i <= |w|
    decreases |w| - i
  {
    && RunEnd(w, i, a) > i
    && GroupEnd(w, i, a, b) > RunEnd(w, i, a)
    && (GroupEnd(w, i, a, b) == |w| || GroupsFrom(w, GroupEnd(w, i, a, b), a, b))
  }

  /** `w` is matched in full by `(A+B+)+`. */
  predicate Groups(w: string, a: char -> bool, b: char -> bool) {
    GroupsFrom(w, 0, a, b)
  }

  /** The same language described by its characters: an `A` first, a `B`
      last, and nothing from outside the two classes. */
  predicate FlatFrom(w: string, i: nat, a: char -> bool, b: char -> bool) {
    && i < |w| && a(w[i]) && b(w[|w| - 1])
    && forall k :: i <= k < |w| ==> a(w[k]) || b(w[k])
  }

  predicate FlatTail(w: string, a: char -> bool, b: char -> bool) {
    FlatFrom(w, 0, a, b)
  }

  lemma {:induction false} GroupsAreFlat(w: string, i: nat, a: char -> bool, b: char -> bool)
    requires i <= |w| && GroupsFrom(w, i, a, b)
    ensures FlatFrom(w, i, a, b)
    decreases |w| - i
  {
    var g := GroupEnd(w, i, a, b);
    if g < |w| {
      GroupsAreFlat(w, g, a, b);
    }
  }

  lemma {:induction false} FlatIsGroups(w: string, i: nat, a: char -> bool, b: char -> bool)
    requires Disjoint(a, b) && FlatFrom(w, i, a, b)
    ensures GroupsFrom(w, i, a, b)
    decreases |w| - i
  {
    var n := RunEnd(w, i, a);
    assert n < |w| by {
      assert !a(w[|w| - 1]);
    }
    var g := GroupEnd(w, i, a, b);
    if g < |w| {
      assert a(w[g]);
      FlatIsGroups(w, g, a, b);
    }
  }

  /** For disjoint classes, matching `(A+B+)+` is a matter of characters. */
  lemma GroupsIff(w: string, a: char -> bool, b: char -> bool)
    requires Disjoint(a, b)
    ensures Groups(w, a, b) <==> FlatTail(w, a, b)
  {
    if Groups(w, a, b) {
      GroupsAreFlat(w, 0, a, b);
    }
    if FlatTail(w, a, b) {
      FlatIsGroups(w, 0, a, b);
    }
  }

  /** Start of the run of `A`-or-`B` characters that ends at `k`. */
  function TailRunStart(s: string, k: nat, a: char -> bool, b: char -> bool): (j: nat)
    requires k <= |s|
    ensures j <= k && (forall m :: j <= m < k ==> a(s[m]) || b(s[m]))
    ensures j == 0 || !(a(s[j - 1]) || b(s[j - 1]))
  {
    if k == 0 || !(a(s[k - 1]) || b(s[k - 1])) then k else TailRunStart(s, k - 1, a, b)
  }

  /** The first `cls` character at or after `j`, or the end. */
  function FirstIn(s: string, j: nat, cls: char -> bool): (i: nat)
    requires j <= |s|
    ensures j <= i <= |s| && (forall m :: j <= m < i ==> !cls(s[m]))
    ensures i == |s| || cls(s[i])
    decreases |s| - j
  {
    if j == |s| || cls(s[j]) then j else FirstIn(s, j + 1, cls)
  }

  /** `(A+B+)+` matches `body[i..]` in full. */
  predicate TailAt(body: string, i: int, a: char -> bool, b: char -> bool) {
    0 <= i <= |body| && GroupsFrom(body, i, a, b)
  }

  /** Where `re.sub` cuts: the first `A` of the trailing run of
      `A`-or-`B` characters. */
  function TailStart(body: string, a: char -> bool, b: char -> bool): (i: nat)
    ensures i <= |body|
  {
    FirstIn(body, TailRunStart(body, |body|, a, b), a)
  }

  /** The content ends in a `B` and the trailing run holds an `A`: the
      pattern matches somewhere. */
  predicate Matches(body: string, a: char -> bool, b: char -> bool) {
    |body| > 0 && b(body[|body| - 1]) && TailStart(body, a, b) < |body|
  }

  /** `re.sub('(A+B+)+$', '', line)`. A match ends where `$` matches; it
      ends in a `B` character, so not after a final newline, and it
      therefore ends the line's content. */
  function StripGroups(line: string, a: char -> bool, b: char -> bool): string {
    if Matches(Body(line), a, b) then Body(line)[..TailStart(Body(line), a, b)] + Terminator(line) else line
  }

  /** Where the pattern matches: at an `A` inside the trailing run of
      `A`-or-`B` characters, when that run ends in a `B`. */
  lemma TailAtIff(body: string, k: int, a: char -> bool, b: char -> bool)
    requires Disjoint(a, b)
    ensures TailAt(body, k, a, b) <==>
            (TailRunStart(body, |body|, a, b) <= k < |body| && a(body[k]) && b(body[|body| - 1]))
  {
    if TailAt(body, k, a, b) {
      TailAtInRun(body, k, a, b);
    }
    if TailRunStart(body, |body|, a, b) <= k < |body| && a(body[k]) && b(body[|body| - 1]) {
      RunGivesTailAt(body, k, a, b);
    }
  }

  lemma RunGivesTailAt(body: string, k: int, a: char -> bool, b: char -> bool)
    requires Disjoint(a, b)
    requires TailRunStart(body, |body|, a, b) <= k < |body| && a(body[k]) && b(body[|body| - 1])
    ensures TailAt(body, k, a, b)
  {
    FlatIsGroups(body, k, a, b);
  }

  lemma TailAtInRun(body: string, k: int, a: char -> bool, b: char -> bool)
    requires TailAt(body, k, a, b)
    ensures TailRunStart(body, |body|, a, b) <= k < |body| && a(body[k]) && b(body[|body| - 1])
  {
    GroupsAreFlat(body, k, a, b);
    RunStartCovers(body, |body|, k, a, b);
  }

  /** The trailing run reaches back over every stretch of `A`-or-`B`
      characters that ends at `k`. */
  lemma {:induction false} RunStartCovers(s: string, k: nat, m: nat, a: char -> bool, b: char -> bool)
    requires m <= k <= |s| && forall x :: m <= x < k ==> a(s[x]) || b(s[x])
    ensures TailRunStart(s, k, a, b) <= m
    decreases k
  {
    if m < k {
      RunStartCovers(s, k - 1, m, a, b);
    }
  }

  /** `TailStart` is where the leftmost match starts, if the pattern
      matches at all. */
  lemma LeftmostTail(body: string, a: char -> bool, b: char -> bool)
    requires Disjoint(a, b)
    ensures TailAt(body, TailStart(body, a, b), a, b) <==> Matches(body, a, b)
    ensures forall k :: TailAt(body, k, a, b) ==> TailStart(body, a, b) <= k && Matches(body, a, b)
  {
    TailAtIff(body, TailStart(body, a, b), a, b);
    forall k | TailAt(body, k, a, b) ensures TailStart(body, a, b) <= k && Matches(body, a, b) {
      TailAtInRun(body, k, a, b);
    }
  }

  /** `re.sub` removes the leftmost match, which is the longest trailing
      sequence of groups, and keeps the final newline; without a match the
      line is unchanged. */
  lemma StripGroupsSpec(line: string, a: char -> bool, b: char -> bool)
    requires Disjoint(a, b)
    ensures forall i :: TailAt(Body(line), i, a, b)
                        && (forall k :: 0 <= k < i ==> !TailAt(Body(line), k, a, b)) ==>
              StripGroups(line, a, b) == Body(line)[..i] + Terminator(line)
    ensures (forall i :: !TailAt(Body(line), i, a, b)) ==> StripGroups(line, a, b) == line
  {
    LeftmostTail(Body(line), a, b);
  }

  /** A head followed by a sequence of groups comes out as the head,
      provided the head does not itself end in an `A` followed only by
      `A`-or-`B` characters. */
  lemma StripGroupsAfterHead(head: string, tail: string, t: string,
                             a: char -> bool, b: char -> bool)
    requires Disjoint(a, b)
    requires Groups(tail, a, b)
    requires forall k :: 0 <= k < |head| && a(head[k]) ==>
               exists m :: k <= m < |head| && !(a(head[m]) || b(head[m]))
    requires t == [] || t == "\n"
    requires a('\n')
    ensures StripGroups(head + tail + t, a, b) == head + t
  {
    var content := head + tail;
    TailAfterHead(head, tail, a, b);
    assert content[|content| - 1] == tail[|tail| - 1];
    assert !b('\n');
    BodyOfJoin(content, t);
    forall k | 0 <= k < |head| ensures !TailAt(content, k, a, b) {
      HeadNotInTail(head, tail, k, a, b);
    }
    LeftmostTail(content, a, b);
    assert content[..|head|] == head;
  }

  /** The groups after the head match where the head ends. */
  lemma TailAfterHead(head: string, tail: string, a: char -> bool, b: char -> bool)
    requires Disjoint(a, b) && Groups(tail, a, b)
    ensures TailAt(head + tail, |head|, a, b)
    ensures b(tail[|tail| - 1])
  {
    var content := head + tail;
    GroupsAreFlat(tail, 0, a, b);
    forall k | |head| <= k < |content| ensures a(content[k]) || b(content[k]) {
      assert content[k] == tail[k - |head|];
    }
    assert content[|head|] == tail[0];
    assert content[|content| - 1] == tail[|tail| - 1];
    FlatIsGroups(content, |head|, a, b);
  }

  /** No match starts inside a head that has an outside character after
      each of its `A`s. */
  lemma HeadNotInTail(head: string, tail: string, k: nat, a: char -> bool, b: char -> bool)
    requires k < |head|
    requires forall k :: 0 <= k < |head| && a(head[k]) ==>
               exists m :: k <= m < |head| && !(a(head[m]) || b(head[m]))
    ensures !TailAt(head + tail, k, a, b)
  {
    var content := head + tail;
    if TailAt(content, k, a, b) {
      GroupsAreFlat(content, k, a, b);
    }
    assert content[k] == head[k];
    if a(head[k]) {
      var m :| k <= m < |head| && !(a(head[m]) || b(head[m]));
      assert content[m] == head[m];
    }
  }

  /** What is kept reaches at least the first `A` character, is followed by
      the same terminator, and has nothing left to strip. Needs the newline
      to be an `A` character, as it is for `\s`. */
  lemma StripGroupsShape(line: string, a: char -> bool, b: char -> bool)
    requires Disjoint(a, b) && a('\n')
    ensures StartsWith(Body(line), Body(StripGroups(line, a, b)))
    ensures |Body(StripGroups(line, a, b))| >= FirstIn(Body(line), 0, a)
    ensures Terminator(StripGroups(line, a, b)) == Terminator(line)
    ensures StripGroups(line, a, b) != line ==> forall k :: !TailAt(Body(StripGroups(line, a, b)), k, a, b)
  {
    var body := Body(line);
    if Matches(body, a, b) {
      var i := TailStart(body, a, b);
      var kept := body[..i];
      KeptEnd(body, a, b);
      BodyOfJoin(kept, Terminator(line));
      assert FirstIn(body, 0, a) <= i;
      NothingLeftToStrip(body, a, b);
    }
  }

  lemma KeptEnd(body: string, a: char -> bool, b: char -> bool)
    requires a('\n') && TailStart(body, a, b) < |body|
    ensures TailStart(body, a, b) == 0 || body[TailStart(body, a, b) - 1] != '\n'
  {
    var j := TailRunStart(body, |body|, a, b);
    var i := TailStart(body, a, b);
    if i > j {
      assert !a(body[i - 1]);
    }
  }

  lemma NothingLeftToStrip(body: string, a: char -> bool, b: char -> bool)
    requires Disjoint(a, b) && TailStart(body, a, b) < |body|
    ensures forall k :: !TailAt(body[..TailStart(body, a, b)], k, a, b)
  {
    var j := TailRunStart(body, |body|, a, b);
    var kept := body[..TailStart(body, a, b)];
    var j' := TailRunStart(kept, |kept|, a, b);
    assert j' >= j;
    forall k ensures !TailAt(kept, k, a, b) {
      TailAtIff(kept, k, a, b);
    }
  }

  /** Stripping twice strips no more than stripping once. */
  lemma StripGroupsIdempotent(line: string, a: char -> bool, b: char -> bool)
    requires Disjoint(a, b) && a('\n')
    ensures StripGroups(StripGroups(line, a, b), a, b) == StripGroups(line, a, b)
  {
    StripGroupsShape(line, a, b);
    StripGroupsSpec(StripGroups(line, a, b), a, b);
  }
}
