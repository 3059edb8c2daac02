/** String helpers that give Python's string and regular-expression primitives
    used by mkpatch a precise meaning. */
module Text {

  datatype Option<T> = None | Some(value: T)

  /** `s` begins with `p` (`re.match('^p', s)` for a literal `p`). */
  predicate StartsWith(s: string, p: string) {
    |p| <= |s| && s[..|p|] == p
  }

  /** `s` ends with `p`. */
  predicate EndsWith(s: string, p: string) {
    |p| <= |s| && s[|s| - |p|..] == p
  }

  /** Python's `str.isspace()`, which is also what the regex class `\s`
      matches in a `str` pattern. */
  predicate IsSpace(c: char) {
    c == ' ' || '\t' <= c <= '\r' || '\U{1c}' <= c <= '\U{1f}' || c == '\U{85}'
    || c == '\U{a0}' || c == '\U{1680}' || '\U{2000}' <= c <= '\U{200a}'
    || c == '\U{2028}' || c == '\U{2029}' || c == '\U{202f}' || c == '\U{205f}'
    || c == '\U{3000}'
  }

  /** The regex class `\d`, restricted to the ASCII digits. */
  predicate IsDigit(c: char) {
    '0' <= c <= '9'
  }

  predicate AllDigits(s: string) {
    forall k :: 0 <= k < |s| ==> IsDigit(s[k])
  }

  predicate NoNewline(s: string) {
    forall k :: 0 <= k < |s| ==> s[k] != '\n'
  }

  /** Python's `$` (no MULTILINE flag) matches at the end of the string and
      just before a final newline. `Body` is the part of a line in front of
      that final newline; `Terminator` is the newline itself, or nothing. */
  function Body(line: string): (b: string)
    ensures StartsWith(line, b) && |line| - 1 <= |b|
  {
    if |line| > 0 && line[|line| - 1] == '\n' then line[..|line| - 1] else line
  }

  function Terminator(line: string): (t: string)
    ensures line == Body(line) + t
    ensures t == [] || t == "\n"
  {
    if |line| > 0 && line[|line| - 1] == '\n' then "\n" else ""
  }

  /** Splitting a line into content and terminator and joining them back
      gives the content and terminator it was made from. */
  lemma BodyOfJoin(content: string, t: string)
    requires t == [] || t == "\n"
    requires t == [] ==> content == [] || content[|content| - 1] != '\n'
    ensures Body(content + t) == content && Terminator(content + t) == t
  {
  }

  /** Python's `str.rstrip()` with no argument: drops trailing whitespace. */
  function RStrip(s: string): (r: string)
    ensures StartsWith(s, r)
    ensures r == [] || !IsSpace(r[|r| - 1])
    ensures forall k :: |r| <= k < |s| ==> IsSpace(s[k])
  {
    if |s| > 0 && IsSpace(s[|s| - 1]) then RStrip(s[..|s| - 1]) else s
  }

  /** Whitespace after a string that does not end in whitespace is what
      `rstrip` removes, and all it removes. */
  lemma {:induction false} RStripAfter(s: string, t: string)
    requires s == [] || !IsSpace(s[|s| - 1])
    requires forall k :: 0 <= k < |t| ==> IsSpace(t[k])
    ensures RStrip(s + t) == s
    decreases |t|
  {
    if t == [] {
      assert s + t == s;
    } else {
      var u := t[..|t| - 1];
      assert (s + t)[..|s + t| - 1] == s + u;
      assert (s + t)[|s + t| - 1] == t[|t| - 1];
      RStripAfter(s, u);
    }
  }

  /** Python's `sep.join(words)`. */
  function Join(words: seq<string>, sep: string): string {
    if |words| == 0 then ""
    else if |words| == 1 then words[0]
    else words[0] + sep + Join(words[1..], sep)
  }
}
