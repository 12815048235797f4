/** The few Python `str` built-ins the ingestion scripts rely on: prefix and
    suffix tests, `find`, `rsplit('.', 1)`'s separator search, `strip()`,
    `lower()` and `splitlines()`, each with the meaning Python gives it. */
module Strings {

  predicate StartsWith(s: string, prefix: string) {
    |prefix| <= |s| && s[..|prefix|] == prefix
  }

  predicate EndsWith(s: string, suffix: string) {
    |suffix| <= |s| && s[|s| - |suffix|..] == suffix
  }

  /** `pat` occurs in `s` starting at index `i`. */
  predicate OccursAt(s: string, pat: string, i: int) {
    0 <= i && i + |pat| <= |s| && s[i..i + |pat|] == pat
  }

  /** Python's `s.find(pat)`: the lowest index at which `pat` occurs, or -1. */
  function Find(s: string, pat: string): (r: int)
    ensures -1 <= r <= |s|
    ensures r == -1 <==> forall i :: 0 <= i <= |s| ==> !OccursAt(s, pat, i)
    ensures r != -1 ==> OccursAt(s, pat, r) && forall i :: 0 <= i < r ==> !OccursAt(s, pat, i)
  {
    FindFrom(s, pat, 0)
  }

  function FindFrom(s: string, pat: string, k: nat): (r: int)
    requires k <= |s|
    requires forall i :: 0 <= i < k ==> !OccursAt(s, pat, i)
    ensures -1 <= r <= |s|
    ensures r == -1 <==> forall i :: 0 <= i <= |s| ==> !OccursAt(s, pat, i)
    ensures r != -1 ==> OccursAt(s, pat, r) && forall i :: 0 <= i < r ==> !OccursAt(s, pat, i)
    decreases |s| - k
  {
    if OccursAt(s, pat, k) then k
    else if k == |s| then -1
    else FindFrom(s, pat, k + 1)
  }

  /** The index of the last occurrence of `c` in `s`; `rsplit(c, 1)` cuts there. */
  function LastIndexOf(s: string, c: char): (r: nat)
    requires c in s
    ensures r < |s| && s[r] == c
    ensures forall i :: r < i < |s| ==> s[i] != c
  {
    if s[|s| - 1] == c then |s| - 1 else LastIndexOf(s[..|s| - 1], c)
  }

  /** Python's `str.isspace()` on one character: the ASCII blanks and
      separators 0x09-0x0D and 0x1C-0x1F, and the Unicode spaces. */
  predicate IsSpace(c: char) {
    || c == ' ' || '\t' <= c <= '\r' || '\U{1C}' <= c <= '\U{1F}'
    || c == '\U{85}' || c == '\U{A0}' || c == '\U{1680}'
    || '\U{2000}' <= c <= '\U{200A}' || c == '\U{2028}' || c == '\U{2029}'
    || c == '\U{202F}' || c == '\U{205F}' || c == '\U{3000}'
  }

  /** The number of whitespace characters at the front of `s`. */
  function LeadingSpaces(s: string): (n: nat)
    ensures n <= |s|
    ensures forall k :: 0 <= k < n ==> IsSpace(s[k])
    ensures n < |s| ==> !IsSpace(s[n])
  {
    if s == [] || !IsSpace(s[0]) then 0 else 1 + LeadingSpaces(s[1..])
  }

  /** The number of whitespace characters at the end of `s`. */
  function TrailingSpaces(s: string): (n: nat)
    ensures n <= |s|
    ensures forall k :: |s| - n <= k < |s| ==> IsSpace(s[k])
    ensures n < |s| ==> !IsSpace(s[|s| - 1 - n])
  {
    if s == [] || !IsSpace(s[|s| - 1]) then 0 else 1 + TrailingSpaces(s[..|s| - 1])
  }

  /** Python's `s.strip()`: `s` without leading and trailing whitespace. */
  function Strip(s: string): (r: string)
    ensures LeadingSpaces(s) + |r| <= |s|
    ensures r == s[LeadingSpaces(s)..LeadingSpaces(s) + |r|]
    ensures r == [] || (!IsSpace(r[0]) && !IsSpace(r[|r| - 1]))
    ensures forall k :: 0 <= k < LeadingSpaces(s) ==> IsSpace(s[k])
    ensures forall k :: LeadingSpaces(s) + |r| <= k < |s| ==> IsSpace(s[k])
  {
    var t := s[LeadingSpaces(s)..];
    t[..|t| - TrailingSpaces(t)]
  }

  /** Lower-casing of one character, restricted to the ASCII letters. */
  function LowerChar(c: char): char {
    if 'A' <= c <= 'Z' then (c as int + 32) as char else c
  }

  /** `s.lower()` for text whose only cased letters are ASCII. */
  function Lower(s: string): (r: string)
    ensures |r| == |s|
    ensures forall i :: 0 <= i < |s| ==> r[i] == LowerChar(s[i])
  {
    seq(|s|, i requires 0 <= i < |s| => LowerChar(s[i]))
  }

  /** The characters at which Python's `str.splitlines()` breaks a line. */
  predicate IsLineBreak(c: char) {
    || c == '\n' || c == '\r' || c == '\U{0B}' || c == '\U{0C}'
    || '\U{1C}' <= c <= '\U{1E}' || c == '\U{85}' || c == '\U{2028}' || c == '\U{2029}'
  }

  /** The index of the first line break in `s`, or `|s|` if there is none. */
  function LineEnd(s: string): (n: nat)
    ensures n <= |s|
    ensures forall k :: 0 <= k < n ==> !IsLineBreak(s[k])
    ensures n < |s| ==> IsLineBreak(s[n])
  {
    if s == [] || IsLineBreak(s[0]) then 0 else 1 + LineEnd(s[1..])
  }

  /** Python's `s.splitlines()`: the lines of `s` without their line breaks,
      `\r\n` counting as one break and a final break opening no empty line. */
  function SplitLines(s: string): (lines: seq<string>)
    ensures forall i, k :: 0 <= i < |lines| && 0 <= k < |lines[i]| ==> !IsLineBreak(lines[i][k])
    ensures s == [] <==> lines == []
    decreases |s|
  {
    if s == [] then []
    else
      var n := LineEnd(s);
      if n == |s| then [s]
      else
        [s[..n]] + SplitLines(s[BreakEnd(s, n)..])
  }

  /** Where the text after the line break at `n` starts: `\r\n` is one
      break of two characters, every other break is one character. */
  function BreakEnd(s: string, n: nat): (next: nat)
    requires n < |s| && IsLineBreak(s[n])
    ensures n < next <= |s|
  {
    if s[n] == '\r' && n + 1 < |s| && s[n + 1] == '\n' then n + 2 else n + 1
  }

  /** What may close a line: one line-break character, or `\r\n`. */
  predicate IsTerminator(t: string) {
    t == "\r\n" || (|t| == 1 && IsLineBreak(t[0]))
  }

  /** The break at `n`, as a piece of `s`. */
  function Terminator(s: string, n: nat): (t: string)
    requires n < |s| && IsLineBreak(s[n])
    ensures IsTerminator(t)
    ensures t == s[n..BreakEnd(s, n)]
  {
    if BreakEnd(s, n) == n + 2 then
      assert s[n..n + 2] == "\r\n";
      s[n..n + 2]
    else [s[n]]
  }

  /** The lines put back together, each followed by what closed it. */
  function Rejoin(lines: seq<string>, ends: seq<string>): string
    requires |lines| == |ends|
    decreases |lines|
  {
    if lines == [] then [] else lines[0] + ends[0] + Rejoin(lines[1..], ends[1..])
  }

  /** The break that closes each line `SplitLines(s)` returns: a terminator
      for every line but the last, which may also run to the end of `s`. */
  function LineEnds(s: string): (ends: seq<string>)
    ensures |ends| == |SplitLines(s)|
    ensures forall i :: 0 <= i < |ends| ==> ends[i] == "" || IsTerminator(ends[i])
    ensures forall i :: 0 <= i < |ends| - 1 ==> ends[i] != ""
    decreases |s|
  {
    if s == [] then []
    else
      var n := LineEnd(s);
      if n == |s| then [""]
      else [Terminator(s, n)] + LineEnds(s[BreakEnd(s, n)..])
  }

  /** A final break opens no empty line: a last line that runs to the end
      of `s` without a terminator is not empty. */
  lemma {:induction false} NoTrailingEmptyLine(s: string)
    ensures var ends := LineEnds(s);
      |ends| > 0 && ends[|ends| - 1] == "" ==> SplitLines(s)[|ends| - 1] != ""
    decreases |s|
  {
    if s != [] {
      var n := LineEnd(s);
      if n < |s| {
        var t := s[BreakEnd(s, n)..];
        NoTrailingEmptyLine(t);
        assert SplitLines(s)[1..] == SplitLines(t) && LineEnds(s)[1..] == LineEnds(t);
      }
    }
  }

  /** Each line followed by its terminator, in order, gives back `s`: the
      lines are consecutive pieces of `s` cut at its line breaks. */
  lemma {:induction false} SplitLinesRejoin(s: string)
    ensures Rejoin(SplitLines(s), LineEnds(s)) == s
    decreases |s|
  {
    if s != [] {
      var n := LineEnd(s);
      if n == |s| {
        assert Rejoin([s], [""]) == s + "" + Rejoin([], []);
      } else {
        SplitLinesRejoin(s[BreakEnd(s, n)..]);
        RejoinStep(s, n);
      }
    }
  }

  /** One line and its terminator in front of the rest. */
  lemma RejoinStep(s: string, n: nat)
    requires n == LineEnd(s) < |s|
    requires Rejoin(SplitLines(s[BreakEnd(s, n)..]), LineEnds(s[BreakEnd(s, n)..])) == s[BreakEnd(s, n)..]
    ensures Rejoin(SplitLines(s), LineEnds(s)) == s
  {
    var next := BreakEnd(s, n);
    var t := s[next..];
    assert SplitLines(s) == [s[..n]] + SplitLines(t);
    assert LineEnds(s) == [s[n..next]] + LineEnds(t);
    RejoinCons(s[..n], s[n..next], SplitLines(t), LineEnds(t));
    SplitThree(s, n, next);
  }

  lemma SplitThree(s: string, a: nat, b: nat)
    requires a <= b <= |s|
    ensures s[..a] + s[a..b] + s[b..] == s
  {
    assert s[..a] + s[a..b] == s[..b];
  }

  lemma RejoinCons(line: string, end: string, lines: seq<string>, ends: seq<string>)
    requires |lines| == |ends|
    ensures Rejoin([line] + lines, [end] + ends) == line + end + Rejoin(lines, ends)
  {
    assert ([line] + lines)[1..] == lines;
    assert ([end] + ends)[1..] == ends;
  }

  /** `\r\n` is one break: a line closed by a lone `\r` is never followed
      by an empty line closed by `\n`. */
  lemma {:induction false} CrLfIsOneBreak(s: string, i: nat)
    requires i + 1 < |LineEnds(s)| && LineEnds(s)[i] == "\r"
    ensures !(SplitLines(s)[i + 1] == "" && LineEnds(s)[i + 1] == "\n")
    decreases |s|
  {
    var n := LineEnd(s);
    var t := s[BreakEnd(s, n)..];
    assert SplitLines(s)[1..] == SplitLines(t) && LineEnds(s)[1..] == LineEnds(t);
    if i > 0 {
      CrLfIsOneBreak(t, i - 1);
    } else {
      LoneCr(s, n);
    }
  }

  /** After a lone `\r` the text does not go on with an empty line closed
      by `\n`. */
  lemma LoneCr(s: string, n: nat)
    requires n == LineEnd(s) < |s| && Terminator(s, n) == "\r"
    ensures var t := s[BreakEnd(s, n)..];
      !(t != [] && LineEnd(t) == 0 && t[0] == '\n')
  {
  }
}
