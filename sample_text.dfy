/** The excerpt `extract_sample_text` keeps of a converted book: a window of
    1000 characters that starts at the first structural marker, stripped of
    surrounding whitespace. The file read is left out; the excerpt is a
    function of the text content. */
module SampleText {
  import opened Strings

  /** The markers searched for in the lower-cased text, in the source's order. */
  const Markers: seq<string> := ["chapter", "introduction", "prologue"]

  /** The width of the excerpt window. */
  const Window: nat := 1000

  /** Some marker occurs at index `i` of `lowered`. */
  predicate MarkerAt(lowered: string, i: int) {
    OccursAt(lowered, Markers[0], i) || OccursAt(lowered, Markers[1], i) || OccursAt(lowered, Markers[2], i)
  }

  /** The values of `positions` that are not -1, in order (the list comprehension). */
  function Found(positions: seq<int>): (r: seq<int>)
    ensures forall x :: x in r <==> x in positions && x != -1
  {
    if positions == [] then []
    else if positions[0] == -1 then Found(positions[1..])
    else [positions[0]] + Found(positions[1..])
  }

  /** Python's `min` of a non-empty list. */
  function Min(xs: seq<int>): (m: int)
    requires xs != []
    ensures m in xs && forall x :: x in xs ==> m <= x
  {
    if |xs| == 1 then xs[0]
    else
      var rest := Min(xs[1..]);
      assert forall x :: x in xs ==> x == xs[0] || x in xs[1..];
      if xs[0] <= rest then xs[0] else rest
  }

  /** Where the window starts: the least index at which any marker occurs in
      the lower-cased text, or 0 when none occurs. */
  function SampleStart(content: string): (start: nat)
    ensures start <= |content|
    ensures forall i :: 0 <= i < start ==> !MarkerAt(Lower(content), i)
    ensures MarkerAt(Lower(content), start)
            || (start == 0 && forall i :: 0 <= i <= |content| ==> !MarkerAt(Lower(content), i))
  {
    var lowered := Lower(content);
    var positions := [Find(lowered, Markers[0]), Find(lowered, Markers[1]), Find(lowered, Markers[2])];
    var candidates := Found(positions);
    StartIsFirstMarker(lowered, positions, candidates);
    if candidates == [] then 0 else Min(candidates)
  }

  /** The earliest found position is the first index at which any marker occurs. */
  lemma StartIsFirstMarker(lowered: string, positions: seq<int>, candidates: seq<int>)
    requires positions == [Find(lowered, Markers[0]), Find(lowered, Markers[1]), Find(lowered, Markers[2])]
    requires candidates == Found(positions)
    ensures candidates == [] ==> forall i :: 0 <= i <= |lowered| ==> !MarkerAt(lowered, i)
    ensures candidates != [] ==> 0 <= Min(candidates) <= |lowered| && MarkerAt(lowered, Min(candidates))
    ensures candidates != [] ==> forall i :: 0 <= i < Min(candidates) ==> !MarkerAt(lowered, i)
  {
    if candidates == [] {
      assert forall k :: 0 <= k < 3 ==> positions[k] !in candidates;
      assert forall k :: 0 <= k < 3 ==> positions[k] == -1;
    } else {
      var m := Min(candidates);
      assert m in positions;
      assert m == positions[0] || m == positions[1] || m == positions[2];
      forall i | 0 <= i < m
        ensures !MarkerAt(lowered, i)
      {
        forall k | 0 <= k < 3
          ensures !OccursAt(lowered, Markers[k], i)
        {
          if positions[k] != -1 {
            assert positions[k] in candidates;
          }
        }
      }
    }
  }

  /** The end of the window: `start + 1000`, clamped to the text as Python's slice clamps it. */
  function WindowEnd(content: string): (e: nat)
    ensures SampleStart(content) <= e <= |content|
    ensures e - SampleStart(content) <= Window
    ensures e == |content| || e - SampleStart(content) == Window
  {
    var start := SampleStart(content);
    if start + Window <= |content| then start + Window else |content|
  }

  /** The excerpt `content[start:start + 1000].strip()`. */
  function Sample(content: string): (r: string)
    ensures |r| <= Window
    ensures r == [] || (!IsSpace(r[0]) && !IsSpace(r[|r| - 1]))
  {
    Strip(content[SampleStart(content)..WindowEnd(content)])
  }

  /** Where the excerpt begins in the content: after the window's leading whitespace. */
  function SampleOffset(content: string): nat {
    SampleStart(content) + LeadingSpaces(content[SampleStart(content)..WindowEnd(content)])
  }

  /** The excerpt is the window `content[start:start + 1000]` with only
      whitespace cut off at either end: a piece of the content. */
  lemma {:induction false} SampleIsStrippedWindow(content: string)
    ensures SampleStart(content) <= SampleOffset(content)
    ensures SampleOffset(content) + |Sample(content)| <= WindowEnd(content)
    ensures content[SampleOffset(content)..SampleOffset(content) + |Sample(content)|] == Sample(content)
    ensures forall k :: SampleStart(content) <= k < SampleOffset(content) ==> IsSpace(content[k])
    ensures forall k :: SampleOffset(content) + |Sample(content)| <= k < WindowEnd(content) ==> IsSpace(content[k])
  {
    StripOfSlice(content, SampleStart(content), WindowEnd(content), SampleOffset(content), Sample(content));
  }

  /** `content[a..e]` stripped is `content[i..i + n]` for `i` past the leading whitespace. */
  lemma StripOfSlice(content: string, a: nat, e: nat, i: nat, r: string)
    requires a <= e <= |content|
    requires i == a + LeadingSpaces(content[a..e]) && r == Strip(content[a..e])
    ensures a <= i && i + |r| <= e
    ensures content[i..i + |r|] == r
    ensures forall k :: a <= k < i ==> IsSpace(content[k])
    ensures forall k :: i + |r| <= k < e ==> IsSpace(content[k])
  {
    var w := content[a..e];
    assert r == w[LeadingSpaces(w)..LeadingSpaces(w) + |r|];
    assert forall k :: a <= k < e ==> content[k] == w[k - a];
  }

  /** When a marker is found, the excerpt begins exactly at it: the character
      at the start index is a letter, so `strip()` removes nothing in front. */
  lemma {:induction false} SampleBeginsAtMarker(content: string)
    requires exists i :: 0 <= i <= |content| && MarkerAt(Lower(content), i)
    ensures Sample(content) != []
    ensures Sample(content)[0] == content[SampleStart(content)]
    ensures MarkerAt(Lower(content), SampleStart(content))
  {
    var start := SampleStart(content);
    MarkerStartsWithLetter(content, start);
    StripKeepsFirst(content[start..WindowEnd(content)]);
  }

  /** Every marker begins with a letter, so the character where one occurs is not whitespace. */
  lemma MarkerStartsWithLetter(content: string, i: int)
    requires MarkerAt(Lower(content), i)
    ensures 0 <= i < |content| && !IsSpace(content[i])
  {
    var lowered := Lower(content);
    if OccursAt(lowered, Markers[0], i) {
      assert lowered[i] == lowered[i..i + |Markers[0]|][0] == 'c';
    } else if OccursAt(lowered, Markers[1], i) {
      assert lowered[i] == lowered[i..i + |Markers[1]|][0] == 'i';
    } else {
      assert lowered[i] == lowered[i..i + |Markers[2]|][0] == 'p';
    }
    assert LowerChar(content[i]) == lowered[i];
  }

  /** A text that starts with a non-space character keeps that character in front when stripped. */
  lemma StripKeepsFirst(w: string)
    requires w != [] && !IsSpace(w[0])
    ensures Strip(w) != [] && Strip(w)[0] == w[0]
  {
    assert LeadingSpaces(w) == 0;
    assert TrailingSpaces(w) < |w|;
  }
}
