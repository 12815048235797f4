/** `fuzzy_match_text`'s filter: the stored rows whose sample text scores at
    least 85 against the new sample. `rapidfuzz`'s `partial_ratio` is not part
    of this model; it is the abstract parameter `score`. */
module FuzzyMatch {
  import opened BookStore

  const FuzzyThreshold: real := 85.0

  /** A collected `(other_file, similarity)` pair. */
  datatype Suspect = Suspect(otherFile: string, similarity: real)

  /** A row the loop compares: its sample is neither `NULL` nor empty. */
  predicate HasSample(b: Book) {
    b.sampleText.Some? && b.sampleText.value != ""
  }

  /** A stored row the new sample is suspected to duplicate. */
  predicate IsSuspect(b: Book, sample: string, score: (string, string) -> real) {
    HasSample(b) && score(sample, b.sampleText.value) >= FuzzyThreshold
  }

  /** The pairs collected for the rows of `books`, in row order. */
  function Matches(books: seq<Book>, sample: string, score: (string, string) -> real): (r: seq<Suspect>)
    ensures |r| <= |books|
  {
    if books == [] then []
    else
      var last := books[|books| - 1];
      var earlier := Matches(books[..|books| - 1], sample, score);
      if IsSuspect(last, sample, score)
      then earlier + [Suspect(last.originalFilename, score(sample, last.sampleText.value))]
      else earlier
  }

  /** The first loop of `fuzzy_match_text`: scan the rows, append each suspect. */
  method CollectMatches(books: seq<Book>, sample: string, score: (string, string) -> real)
    returns (matches: seq<Suspect>)
    ensures matches == Matches(books, sample, score)
  {
    matches := [];
    var i := 0;
    while i < |books|
      invariant 0 <= i <= |books|
      invariant matches == Matches(books[..i], sample, score)
    {
      var row := books[i];
      assert books[..i + 1][..i] == books[..i];
      if row.sampleText.Some? && row.sampleText.value != "" {
        var similarity := score(sample, row.sampleText.value);
        if similarity >= FuzzyThreshold {
          matches := matches + [Suspect(row.originalFilename, similarity)];
        }
      }
      i := i + 1;
    }
    assert books[..i] == books;
  }

  /** The pairs for the rows of `a + b` are those for `a` followed by those
      for `b`: the matches keep the order of the store. */
  lemma {:induction false} MatchesAppend(a: seq<Book>, b: seq<Book>, sample: string, score: (string, string) -> real)
    ensures Matches(a + b, sample, score) == Matches(a, sample, score) + Matches(b, sample, score)
    decreases |b|
  {
    if b == [] {
      assert a + b == a;
    } else {
      var b' := b[..|b| - 1];
      assert (a + b)[..|a + b| - 1] == a + b';
      assert (a + b)[|a + b| - 1] == b[|b| - 1];
      MatchesAppend(a, b', sample, score);
    }
  }

  /** A pair is collected exactly when some stored row with a non-empty
      sample has that name and scores that similarity, at least 85. */
  lemma {:induction false} MatchesExactly(books: seq<Book>, sample: string, score: (string, string) -> real, m: Suspect)
    ensures m in Matches(books, sample, score) <==>
      exists i :: 0 <= i < |books| && IsSuspect(books[i], sample, score)
        && m == Suspect(books[i].originalFilename, score(sample, books[i].sampleText.value))
  {
    if books != [] {
      var front := books[..|books| - 1];
      MatchesExactly(front, sample, score, m);
      assert forall i :: 0 <= i < |front| ==> front[i] == books[i];
    }
  }
}
