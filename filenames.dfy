/** The destination-name normaliser `truncate_filename`, which both versions
    of the ingestion script define with the same text. */
module Filenames {
  import opened Strings

  /** The longest destination name the scripts aim for. */
  const MaxLength: nat := 150

  /** The part of `filename` before its last `.` (what `rsplit('.', 1)` puts first). */
  function Base(filename: string): string
    requires '.' in filename
  {
    filename[..LastIndexOf(filename, '.')]
  }

  /** The part of `filename` after its last `.`: the extension, without the dot. */
  function Extension(filename: string): string
    requires '.' in filename
  {
    filename[LastIndexOf(filename, '.') + 1..]
  }

  /** Python's `s[:m]`, where a negative `m` counts from the end of `s`. */
  function TakePrefix(s: string, m: int): (r: string)
    ensures r <= s
    ensures |r| == if m >= 0 then (if m <= |s| then m else |s|) else (if |s| + m >= 0 then |s| + m else 0)
  {
    if m >= 0 then (if m <= |s| then s[..m] else s)
    else if |s| + m >= 0 then s[..|s| + m]
    else []
  }

  /** `truncate_filename`: cut the base from the right so that base, dot and
      extension fit in `MaxLength`; a name without a dot is left alone. The
      cut is Python's slice `base[:MaxLength - len(ext) - 1]`, which counts
      from the end of the base when the extension is 150 characters or longer. */
  function Truncate(filename: string): (r: string)
    ensures '.' !in filename ==> r == filename
    ensures |filename| <= MaxLength ==> r == filename
    ensures '.' in filename && |Extension(filename)| < MaxLength ==> |r| <= MaxLength
  {
    if '.' !in filename then filename
    else
      var base, ext := Base(filename), Extension(filename);
      var maxBaseLen := MaxLength - |ext| - 1;
      if |base| > maxBaseLen then TakePrefix(base, maxBaseLen) + "." + ext
      else filename
  }

  /** When `ext` holds no dot, the last dot of `base + "." + ext` is the one in between. */
  lemma SplitAtLastDot(base: string, ext: string)
    requires '.' !in ext
    ensures '.' in base + "." + ext
    ensures Base(base + "." + ext) == base
    ensures Extension(base + "." + ext) == ext
  {
    var f := base + "." + ext;
    assert f[|base|] == '.';
    assert f[..|base|] == base;
    assert f[|base| + 1..] == ext;
  }

  /** A base too long for its extension is cut to `MaxLength - |ext| - 1`
      characters (Python's slice rule) and joined back to the extension. */
  lemma TruncateCuts(base: string, ext: string, m: int)
    requires '.' !in ext && m == MaxLength - |ext| - 1 && |base| > m
    ensures Truncate(base + "." + ext) == TakePrefix(base, m) + "." + ext
  {
    SplitAtLastDot(base, ext);
  }

  /** A name with a dot is its base, a dot, and its extension; the extension holds no dot. */
  lemma BaseDotExtension(filename: string)
    requires '.' in filename
    ensures filename == Base(filename) + "." + Extension(filename)
    ensures '.' !in Extension(filename)
  {
    var d := LastIndexOf(filename, '.');
    assert filename == filename[..d] + [filename[d]] + filename[d + 1..];
  }

  /** With an extension shorter than `MaxLength`, the result keeps the dot and
      the extension, fits in `MaxLength`, and its base is a prefix of the
      original base; a name that already fits comes back unchanged. */
  lemma {:induction false} TruncateKeepsExtension(filename: string)
    requires '.' in filename && |Extension(filename)| < MaxLength
    ensures '.' in Truncate(filename)
    ensures Extension(Truncate(filename)) == Extension(filename)
    ensures Base(Truncate(filename)) <= Base(filename)
    ensures |Truncate(filename)| <= MaxLength
    ensures |filename| > MaxLength ==> |Truncate(filename)| == MaxLength
  {
    var base, ext := Base(filename), Extension(filename);
    BaseDotExtension(filename);
    var maxBaseLen := MaxLength - |ext| - 1;
    if |base| > maxBaseLen {
      var cut := TakePrefix(base, maxBaseLen);
      SplitAtLastDot(cut, ext);
    }
  }

  /** Normalising an already normalised name changes nothing, provided the
      extension is shorter than `MaxLength`. */
  lemma {:induction false} TruncateIdempotent(filename: string)
    requires '.' in filename ==> |Extension(filename)| < MaxLength
    ensures Truncate(Truncate(filename)) == Truncate(filename)
  {
    if '.' in filename {
      TruncateKeepsExtension(filename);
    }
  }

  /** With an extension of `MaxLength` characters or more, Python's negative
      slice drops `len(ext) - 149` characters from the end of the base (or all
      of it), and the result is longer than `MaxLength`. */
  lemma {:induction false} TruncateLongExtension(filename: string)
    requires '.' in filename && |Extension(filename)| >= MaxLength
    ensures '.' in Truncate(filename)
    ensures Extension(Truncate(filename)) == Extension(filename)
    ensures Base(Truncate(filename)) <= Base(filename)
    ensures |Base(Truncate(filename))| ==
              if |Base(filename)| >= |Extension(filename)| - 149
              then |Base(filename)| - (|Extension(filename)| - 149) else 0
    ensures |Truncate(filename)| > MaxLength
  {
    var base, ext := Base(filename), Extension(filename);
    BaseDotExtension(filename);
    SplitAtLastDot(TakePrefix(base, MaxLength - |ext| - 1), ext);
  }
}
