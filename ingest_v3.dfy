/** The per-file decision loop of `main` in `main/scripts/deduplication3.py`:
    skip filter, Tier 1 (name or hash), Tier 2 (title and author), conversion,
    the fuzzy advisory, then copy and insert. The filesystem and the external
    tools are inputs: each candidate file carries its hash (or the read error
    `file_sha256` raises), what `ebook-meta` printed, whether `ebook-convert`
    succeeded and what text it left, and how the copy and the insert went. */
module IngestV3 {
  import opened Strings
  import opened Filenames
  import opened SkipFilter
  import opened SampleText
  import opened Metadata
  import opened BookStore
  import opened FuzzyMatch

  const ExcludeFiles: set<string> := {".calnotes", ".stfolder", "metadata.db"}
  const ExcludeExts: set<string> := {".part", ".crdownload", ".tmp", ".txt", ".log", ".bak", ".old"}

  /** What `ebook-convert` did: failed, or wrote a text file that could
      (`Some`) or could not (`None`) be read back. */
  datatype Conversion = ConvertFailed | Converted(text: Option<string>)

  /** One entry of the source folder with the outcomes of everything done to it. */
  datatype Candidate = Candidate(
    filename: string,
    contentHash: Option<string>,
    metadata: ToolRun,
    conversion: Conversion,
    copy: Attempt,
    insert: Attempt)

  /** One line of `failures.log`. */
  datatype LogEvent =
    | DefiniteDuplicateLine(filename: string)
    | ConversionFailedLine(filename: string)
    | CopyFailedLine(filename: string, error: string)
    | FuzzyMatchLine(filename: string, matchFile: string, score: real)

  /** The state the loop changes: the `books` rows, the log lines, and the
      names copied into the ingest folder, each in the order written. */
  datatype State = State(books: seq<Book>, log: seq<LogEvent>, copied: seq<string>)

  /** The state after some files, and whether the loop is still running
      (`false` once `file_sha256` has raised and ended the script). */
  datatype Batch = Batch(state: State, completed: bool)

  /** Where a file's processing ends. */
  datatype Verdict =
    | SkippedByName
    | HashUnreadable
    | ExactDuplicate
    | MetadataDuplicate
    | ConversionFailure
    | CopyFailure(error: string)
    | InsertFailure(error: string)
    | Accepted

  /** Tier 2 fires: both extracted fields are non-empty and some row has the same pair. */
  predicate SameMetadata(books: seq<Book>, c: Candidate) {
    var title, author := MetadataOf(c.metadata).0, MetadataOf(c.metadata).1;
    title != "" && author != "" && MetadataMatch(books, title, author)
  }

  /** The stages of the loop, in order, against the rows stored so far. */
  function Classify(books: seq<Book>, c: Candidate): (v: Verdict)
    ensures !v.SkippedByName? && !v.HashUnreadable? ==> c.contentHash.Some?
    ensures v.CopyFailure? || v.InsertFailure? || v.Accepted? ==> c.conversion.Converted?
  {
    if Excluded(c.filename, ExcludeFiles, ExcludeExts) then SkippedByName
    else if c.contentHash.None? then HashUnreadable
    else if ExactMatch(books, c.filename, c.contentHash.value) then ExactDuplicate
    else if SameMetadata(books, c) then MetadataDuplicate
    else if c.conversion.ConvertFailed? then ConversionFailure
    else if c.copy.Failed? then CopyFailure(c.copy.error)
    else if c.insert.Failed? then InsertFailure(c.insert.error)
    else Accepted
  }

  /** `extract_sample_text` on the converted file: the excerpt, or `""` when
      the file cannot be read. */
  function SampleOf(conversion: Conversion): string
    requires conversion.Converted?
  {
    match conversion.text
    case None => ""
    case Some(content) => Sample(content)
  }

  /** One fuzzy-match log line per collected pair, in order. */
  function SuspectLines(filename: string, ms: seq<Suspect>): (r: seq<LogEvent>)
    ensures |r| == |ms|
    ensures forall k :: 0 <= k < |ms| ==>
      r[k] == FuzzyMatchLine(filename, ms[k].otherFile, ms[k].similarity)
  {
    if ms == [] then []
    else
      var m := ms[|ms| - 1];
      SuspectLines(filename, ms[..|ms| - 1]) + [FuzzyMatchLine(filename, m.otherFile, m.similarity)]
  }

  /** The lines `fuzzy_match_text` writes for candidate `c` against `books`. */
  function Advisory(books: seq<Book>, c: Candidate, score: (string, string) -> real): seq<LogEvent>
    requires c.conversion.Converted?
  {
    SuspectLines(c.filename, Matches(books, SampleOf(c.conversion), score))
  }

  /** The row inserted for an accepted candidate. */
  function RecordFor(c: Candidate): Book
    requires c.contentHash.Some? && c.conversion.Converted?
  {
    Book(c.filename, Truncate(c.filename), c.contentHash.value, Some(SampleOf(c.conversion)),
         Some(MetadataOf(c.metadata).0), Some(MetadataOf(c.metadata).1))
  }

  /** One pass of the loop body. */
  function Step(st: State, c: Candidate, score: (string, string) -> real): Batch {
    match Classify(st.books, c)
    case SkippedByName => Batch(st, true)
    case HashUnreadable => Batch(st, false)
    case ExactDuplicate => Batch(st, true)
    case MetadataDuplicate => Batch(st.(log := st.log + [DefiniteDuplicateLine(c.filename)]), true)
    case ConversionFailure => Batch(st.(log := st.log + [ConversionFailedLine(c.filename)]), true)
    case CopyFailure(e) =>
      Batch(st.(log := st.log + Advisory(st.books, c, score) + [CopyFailedLine(c.filename, e)]), true)
    case InsertFailure(e) =>
      Batch(State(st.books, st.log + Advisory(st.books, c, score) + [CopyFailedLine(c.filename, e)],
                  st.copied + [Truncate(c.filename)]), true)
    case Accepted =>
      Batch(State(st.books + [RecordFor(c)], st.log + Advisory(st.books, c, score),
                  st.copied + [Truncate(c.filename)]), true)
  }

  /** The loop over `files`, stopped by the first unreadable file. */
  function Run(st: State, files: seq<Candidate>, score: (string, string) -> real): Batch
    decreases |files|
  {
    if files == [] then Batch(st, true)
    else
      var before := Run(st, files[..|files| - 1], score);
      if before.completed then Step(before.state, files[|files| - 1], score) else before
  }

  /** The script's connection to the store and the log it appends to. */
  class Library {
    var books: seq<Book>
    var log: seq<LogEvent>
    var copied: seq<string>

    constructor (books0: seq<Book>, log0: seq<LogEvent>)
      ensures books == books0 && log == log0 && copied == []
    {
      books, log, copied := books0, log0, [];
    }

    function Snapshot(): State
      reads this
    {
      State(books, log, copied)
    }

    /** `fuzzy_match_text`: collect the suspects, then write one line for each. */
    method FuzzyMatchText(sample: string, filename: string, score: (string, string) -> real)
      modifies this`log
      ensures log == old(log) + SuspectLines(filename, Matches(books, sample, score))
    {
      var matches := CollectMatches(books, sample, score);
      var j := 0;
      while j < |matches|
        invariant 0 <= j <= |matches|
        invariant log == old(log) + SuspectLines(filename, matches[..j])
      {
        assert matches[..j + 1][..j] == matches[..j];
        log := log + [FuzzyMatchLine(filename, matches[j].otherFile, matches[j].similarity)];
        j := j + 1;
      }
      assert matches[..j] == matches;
    }

    /** The body of the loop over `files` for one file; `ok` is false when
        reading the file for its hash raised. */
    method ProcessFile(c: Candidate, score: (string, string) -> real) returns (ok: bool)
      modifies this
      ensures Batch(Snapshot(), ok) == Step(old(Snapshot()), c, score)
    {
      var skip := ShouldSkip(c.filename, ExcludeFiles, ExcludeExts);
      if skip {
        assert Classify(books, c) == SkippedByName;
        return true;
      }
      if c.contentHash.None? {
        assert Classify(books, c) == HashUnreadable;
        return false;
      }
      var fileHash := c.contentHash.value;
      if ExactMatch(books, c.filename, fileHash) {
        assert Classify(books, c) == ExactDuplicate;
        return true;
      }
      var title, author := ExtractMetadata(c.metadata);
      if title != "" && author != "" && MetadataMatch(books, title, author) {
        assert Classify(books, c) == MetadataDuplicate;
        log := log + [DefiniteDuplicateLine(c.filename)];
        return true;
      }
      Admit(c, fileHash, title, author, score);
      return true;
    }

    /** The rest of the loop body for a file that passed both tiers:
        conversion, the fuzzy advisory, then the copy and the insert, whose
        errors share one handler. */
    method Admit(c: Candidate, fileHash: string, title: string, author: string, score: (string, string) -> real)
      requires !Excluded(c.filename, ExcludeFiles, ExcludeExts) && c.contentHash == Some(fileHash)
      requires !ExactMatch(books, c.filename, fileHash) && !SameMetadata(books, c)
      requires (title, author) == MetadataOf(c.metadata)
      modifies this
      ensures Batch(Snapshot(), true) == Step(old(Snapshot()), c, score)
    {
      ghost var st := Snapshot();
      StepPastTiers(st, c, score);
      if c.conversion.ConvertFailed? {
        log := log + [ConversionFailedLine(c.filename)];
        return;
      }
      var sample := if c.conversion.text.Some? then Sample(c.conversion.text.value) else "";
      assert sample == SampleOf(c.conversion);
      FuzzyMatchText(sample, c.filename, score);
      assert log == st.log + Advisory(st.books, c, score);
      if c.copy.Failed? {
        log := log + [CopyFailedLine(c.filename, c.copy.error)];
        return;
      }
      var truncated := Truncate(c.filename);
      copied := copied + [truncated];
      if c.insert.Failed? {
        log := log + [CopyFailedLine(c.filename, c.insert.error)];
        return;
      }
      books := books + [Book(c.filename, truncated, fileHash, Some(sample), Some(title), Some(author))];
    }

    /** The loop over `files`; `completed` is false when a file could not be
        read for its hash, which ends the script. */
    method Ingest(files: seq<Candidate>, score: (string, string) -> real) returns (completed: bool)
      modifies this
      ensures Batch(Snapshot(), completed) == Run(old(Snapshot()), files, score)
    {
      var i := 0;
      while i < |files|
        invariant 0 <= i <= |files|
        invariant Run(old(Snapshot()), files[..i], score) == Batch(Snapshot(), true)
      {
        assert files[..i + 1][..i] == files[..i];
        var ok := ProcessFile(files[i], score);
        if !ok {
          RunStaysStopped(old(Snapshot()), files, i + 1, score);
          return false;
        }
        i := i + 1;
      }
      assert files[..i] == files;
      return true;
    }
  }

  /** This version also skips text, log and backup files; the names and
      suffixes are compared case-sensitively, so an upper-case suffix gets
      through, and the bookkeeping names are matched whole. */
  lemma SkipSets()
    ensures Excluded("notes.txt", ExcludeFiles, ExcludeExts)
    ensures Excluded("book.epub.bak", ExcludeFiles, ExcludeExts)
    ensures Excluded("metadata.db", ExcludeFiles, ExcludeExts)
    ensures !Excluded("NOTES.TXT", ExcludeFiles, ExcludeExts)
    ensures !Excluded("my metadata.db", ExcludeFiles, ExcludeExts)
    ensures !Excluded("book.epub", ExcludeFiles, ExcludeExts)
  {
    SkippedBySuffix("notes.txt", ".txt");
    SkippedBySuffix("book.epub.bak", ".bak");
    NotSkipped("NOTES.TXT");
    NotSkipped("my metadata.db");
    NotSkipped("book.epub");
  }

  lemma SkippedBySuffix(f: string, ext: string)
    requires ext in ExcludeExts && EndsWith(f, ext)
    ensures Excluded(f, ExcludeFiles, ExcludeExts)
  {
  }

  /** A name that is none of the bookkeeping names (it is longer than all of
      them, or starts with neither `.` nor `m`) and that ends in a character
      no excluded suffix ends in is not skipped. */
  lemma NotSkipped(f: string)
    requires f != [] && (|f| > 11 || (f[0] != '.' && f[0] != 'm'))
    requires f[|f| - 1] != 't' && f[|f| - 1] != 'd' && f[|f| - 1] != 'p'
    requires f[|f| - 1] != 'g' && f[|f| - 1] != 'k'
    ensures !Excluded(f, ExcludeFiles, ExcludeExts)
  {
    forall name | name in ExcludeFiles
      ensures f != name
    {
      assert |name| <= 11 && name[0] in ".m";
    }
    forall ext | ext in ExcludeExts
      ensures !EndsWith(f, ext)
    {
      assert ext[|ext| - 1] in "tdpgk";
    }
  }

  /** Past the name filter and both tiers, the pass depends only on the
      conversion, the copy and the insert. */
  lemma StepPastTiers(st: State, c: Candidate, score: (string, string) -> real)
    requires !Excluded(c.filename, ExcludeFiles, ExcludeExts) && c.contentHash.Some?
    requires !ExactMatch(st.books, c.filename, c.contentHash.value) && !SameMetadata(st.books, c)
    ensures Step(st, c, score) ==
      if c.conversion.ConvertFailed? then
        Batch(st.(log := st.log + [ConversionFailedLine(c.filename)]), true)
      else if c.copy.Failed? then
        Batch(st.(log := st.log + Advisory(st.books, c, score) + [CopyFailedLine(c.filename, c.copy.error)]), true)
      else if c.insert.Failed? then
        Batch(State(st.books, st.log + Advisory(st.books, c, score) + [CopyFailedLine(c.filename, c.insert.error)],
                    st.copied + [Truncate(c.filename)]), true)
      else
        Batch(State(st.books + [RecordFor(c)], st.log + Advisory(st.books, c, score), st.copied + [Truncate(c.filename)]), true)
  {
    if c.conversion.ConvertFailed? {
      ConversionFailureStep(st, c, score);
    } else if c.copy.Failed? {
      CopyFailureStep(st, c, score);
    } else if c.insert.Failed? {
      InsertFailureStep(st, c, score);
    } else {
      AcceptedStep(st, c, score);
    }
  }

  lemma ConversionFailureStep(st: State, c: Candidate, score: (string, string) -> real)
    requires !Excluded(c.filename, ExcludeFiles, ExcludeExts) && c.contentHash.Some?
    requires !ExactMatch(st.books, c.filename, c.contentHash.value) && !SameMetadata(st.books, c)
    requires c.conversion.ConvertFailed?
    ensures Step(st, c, score) == Batch(st.(log := st.log + [ConversionFailedLine(c.filename)]), true)
  {
    assert Classify(st.books, c) == ConversionFailure;
  }

  lemma CopyFailureStep(st: State, c: Candidate, score: (string, string) -> real)
    requires !Excluded(c.filename, ExcludeFiles, ExcludeExts) && c.contentHash.Some?
    requires !ExactMatch(st.books, c.filename, c.contentHash.value) && !SameMetadata(st.books, c)
    requires c.conversion.Converted? && c.copy.Failed?
    ensures Step(st, c, score) ==
      Batch(st.(log := st.log + Advisory(st.books, c, score) + [CopyFailedLine(c.filename, c.copy.error)]), true)
  {
    assert Classify(st.books, c) == CopyFailure(c.copy.error);
  }

  lemma InsertFailureStep(st: State, c: Candidate, score: (string, string) -> real)
    requires !Excluded(c.filename, ExcludeFiles, ExcludeExts) && c.contentHash.Some?
    requires !ExactMatch(st.books, c.filename, c.contentHash.value) && !SameMetadata(st.books, c)
    requires c.conversion.Converted? && c.copy.Succeeded? && c.insert.Failed?
    ensures Step(st, c, score) ==
      Batch(State(st.books, st.log + Advisory(st.books, c, score) + [CopyFailedLine(c.filename, c.insert.error)],
                  st.copied + [Truncate(c.filename)]), true)
  {
    assert Classify(st.books, c) == InsertFailure(c.insert.error);
  }

  lemma AcceptedStep(st: State, c: Candidate, score: (string, string) -> real)
    requires !Excluded(c.filename, ExcludeFiles, ExcludeExts) && c.contentHash.Some?
    requires !ExactMatch(st.books, c.filename, c.contentHash.value) && !SameMetadata(st.books, c)
    requires c.conversion.Converted? && c.copy.Succeeded? && c.insert.Succeeded?
    ensures Step(st, c, score) ==
      Batch(State(st.books + [RecordFor(c)], st.log + Advisory(st.books, c, score), st.copied + [Truncate(c.filename)]), true)
  {
    assert Classify(st.books, c) == Accepted;
  }

  /** Once the loop has stopped, later files change nothing. */
  lemma {:induction false} RunStaysStopped(st: State, files: seq<Candidate>, k: nat, score: (string, string) -> real)
    requires k <= |files|
    requires !Run(st, files[..k], score).completed
    ensures Run(st, files, score) == Run(st, files[..k], score)
    decreases |files| - k
  {
    if k < |files| {
      var front := files[..|files| - 1];
      assert front[..k] == files[..k];
      RunStaysStopped(st, front, k, score);
    } else {
      assert files[..k] == files;
    }
  }

  /** A row is added exactly when the file passes every stage: not excluded,
      readable, no Tier 1 match, no Tier 2 match, converted, copied and
      inserted; the row is `(filename, truncated name, hash, sample, title,
      author)` and the rows already stored stay as they were. */
  lemma StepAddsRowOnlyWhenAccepted(st: State, c: Candidate, score: (string, string) -> real)
    ensures Classify(st.books, c) == Accepted <==>
      && !Excluded(c.filename, ExcludeFiles, ExcludeExts)
      && c.contentHash.Some?
      && !ExactMatch(st.books, c.filename, c.contentHash.value)
      && !SameMetadata(st.books, c)
      && c.conversion.Converted?
      && c.copy.Succeeded? && c.insert.Succeeded?
    ensures Classify(st.books, c) == Accepted ==> Step(st, c, score).state.books == st.books + [RecordFor(c)]
    ensures Classify(st.books, c) != Accepted ==> Step(st, c, score).state.books == st.books
  {
  }

  /** A metadata duplicate, a conversion failure, a copy failure and an
      insert failure each write exactly one line of their own (after the
      fuzzy lines, for the last two), add no row, and the loop goes on. */
  lemma StepFailuresLogOneLine(st: State, c: Candidate, score: (string, string) -> real)
    ensures var v, after := Classify(st.books, c), Step(st, c, score);
      && (v.MetadataDuplicate? ==> after == Batch(st.(log := st.log + [DefiniteDuplicateLine(c.filename)]), true))
      && (v.ConversionFailure? ==> after == Batch(st.(log := st.log + [ConversionFailedLine(c.filename)]), true))
      && (v.CopyFailure? || v.InsertFailure? ==>
            && after.completed && after.state.books == st.books
            && after.state.log == st.log + Advisory(st.books, c, score) + [CopyFailedLine(c.filename, v.error)])
      && (v.CopyFailure? ==> after.state.copied == st.copied)
      && (v.InsertFailure? ==> after.state.copied == st.copied + [Truncate(c.filename)])
  {
  }

  /** Tier 1: a stored row whose original or truncated name is the file's
      name, or whose hash is the file's hash, skips the file without a row,
      a copy or a log line. */
  lemma ExactDuplicateSkipped(st: State, c: Candidate, i: nat, score: (string, string) -> real)
    requires !Excluded(c.filename, ExcludeFiles, ExcludeExts) && c.contentHash.Some?
    requires i < |st.books|
    requires || st.books[i].originalFilename == c.filename
             || st.books[i].truncatedFilename == c.filename
             || st.books[i].fileHash == c.contentHash.value
    ensures Classify(st.books, c) == ExactDuplicate
    ensures Step(st, c, score) == Batch(st, true)
  {
  }

  /** Tier 2 never fires on an empty title or author, whatever the store holds. */
  lemma EmptyMetadataNeverDuplicate(books: seq<Book>, c: Candidate)
    requires MetadataOf(c.metadata).0 == "" || MetadataOf(c.metadata).1 == ""
    ensures Classify(books, c) != MetadataDuplicate
  {
  }

  /** A candidate that passes Tier 1 but whose title and author equal a
      stored row's (both non-empty) is a metadata duplicate: no copy, no row. */
  lemma SameTitleAndAuthorIsDuplicate(st: State, c: Candidate, i: nat, score: (string, string) -> real)
    requires !Excluded(c.filename, ExcludeFiles, ExcludeExts) && c.contentHash.Some?
    requires !ExactMatch(st.books, c.filename, c.contentHash.value)
    requires i < |st.books| && MetadataOf(c.metadata).0 != "" && MetadataOf(c.metadata).1 != ""
    requires st.books[i].metadataTitle == Some(MetadataOf(c.metadata).0)
    requires st.books[i].metadataAuthor == Some(MetadataOf(c.metadata).1)
    ensures Classify(st.books, c) == MetadataDuplicate
    ensures Step(st, c, score).state.books == st.books && Step(st, c, score).state.copied == st.copied
  {
  }

  /** The fuzzy tier is advisory: the rows, the copies and whether the loop
      goes on do not depend on the similarity scores at all. */
  lemma FuzzyIsAdvisory(st: State, c: Candidate, score1: (string, string) -> real, score2: (string, string) -> real)
    ensures Step(st, c, score1).state.books == Step(st, c, score2).state.books
    ensures Step(st, c, score1).state.copied == Step(st, c, score2).state.copied
    ensures Step(st, c, score1).completed == Step(st, c, score2).completed
  {
  }

  /** One pass appends at most one row and only appends lines and copies. */
  lemma StepAppendOnly(st: State, c: Candidate, score: (string, string) -> real)
    ensures st.books <= Step(st, c, score).state.books
    ensures |Step(st, c, score).state.books| <= |st.books| + 1
    ensures st.log <= Step(st, c, score).state.log
    ensures st.copied <= Step(st, c, score).state.copied
  {
    match Classify(st.books, c)
    case CopyFailure(e) =>
      assert st.log <= st.log + Advisory(st.books, c, score) + [CopyFailedLine(c.filename, e)];
    case InsertFailure(e) =>
      assert st.log <= st.log + Advisory(st.books, c, score) + [CopyFailedLine(c.filename, e)];
    case _ =>
  }

  /** Rows, log lines and copies are only ever appended. */
  lemma {:induction false} RunAppendOnly(st: State, files: seq<Candidate>, score: (string, string) -> real)
    ensures st.books <= Run(st, files, score).state.books
    ensures st.log <= Run(st, files, score).state.log
    ensures st.copied <= Run(st, files, score).state.copied
    decreases |files|
  {
    if files != [] {
      var before := Run(st, files[..|files| - 1], score);
      RunAppendOnly(st, files[..|files| - 1], score);
      StepAppendOnly(before.state, files[|files| - 1], score);
    }
  }

  /** Pairwise distinct content hashes in the table stay so, whatever the
      original names. */
  lemma {:induction false} RunKeepsHashesDistinct(st: State, files: seq<Candidate>, score: (string, string) -> real)
    requires HashesDistinct(st.books)
    ensures HashesDistinct(Run(st, files, score).state.books)
    decreases |files|
  {
    if files != [] {
      var before := Run(st, files[..|files| - 1], score);
      RunKeepsHashesDistinct(st, files[..|files| - 1], score);
      var c := files[|files| - 1];
      if before.completed {
        StepAddsRowOnlyWhenAccepted(before.state, c, score);
        if Classify(before.state.books, c) == Accepted {
          AppendKeepsDistinct(before.state.books, RecordFor(c));
        }
      }
    }
  }

  /** Pairwise distinct original names in the table stay so, whatever the
      hashes. */
  lemma {:induction false} RunKeepsNamesDistinct(st: State, files: seq<Candidate>, score: (string, string) -> real)
    requires NamesDistinct(st.books)
    ensures NamesDistinct(Run(st, files, score).state.books)
    decreases |files|
  {
    if files != [] {
      var before := Run(st, files[..|files| - 1], score);
      RunKeepsNamesDistinct(st, files[..|files| - 1], score);
      var c := files[|files| - 1];
      if before.completed {
        StepAddsRowOnlyWhenAccepted(before.state, c, score);
        if Classify(before.state.books, c) == Accepted {
          AppendKeepsDistinct(before.state.books, RecordFor(c));
        }
      }
    }
  }

  /** Rows inserted earlier in the run take part in Tier 1: a batch whose
      files all have the same content adds at most one row, and none when a
      stored row already has that hash. */
  lemma {:induction false} RepeatedContentAddsOnce(st: State, files: seq<Candidate>, hash: string, score: (string, string) -> real)
    requires forall k :: 0 <= k < |files| ==> files[k].contentHash == Some(hash)
    ensures var after := Run(st, files, score).state.books;
      after == st.books || (|after| == |st.books| + 1 && after[|st.books|].fileHash == hash)
    ensures (exists i :: 0 <= i < |st.books| && st.books[i].fileHash == hash) ==>
      Run(st, files, score).state.books == st.books
    decreases |files|
  {
    if files != [] {
      var front := files[..|files| - 1];
      RepeatedContentAddsOnce(st, front, hash, score);
      var before := Run(st, front, score);
      var c := files[|files| - 1];
      if before.state.books != st.books {
        StoredRowMatches(before.state.books, |st.books|, c.filename, hash);
      } else if exists i :: 0 <= i < |st.books| && st.books[i].fileHash == hash {
        var i :| 0 <= i < |st.books| && st.books[i].fileHash == hash;
        StoredRowMatches(st.books, i, c.filename, hash);
      }
    }
  }

  /** Likewise for a batch whose files all have the same name. */
  lemma {:induction false} RepeatedNameAddsOnce(st: State, files: seq<Candidate>, filename: string, score: (string, string) -> real)
    requires forall k :: 0 <= k < |files| ==> files[k].filename == filename
    ensures var after := Run(st, files, score).state.books;
      after == st.books || (|after| == |st.books| + 1 && after[|st.books|].originalFilename == filename)
    decreases |files|
  {
    if files != [] {
      var front := files[..|files| - 1];
      RepeatedNameAddsOnce(st, front, filename, score);
      var before := Run(st, front, score);
      var c := files[|files| - 1];
      if before.state.books != st.books && c.contentHash.Some? {
        StoredRowMatches(before.state.books, |st.books|, filename, c.contentHash.value);
      }
    }
  }

  /** Per-file failures (duplicates, conversion, copy, insert) never stop the
      batch: only a file that cannot be read for its hash does. */
  lemma {:induction false} RunCompletes(st: State, files: seq<Candidate>, score: (string, string) -> real)
    requires forall k :: 0 <= k < |files| ==>
      files[k].contentHash.Some? || Excluded(files[k].filename, ExcludeFiles, ExcludeExts)
    ensures Run(st, files, score).completed
    decreases |files|
  {
    if files != [] {
      RunCompletes(st, files[..|files| - 1], score);
    }
  }
}
