/** The per-file loop of `main` in `CWA-Ingest-Buddy/scripts/deduplication.py`,
    the older script: skip filter, Tier 1 (name or hash), then copy and an
    insert of the three columns it knows. It writes no log file: failures are
    only printed, so its state is the rows and the copies. */
module IngestLegacy {
  import opened Strings
  import opened Filenames
  import opened SkipFilter
  import opened BookStore

  const ExcludeFiles: set<string> := {".calnotes", ".stfolder", "metadata.db"}
  const ExcludeExts: set<string> := {".part", ".crdownload", ".tmp"}

  /** One entry of the source folder: its name, its hash (or the read error
      `file_sha256` raises), and how the copy and the insert went. */
  datatype Candidate = Candidate(filename: string, contentHash: Option<string>, copy: Attempt, insert: Attempt)

  /** The `books` rows and the names copied into the ingest folder. */
  datatype State = State(books: seq<Book>, copied: seq<string>)

  /** The state after some files, and whether the loop is still running. */
  datatype Batch = Batch(state: State, completed: bool)

  /** Where a file's processing ends. */
  datatype Verdict =
    | SkippedByName
    | HashUnreadable
    | ExactDuplicate
    | CopyFailure(error: string)
    | InsertFailure(error: string)
    | Accepted

  /** The stages of the loop, in order, against the rows stored so far. */
  function Classify(books: seq<Book>, c: Candidate): (v: Verdict)
    ensures !v.SkippedByName? && !v.HashUnreadable? ==> c.contentHash.Some?
  {
    if Excluded(c.filename, ExcludeFiles, ExcludeExts) then SkippedByName
    else if c.contentHash.None? then HashUnreadable
    else if ExactMatch(books, c.filename, c.contentHash.value) then ExactDuplicate
    else if c.copy.Failed? then CopyFailure(c.copy.error)
    else if c.insert.Failed? then InsertFailure(c.insert.error)
    else Accepted
  }

  /** The row inserted: three columns filled, the other three `NULL`. */
  function RecordFor(c: Candidate): Book
    requires c.contentHash.Some?
  {
    Book(c.filename, Truncate(c.filename), c.contentHash.value, None, None, None)
  }

  /** One pass of the loop body. */
  function Step(st: State, c: Candidate): Batch {
    match Classify(st.books, c)
    case SkippedByName => Batch(st, true)
    case HashUnreadable => Batch(st, false)
    case ExactDuplicate => Batch(st, true)
    case CopyFailure(_) => Batch(st, true)
    case InsertFailure(_) => Batch(st.(copied := st.copied + [Truncate(c.filename)]), true)
    case Accepted => Batch(State(st.books + [RecordFor(c)], st.copied + [Truncate(c.filename)]), true)
  }

  /** The loop over `files`, stopped by the first unreadable file. */
  function Run(st: State, files: seq<Candidate>): Batch
    decreases |files|
  {
    if files == [] then Batch(st, true)
    else
      var before := Run(st, files[..|files| - 1]);
      if before.completed then Step(before.state, files[|files| - 1]) else before
  }

  /** The script's connection to the store. */
  class Library {
    var books: seq<Book>
    var copied: seq<string>

    constructor (books0: seq<Book>)
      ensures books == books0 && copied == []
    {
      books, copied := books0, [];
    }

    function Snapshot(): State
      reads this
    {
      State(books, copied)
    }

    /** The body of the loop for one file; `ok` is false when reading the
        file for its hash raised. A copy or insert error is caught and only
        printed. */
    method ProcessFile(c: Candidate) returns (ok: bool)
      modifies this
      ensures Batch(Snapshot(), ok) == Step(old(Snapshot()), c)
    {
      ghost var st := Snapshot();
      var skip := ShouldSkip(c.filename, ExcludeFiles, ExcludeExts);
      if skip {
        assert Classify(st.books, c) == SkippedByName;
        return true;
      }
      if c.contentHash.None? {
        return false;
      }
      var fileHash := c.contentHash.value;
      if ExactMatch(books, c.filename, fileHash) {
        return true;
      }
      var truncated := Truncate(c.filename);
      if c.copy.Failed? {
        return true;
      }
      copied := copied + [truncated];
      if c.insert.Failed? {
        return true;
      }
      books := books + [Book(c.filename, truncated, fileHash, None, None, None)];
      return true;
    }

    /** The loop over `files`; `completed` is false when a file could not be
        read for its hash, which ends the script. */
    method Ingest(files: seq<Candidate>) returns (completed: bool)
      modifies this
      ensures Batch(Snapshot(), completed) == Run(old(Snapshot()), files)
    {
      var i := 0;
      while i < |files|
        invariant 0 <= i <= |files|
        invariant Run(old(Snapshot()), files[..i]) == Batch(Snapshot(), true)
      {
        assert files[..i + 1][..i] == files[..i];
        var ok := ProcessFile(files[i]);
        if !ok {
          RunStaysStopped(old(Snapshot()), files, i + 1);
          return false;
        }
        i := i + 1;
      }
      assert files[..i] == files;
      return true;
    }
  }

  /** Once the loop has stopped, later files change nothing. */
  lemma {:induction false} RunStaysStopped(st: State, files: seq<Candidate>, k: nat)
    requires k <= |files|
    requires !Run(st, files[..k]).completed
    ensures Run(st, files) == Run(st, files[..k])
    decreases |files| - k
  {
    if k < |files| {
      var front := files[..|files| - 1];
      assert front[..k] == files[..k];
      RunStaysStopped(st, front, k);
    } else {
      assert files[..k] == files;
    }
  }

  /** This version's suffix set is only `.part`, `.crdownload` and `.tmp`:
      a `.txt` file is not skipped, unlike in the later script. */
  lemma TextFilesNotSkipped()
    ensures !Excluded("book.txt", ExcludeFiles, ExcludeExts)
    ensures Excluded("book.epub.part", ExcludeFiles, ExcludeExts)
  {
    assert EndsWith("book.epub.part", ".part");
  }

  /** A file is skipped, adding no row and copying nothing, when a stored row
      has its name as original or truncated name, or has its hash. */
  lemma ExactDuplicateSkipped(st: State, c: Candidate, i: nat)
    requires !Excluded(c.filename, ExcludeFiles, ExcludeExts) && c.contentHash.Some?
    requires i < |st.books|
    requires || st.books[i].originalFilename == c.filename
             || st.books[i].truncatedFilename == c.filename
             || st.books[i].fileHash == c.contentHash.value
    ensures Classify(st.books, c) == ExactDuplicate
    ensures Step(st, c) == Batch(st, true)
  {
  }

  /** A successful copy and insert appends exactly the row
      `(filename, truncate_filename(filename), hash)`, leaving earlier rows as
      they were; every other outcome appends nothing and the loop goes on
      unless the file was unreadable. A failed insert still leaves the copy. */
  lemma StepOutcomes(st: State, c: Candidate)
    ensures Classify(st.books, c) == Accepted <==>
      && !Excluded(c.filename, ExcludeFiles, ExcludeExts)
      && c.contentHash.Some?
      && !ExactMatch(st.books, c.filename, c.contentHash.value)
      && c.copy.Succeeded? && c.insert.Succeeded?
    ensures Classify(st.books, c) == Accepted ==>
      Step(st, c) == Batch(State(st.books + [Book(c.filename, Truncate(c.filename), c.contentHash.value, None, None, None)],
                                  st.copied + [Truncate(c.filename)]), true)
    ensures Classify(st.books, c) != Accepted ==> Step(st, c).state.books == st.books
    ensures Classify(st.books, c).CopyFailure? ==> Step(st, c) == Batch(st, true)
    ensures Classify(st.books, c).InsertFailure? ==>
      Step(st, c) == Batch(State(st.books, st.copied + [Truncate(c.filename)]), true)
  {
  }

  /** Rows and copies are only ever appended. */
  lemma {:induction false} RunAppendOnly(st: State, files: seq<Candidate>)
    ensures st.books <= Run(st, files).state.books
    ensures st.copied <= Run(st, files).state.copied
    decreases |files|
  {
    if files != [] {
      RunAppendOnly(st, files[..|files| - 1]);
    }
  }

  /** Pairwise distinct content hashes in the table stay so, whatever the
      original names. */
  lemma {:induction false} RunKeepsHashesDistinct(st: State, files: seq<Candidate>)
    requires HashesDistinct(st.books)
    ensures HashesDistinct(Run(st, files).state.books)
    decreases |files|
  {
    if files != [] {
      var before := Run(st, files[..|files| - 1]);
      RunKeepsHashesDistinct(st, files[..|files| - 1]);
      var c := files[|files| - 1];
      if before.completed && Classify(before.state.books, c) == Accepted {
        AppendKeepsDistinct(before.state.books, RecordFor(c));
      }
    }
  }

  /** Pairwise distinct original names in the table stay so, whatever the
      hashes. */
  lemma {:induction false} RunKeepsNamesDistinct(st: State, files: seq<Candidate>)
    requires NamesDistinct(st.books)
    ensures NamesDistinct(Run(st, files).state.books)
    decreases |files|
  {
    if files != [] {
      var before := Run(st, files[..|files| - 1]);
      RunKeepsNamesDistinct(st, files[..|files| - 1]);
      var c := files[|files| - 1];
      if before.completed && Classify(before.state.books, c) == Accepted {
        AppendKeepsDistinct(before.state.books, RecordFor(c));
      }
    }
  }

  /** Rows inserted earlier in the run take part in Tier 1: the same bytes
      seen any number of times in one batch add at most one row. */
  lemma {:induction false} RepeatedContentAddsOnce(st: State, files: seq<Candidate>, hash: string)
    requires forall k :: 0 <= k < |files| ==> files[k].contentHash == Some(hash)
    ensures var after := Run(st, files).state.books;
      after == st.books || (|after| == |st.books| + 1 && after[|st.books|].fileHash == hash)
    decreases |files|
  {
    if files != [] {
      var front := files[..|files| - 1];
      RepeatedContentAddsOnce(st, front, hash);
      var before := Run(st, front);
      if before.state.books != st.books {
        StoredRowMatches(before.state.books, |st.books|, files[|files| - 1].filename, hash);
      }
    }
  }

  /** Likewise for the same name seen several times in one batch. */
  lemma {:induction false} RepeatedNameAddsOnce(st: State, files: seq<Candidate>, filename: string)
    requires forall k :: 0 <= k < |files| ==> files[k].filename == filename
    ensures var after := Run(st, files).state.books;
      after == st.books || (|after| == |st.books| + 1 && after[|st.books|].originalFilename == filename)
    decreases |files|
  {
    if files != [] {
      var front := files[..|files| - 1];
      RepeatedNameAddsOnce(st, front, filename);
      var before := Run(st, front);
      var c := files[|files| - 1];
      if before.state.books != st.books && c.contentHash.Some? {
        StoredRowMatches(before.state.books, |st.books|, filename, c.contentHash.value);
      }
    }
  }

  /** A copy or insert failure never stops the remaining files: only an
      unreadable file does. */
  lemma {:induction false} RunCompletes(st: State, files: seq<Candidate>)
    requires forall k :: 0 <= k < |files| ==>
      files[k].contentHash.Some? || Excluded(files[k].filename, ExcludeFiles, ExcludeExts)
    ensures Run(st, files).completed
    decreases |files|
  {
    if files != [] {
      RunCompletes(st, files[..|files| - 1]);
    }
  }

  /** Tier 1 compares the stored truncated names with the candidate's
      original name, so two different files whose names normalise to the same
      destination name are both ingested from an empty store, the second copy
      landing on the first. */
  lemma SharedDestinationBothIngested(f1: string, f2: string, hash1: string, hash2: string)
    requires !Excluded(f1, ExcludeFiles, ExcludeExts) && !Excluded(f2, ExcludeFiles, ExcludeExts)
    requires f1 != f2 && hash1 != hash2 && f2 != Truncate(f1)
    ensures var c1 := Candidate(f1, Some(hash1), Succeeded, Succeeded);
            var c2 := Candidate(f2, Some(hash2), Succeeded, Succeeded);
            var after := Run(State([], []), [c1, c2]);
            && after.completed
            && after.state.books == [RecordFor(c1), RecordFor(c2)]
            && after.state.copied == [Truncate(f1), Truncate(f2)]
  {
    var c1 := Candidate(f1, Some(hash1), Succeeded, Succeeded);
    var c2 := Candidate(f2, Some(hash2), Succeeded, Succeeded);
    var s0, s1 := State([], []), State([RecordFor(c1)], [Truncate(f1)]);
    FirstOfTwo(c1);
    SecondOfTwo(c1, c2);
    RunTwo(s0, c1, c2);
  }

  lemma FirstOfTwo(c1: Candidate)
    requires !Excluded(c1.filename, ExcludeFiles, ExcludeExts) && c1.contentHash.Some?
    requires c1.copy.Succeeded? && c1.insert.Succeeded?
    ensures Step(State([], []), c1) == Batch(State([RecordFor(c1)], [Truncate(c1.filename)]), true)
  {
    assert Classify([], c1) == Accepted;
    AcceptedStep(State([], []), c1);
    assert [] + [RecordFor(c1)] == [RecordFor(c1)];
    assert [] + [Truncate(c1.filename)] == [Truncate(c1.filename)];
  }

  lemma SecondOfTwo(c1: Candidate, c2: Candidate)
    requires c1.contentHash.Some? && c2.contentHash.Some? && c1.contentHash != c2.contentHash
    requires c1.filename != c2.filename && c2.filename != Truncate(c1.filename)
    requires !Excluded(c2.filename, ExcludeFiles, ExcludeExts) && c2.copy.Succeeded? && c2.insert.Succeeded?
    ensures var s1 := State([RecordFor(c1)], [Truncate(c1.filename)]);
            Step(s1, c2) == Batch(State([RecordFor(c1), RecordFor(c2)], [Truncate(c1.filename), Truncate(c2.filename)]), true)
  {
    var s1 := State([RecordFor(c1)], [Truncate(c1.filename)]);
    OneRowNoMatch(RecordFor(c1), c2.filename, c2.contentHash.value);
    assert Classify(s1.books, c2) == Accepted;
    AcceptedStep(s1, c2);
  }

  lemma OneRowNoMatch(b: Book, filename: string, hash: string)
    requires b.originalFilename != filename && b.truncatedFilename != filename && b.fileHash != hash
    ensures !ExactMatch([b], filename, hash)
  {
  }

  /** Such names exist: with `p` 145 characters long and free of dots,
      `p + [x] + ".epub"` and `p + [y] + ".epub"` both normalise to
      `p + ".epub"`, so both are recorded and both are copied there. */
  lemma TruncatedNameCollision(p: string, x: char, y: char, hash1: string, hash2: string)
    requires |p| == 145 && '.' !in p && x != y && hash1 != hash2
    ensures var c1 := Candidate(p + [x] + ".epub", Some(hash1), Succeeded, Succeeded);
            var c2 := Candidate(p + [y] + ".epub", Some(hash2), Succeeded, Succeeded);
            var after := Run(State([], []), [c1, c2]);
            && after.completed
            && |after.state.books| == 2
            && after.state.copied == [p + ".epub", p + ".epub"]
  {
    CollisionNames(p, x, y);
    SharedDestinationBothIngested(p + [x] + ".epub", p + [y] + ".epub", hash1, hash2);
  }

  /** The two names differ, are not filtered out, and both normalise to
      `p + ".epub"`, which is neither of them. */
  lemma CollisionNames(p: string, x: char, y: char)
    requires |p| == 145 && '.' !in p && x != y
    ensures var f1, f2 := p + [x] + ".epub", p + [y] + ".epub";
            && f1 != f2 && Truncate(f1) == p + ".epub" && Truncate(f2) == p + ".epub" && f2 != p + ".epub"
            && !Excluded(f1, ExcludeFiles, ExcludeExts) && !Excluded(f2, ExcludeFiles, ExcludeExts)
  {
    CollisionName(p, x);
    CollisionName(p, y);
    assert (p + [x] + ".epub")[145] != (p + [y] + ".epub")[145];
  }

  /** One name of the pair: 151 characters, `x` at index 145, not filtered
      out, normalised to `p + ".epub"`. */
  lemma CollisionName(p: string, x: char)
    requires |p| == 145 && '.' !in p
    ensures var f := p + [x] + ".epub";
            && |f| == 151 && f[145] == x && Truncate(f) == p + ".epub"
            && !Excluded(f, ExcludeFiles, ExcludeExts)
  {
    TruncatesTo(p, x);
    NotExcluded(p, x);
  }

  /** The pass for a file that every stage lets through. */
  lemma AcceptedStep(st: State, c: Candidate)
    requires Classify(st.books, c) == Accepted
    ensures Step(st, c) == Batch(State(st.books + [RecordFor(c)], st.copied + [Truncate(c.filename)]), true)
  {
  }

  /** A two-file batch is two passes of the loop body. */
  lemma RunTwo(st: State, c1: Candidate, c2: Candidate)
    ensures Run(st, [c1, c2]) ==
      if Step(st, c1).completed then Step(Step(st, c1).state, c2) else Step(st, c1)
  {
    assert [c1][..0] == [];
    assert Run(st, [c1]) == Step(st, c1);
    assert [c1, c2][..1] == [c1];
  }

  lemma TruncatesTo(p: string, x: char)
    requires |p| == 145 && '.' !in p
    ensures Truncate(p + [x] + ".epub") == p + ".epub"
  {
    EpubJoins(p, x);
    TruncateCuts(p + [x], "epub", 145);
    DropLast(p, x);
  }

  lemma EpubJoins(p: string, x: char)
    ensures p + [x] + ".epub" == (p + [x]) + "." + "epub"
    ensures p + ".epub" == p + "." + "epub"
  {
  }

  lemma DropLast(p: string, x: char)
    requires |p| == 145
    ensures TakePrefix(p + [x], 145) == p
  {
    assert (p + [x])[..145] == p;
  }

  lemma NotExcluded(p: string, x: char)
    requires |p| == 145
    ensures !Excluded(p + [x] + ".epub", ExcludeFiles, ExcludeExts)
  {
    var f := p + [x] + ".epub";
    assert f[|f| - 1] == 'b';
    assert |f| == 151;
  }
}
