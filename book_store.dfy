/** The `books` table both scripts read and append to, held as a sequence of
    rows in insertion order, and the queries they run against it. */
module BookStore {

  datatype Option<+T> = None | Some(value: T)

  /** One row of `books`. The older script fills only the first three
      columns, so the others are `NULL` (`None`) in the rows it writes. */
  datatype Book = Book(
    originalFilename: string,
    truncatedFilename: string,
    fileHash: string,
    sampleText: Option<string>,
    metadataTitle: Option<string>,
    metadataAuthor: Option<string>)

  /** The outcome of a step that may raise: a copy, or an insert and commit. */
  datatype Attempt = Succeeded | Failed(error: string)

  /** The Tier 1 query `original_filename = ? OR truncated_filename = ? OR
      filehash = ?`, bound to `(filename, filename, hash)` as both scripts bind
      it: the stored truncated name is compared with the candidate's ORIGINAL name. */
  predicate ExactMatch(books: seq<Book>, filename: string, hash: string) {
    exists i :: 0 <= i < |books| &&
      (books[i].originalFilename == filename || books[i].truncatedFilename == filename
       || books[i].fileHash == hash)
  }

  /** The Tier 2 query `metadata_title = ? AND metadata_author = ?`; a `NULL`
      column equals nothing. */
  predicate MetadataMatch(books: seq<Book>, title: string, author: string) {
    exists i :: 0 <= i < |books| &&
      books[i].metadataTitle == Some(title) && books[i].metadataAuthor == Some(author)
  }

  /** No two rows share a content hash. */
  ghost predicate HashesDistinct(books: seq<Book>) {
    forall i, j :: 0 <= i < j < |books| ==> books[i].fileHash != books[j].fileHash
  }

  /** No two rows share an original file name. */
  ghost predicate NamesDistinct(books: seq<Book>) {
    forall i, j :: 0 <= i < j < |books| ==> books[i].originalFilename != books[j].originalFilename
  }

  /** A row that passed Tier 1 keeps both kinds of distinctness when appended. */
  lemma AppendKeepsDistinct(books: seq<Book>, b: Book)
    requires !ExactMatch(books, b.originalFilename, b.fileHash)
    ensures HashesDistinct(books) ==> HashesDistinct(books + [b])
    ensures NamesDistinct(books) ==> NamesDistinct(books + [b])
  {
    var after := books + [b];
    assert forall i :: 0 <= i < |books| ==> after[i] == books[i];
    assert after[|books|] == b;
  }

  /** Once a row holds `hash` or has `filename` as its original name, Tier 1
      matches every later candidate with that hash or that name. */
  lemma StoredRowMatches(books: seq<Book>, i: nat, filename: string, hash: string)
    requires i < |books|
    requires books[i].fileHash == hash || books[i].originalFilename == filename
    ensures ExactMatch(books, filename, hash)
  {
  }
}
