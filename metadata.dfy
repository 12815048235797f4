/** `extract_metadata`: reading the title and author out of what the
    `ebook-meta` tool prints. The tool run itself is an input: it either
    failed (non-zero exit, missing tool) or produced a stdout text. */
module Metadata {
  import opened Strings

  datatype ToolRun = ToolFailed | ToolOk(stdout: string)

  const TitleLabel: string := "Title"
  const AuthorLabel: string := "Author(s)"

  /** A line the loop reads a field from. */
  predicate Labelled(line: string) {
    StartsWith(line, TitleLabel) || StartsWith(line, AuthorLabel)
  }

  /** A labelled line without a `:`: `line.split(":", 1)[1]` raises on it. */
  predicate Malformed(line: string) {
    Labelled(line) && Find(line, ":") == -1
  }

  predicate AnyMalformed(lines: seq<string>) {
    exists i :: 0 <= i < |lines| && Malformed(lines[i])
  }

  /** The text after the first `:` of `line`, stripped (`""` when there is no `:`). */
  function FieldValue(line: string): (v: string)
    ensures v == [] || (!IsSpace(v[0]) && !IsSpace(v[|v| - 1]))
  {
    var colon := Find(line, ":");
    if colon == -1 then "" else Strip(line[colon + 1..])
  }

  /** The value of the last line of `lines` that starts with `prefix`, or `""`. */
  function LastValue(lines: seq<string>, prefix: string): string {
    if lines == [] then ""
    else if StartsWith(lines[|lines| - 1], prefix) then FieldValue(lines[|lines| - 1])
    else LastValue(lines[..|lines| - 1], prefix)
  }

  /** What the parsing loop yields for the lines of the tool's output: the
      last title and the last author, or two empty strings once any labelled
      line lacks its `:` (the exception handler's result). */
  function Parse(lines: seq<string>): (string, string) {
    if AnyMalformed(lines) then ("", "")
    else (LastValue(lines, TitleLabel), LastValue(lines, AuthorLabel))
  }

  /** The `(title, author)` pair `extract_metadata` returns for a tool run. */
  function MetadataOf(run: ToolRun): (string, string) {
    match run
    case ToolFailed => ("", "")
    case ToolOk(stdout) => Parse(SplitLines(stdout))
  }

  /** `extract_metadata`'s loop over `output.splitlines()`, reassigning the
      title and the author and giving up with `("", "")` on a bad line. */
  method ExtractMetadata(run: ToolRun) returns (title: string, author: string)
    ensures (title, author) == MetadataOf(run)
  {
    if run.ToolFailed? {
      return "", "";
    }
    var lines := SplitLines(run.stdout);
    title, author := "", "";
    var i := 0;
    while i < |lines|
      invariant 0 <= i <= |lines|
      invariant !AnyMalformed(lines[..i])
      invariant title == LastValue(lines[..i], TitleLabel)
      invariant author == LastValue(lines[..i], AuthorLabel)
    {
      var line := lines[i];
      ReadStep(lines, i);
      LastValueStep(lines, i, TitleLabel);
      LastValueStep(lines, i, AuthorLabel);
      if StartsWith(line, TitleLabel) {
        if Find(line, ":") == -1 {
          assert Malformed(lines[i]);
          MalformedSomewhere(lines, i);
          return "", "";
        }
        LabelsExclusive(line);
        title := FieldValue(line);
      } else if StartsWith(line, AuthorLabel) {
        if Find(line, ":") == -1 {
          assert Malformed(lines[i]);
          MalformedSomewhere(lines, i);
          return "", "";
        }
        author := FieldValue(line);
      }
      i := i + 1;
    }
    assert lines[..i] == lines;
  }

  /** One more line reveals a malformed line exactly when it is one. */
  lemma ReadStep(lines: seq<string>, i: nat)
    requires i < |lines|
    ensures AnyMalformed(lines[..i + 1]) <==> AnyMalformed(lines[..i]) || Malformed(lines[i])
  {
    var front := lines[..i + 1];
    assert forall j :: 0 <= j < i ==> front[j] == lines[..i][j];
    assert front[i] == lines[i];
  }

  /** One more line overrides a field exactly when it carries that field's label. */
  lemma LastValueStep(lines: seq<string>, i: nat, prefix: string)
    requires i < |lines|
    ensures LastValue(lines[..i + 1], prefix) ==
              if StartsWith(lines[i], prefix) then FieldValue(lines[i]) else LastValue(lines[..i], prefix)
  {
    assert lines[..i + 1][..i] == lines[..i];
  }

  /** One malformed line makes the whole output parse to two empty fields. */
  lemma MalformedSomewhere(lines: seq<string>, i: nat)
    requires i < |lines| && Malformed(lines[i])
    ensures Parse(lines) == ("", "")
  {
  }

  /** No line starts with both labels, so the loop's `elif` loses nothing. */
  lemma LabelsExclusive(line: string)
    requires StartsWith(line, TitleLabel)
    ensures !StartsWith(line, AuthorLabel)
  {
    assert line[0] == TitleLabel[0];
  }

  /** The last labelled line wins: `LastValue` is the field of the last line
      that starts with `prefix`, and `""` when no line does. */
  lemma {:induction false} LastValueIsLast(lines: seq<string>, prefix: string, i: nat)
    requires i < |lines| && StartsWith(lines[i], prefix)
    requires forall j :: i < j < |lines| ==> !StartsWith(lines[j], prefix)
    ensures LastValue(lines, prefix) == FieldValue(lines[i])
  {
    if i < |lines| - 1 {
      var front := lines[..|lines| - 1];
      assert forall j :: i < j < |front| ==> front[j] == lines[j];
      LastValueIsLast(front, prefix, i);
    }
  }

  /** With no line starting with `prefix`, the field is empty. */
  lemma {:induction false} LastValueAbsent(lines: seq<string>, prefix: string)
    requires forall j :: 0 <= j < |lines| ==> !StartsWith(lines[j], prefix)
    ensures LastValue(lines, prefix) == ""
  {
    if lines != [] {
      var front := lines[..|lines| - 1];
      assert forall j :: 0 <= j < |front| ==> front[j] == lines[j];
      LastValueAbsent(front, prefix);
    }
  }

  /** Both returned fields have no whitespace at either end. */
  lemma {:induction false} FieldsAreStripped(lines: seq<string>, prefix: string)
    ensures var v := LastValue(lines, prefix); v == [] || (!IsSpace(v[0]) && !IsSpace(v[|v| - 1]))
  {
    if lines != [] && !StartsWith(lines[|lines| - 1], prefix) {
      FieldsAreStripped(lines[..|lines| - 1], prefix);
    }
  }
}
