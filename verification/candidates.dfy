/** The candidate record and the candidate enumerator: the lines
    `git rev-list --objects --all` prints, turned into one `BlobInfo` each.
    The subprocess itself is not modelled; its output arrives as the lines
    `str.splitlines()` gives. */
module Candidates {
  import opened Wrappers
  import opened Text
  import opened Sequences

  /** One candidate object: its id, its size in bytes (0 until the size
      resolver fills it in) and the path rev-list printed beside it, if any. */
  datatype BlobInfo = BlobInfo(oid: string, size: int, path: Option<string>)

  /** A line the parser can take: an empty line, which it skips, or one with
      at least one token. A line of whitespace only makes the script fail with
      an `IndexError`. */
  predicate Parsable(line: string) {
    line == [] || !AllSpace(line)
  }

  /** The candidate one non-empty rev-list line describes: its first token
      is the id, and the rest of the line after the whitespace that follows
      it is the path. There is no path exactly when the line has one token. */
  function ParseRevLine(line: string): (b: BlobInfo)
    requires !AllSpace(line)
    ensures b.size == 0
    ensures |Split(line)| >= 1 && b.oid == Split(line)[0]
    ensures b.path.None? <==> |Split(line)| < 2
    ensures b.path.Some? ==> Split(b.path.value) == Split(line)[1..]
    ensures b.path.Some? ==> EndsWith(line, b.path.value) && !IsSpace(b.path.value[0])
  {
    SplitOnceShape(line);
    SplitOnceAgreesWithSplit(line);
    var parts := SplitOnce(line);
    BlobInfo(parts[0], 0, if |parts| > 1 then Some(parts[1]) else None)
  }

  /** The lines of the enumerator's output that are not empty, in order. */
  function NonEmptyLines(lines: seq<string>): (r: seq<string>)
    ensures forall line :: multiset(r)[line] == if line == [] then 0 else multiset(lines)[line]
  {
    if lines == [] then []
    else
      var init := lines[..|lines| - 1];
      var last := lines[|lines| - 1];
      assert lines == init + [last];
      NonEmptyLines(init) + if last == [] then [] else [last]
  }

  /** Skipping empty lines keeps the others in their order. */
  lemma {:induction false} NonEmptyLinesInOrder(lines: seq<string>)
    ensures IsSubsequence(NonEmptyLines(lines), lines)
    decreases |lines|
  {
    if lines != [] {
      var init := lines[..|lines| - 1];
      var last := lines[|lines| - 1];
      NonEmptyLinesInOrder(init);
      AppendPreservesSubsequence(NonEmptyLines(init), init, last, last != []);
      assert lines == init + [last];
    }
  }

  /** `parse_rev_list` after the subprocess: one candidate per non-empty
      line, in order, each with size 0, its id the line's first token and
      its path the rest of the line. */
  method ParseRevList(lines: seq<string>) returns (blobs: seq<BlobInfo>)
    requires forall i :: 0 <= i < |lines| ==> Parsable(lines[i])
    ensures |blobs| == |NonEmptyLines(lines)|
    ensures forall i :: 0 <= i < |blobs| ==>
      !AllSpace(NonEmptyLines(lines)[i]) && blobs[i] == ParseRevLine(NonEmptyLines(lines)[i])
  {
    blobs := [];
    for k := 0 to |lines|
      invariant |blobs| == |NonEmptyLines(lines[..k])|
      invariant forall i :: 0 <= i < |blobs| ==>
        !AllSpace(NonEmptyLines(lines[..k])[i]) && blobs[i] == ParseRevLine(NonEmptyLines(lines[..k])[i])
    {
      var line := lines[k];
      assert lines[..k + 1] == lines[..k] + [line];
      assert NonEmptyLines(lines[..k + 1]) ==
        NonEmptyLines(lines[..k]) + if line == [] then [] else [line];
      if line == [] {
        continue;
      }
      blobs := blobs + [ParseRevLine(line)];
    }
    assert lines[..|lines|] == lines;
  }
}
