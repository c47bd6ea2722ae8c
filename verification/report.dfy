/** `print_report`: the candidates sorted largest first, a header with
    their count, then one row per candidate with the id padded to the
    longest id, the human-readable size right-aligned in ten columns and
    the path. Printing is not modelled: the report is the sequence of the
    strings passed to `print`, each of which `print` ends with a newline. */
module Report {
  import opened Wrappers
  import opened Text
  import opened Numbers
  import opened Candidates
  import opened HumanSize
  import opened SizeOrder

  const NoBlobsLine: string := "No blobs meet the configured minimum size."

  const MissingPath: string := "(no path available)"

  /** The width of the right-aligned size field. */
  const SizeColumn: nat := 10

  /** The two spaces between fields. */
  const Gap: string := "  "

  /** The header; its own `\n` and the one `print` adds leave a blank line
      before the rows. */
  function Header(count: nat): (s: string)
  {
    "Found " + NatToString(count) + " blob(s) exceeding the threshold:\n"
  }

  /** `blob.path or "(no path available)"`: an absent or empty path shows
      the placeholder. */
  function PathDisplay(path: Option<string>): (s: string)
    ensures s != []
  {
    if path.Some? && path.value != [] then path.value else MissingPath
  }

  /** `max(len(blob.oid) for blob in blobs)`, 0 for no candidates. */
  function OidWidth(blobs: seq<BlobInfo>): (w: nat)
    ensures forall i :: 0 <= i < |blobs| ==> |blobs[i].oid| <= w
    ensures blobs != [] ==> exists i :: 0 <= i < |blobs| && |blobs[i].oid| == w
  {
    if blobs == [] then 0
    else
      var rest := OidWidth(blobs[1..]);
      if |blobs[0].oid| >= rest then |blobs[0].oid| else rest
  }

  /** The row of candidate `b`. */
  function Row(b: BlobInfo, width: nat): (row: string)
  {
    Layout(b.oid, HumanSizeText(b.size), PathDisplay(b.path), width)
  }

  /** `f"{oid.ljust(width)}  {size:>10}  {path}"`. */
  function Layout(oid: string, size: string, path: string, width: nat): (row: string)
    ensures |row| >= width + 2 * |Gap| + SizeColumn + |path|
  {
    (LJust(oid, width) + Gap) + RJust(size, SizeColumn) + (Gap + path)
  }

  /** The rows of `blobs`, in order. */
  function Rows(blobs: seq<BlobInfo>, width: nat): (rows: seq<string>)
    ensures |rows| == |blobs|
  {
    if blobs == [] then []
    else Rows(blobs[..|blobs| - 1], width) + [Row(blobs[|blobs| - 1], width)]
  }

  /** What `print_report` prints for the list as it is once sorted. */
  function ReportLines(sorted: seq<BlobInfo>): (lines: seq<string>)
    ensures |lines| == |sorted| + 1
  {
    if sorted == [] then [NoBlobsLine]
    else [Header(|sorted|)] + Rows(sorted, OidWidth(sorted))
  }

  /** `print_report(blobs)`: sorts the list in place, largest first, and
      returns the lines it prints. */
  method PrintReport(blobs: array<BlobInfo>) returns (lines: seq<string>)
    modifies blobs
    ensures blobs[..] == SortedBySize(old(blobs[..]))
    ensures lines == ReportLines(blobs[..])
  {
    if blobs.Length == 0 {
      return [NoBlobsLine];
    }
    SortBySize(blobs);
    var width := OidWidth(blobs[..]);
    lines := [Header(blobs.Length)];
    for i := 0 to blobs.Length
      modifies {}
      invariant lines == [Header(blobs.Length)] + Rows(blobs[..i], width)
    {
      var b := blobs[i];
      var pathDisplay := PathDisplay(b.path);
      var size := HumanSize.HumanSize(b.size);
      RowsSnoc(blobs[..], i, width);
      AppendAssoc([Header(blobs.Length)], Rows(blobs[..i], width), Row(b, width));
      lines := lines + [Layout(b.oid, size, pathDisplay, width)];
    }
    assert blobs[..blobs.Length] == blobs[..];
  }

  /** Appending one line after a concatenation. */
  lemma AppendAssoc(a: seq<string>, b: seq<string>, x: string)
    ensures (a + b) + [x] == a + (b + [x])
  {
  }

  /** The rows of one more candidate: its row comes last. */
  lemma RowsSnoc(s: seq<BlobInfo>, i: nat, width: nat)
    requires i < |s|
    ensures Rows(s[..i + 1], width) == Rows(s[..i], width) + [Row(s[i], width)]
  {
    assert s[..i + 1][..i] == s[..i];
  }

  /** Row i of `Rows` is the row of candidate i. */
  lemma {:induction false} RowsAt(blobs: seq<BlobInfo>, width: nat, i: nat)
    requires i < |blobs|
    ensures Rows(blobs, width)[i] == Row(blobs[i], width)
  {
    if i < |blobs| - 1 {
      RowsAt(blobs[..|blobs| - 1], width, i);
    }
  }

  /** A report is the fixed line alone exactly when there are no
      candidates. */
  lemma ReportEmpty(sorted: seq<BlobInfo>)
    ensures ReportLines(sorted) == [NoBlobsLine] <==> sorted == []
  {
    if sorted != [] {
      HeaderIsNotNoBlobsLine(|sorted|);
    }
  }

  /** The header never reads as the no-candidates line. */
  lemma HeaderIsNotNoBlobsLine(count: nat)
    ensures Header(count) != NoBlobsLine
  {
    assert Header(count)[0] == 'F';
  }

  /** A report on some candidates is the header with their count and one
      line per candidate. */
  lemma ReportShape(sorted: seq<BlobInfo>)
    requires sorted != []
    ensures var lines := ReportLines(sorted);
      |lines| == |sorted| + 1 && lines[0] == Header(|sorted|)
  {
  }

  /** Line `i + 1` of a report is the row of the i-th candidate in the
      sorted order, its id padded to the longest. */
  lemma ReportRow(sorted: seq<BlobInfo>, i: nat)
    requires i < |sorted|
    ensures ReportLines(sorted)[i + 1] == Row(sorted[i], OidWidth(sorted))
  {
    var width := OidWidth(sorted);
    var rows := Rows(sorted, width);
    var lines := ReportLines(sorted);
    RowsAt(sorted, width, i);
    ConsAt(Header(|sorted|), rows, i);
  }

  /** Indexing past a first line. */
  lemma ConsAt(h: string, t: seq<string>, i: nat)
    requires i < |t|
    ensures ([h] + t)[i + 1] == t[i]
  {
  }

  /** A row whose id fits the width starts with the id padded to the
      width, then two spaces. */
  lemma RowStart(oid: string, size: string, path: string, width: nat)
    requires |oid| <= width
    ensures |Layout(oid, size, path, width)| >= width + |Gap|
    ensures Layout(oid, size, path, width)[..width] == LJust(oid, width)
    ensures Layout(oid, size, path, width)[width..width + |Gap|] == Gap
  {
    FieldsAt(LJust(oid, width), Gap, RJust(size, SizeColumn), path, width, width + 2 * |Gap| + |RJust(size, SizeColumn)|);
  }

  /** Where the four fields of a row sit, whatever their contents: the
      gap after the id starts at `w`, the path at `k`. */
  lemma FieldsAt(id: string, gap: string, field: string, path: string, w: nat, k: nat)
    requires w == |id| && k == |id| + 2 * |gap| + |field|
    ensures |(id + gap) + field + (gap + path)| == k + |path|
    ensures ((id + gap) + field + (gap + path))[..w] == id
    ensures ((id + gap) + field + (gap + path))[w..w + |gap|] == gap
    ensures ((id + gap) + field + (gap + path))[k..] == path
  {
    var head := id + gap;
    var front := head + field;
    var row := front + (gap + path);
    ConcatParts(front, gap + path);
    ConcatParts(head, field);
    ConcatParts(id, gap);
    ConcatParts(gap, path);
    assert row[..|id|] == front[..|head|][..|id|];
    assert row[|id|..|id| + |gap|] == front[..|head|][|id|..];
    assert row[|front| + |gap|..] == row[|front|..][|gap|..];
  }

  /** Every row ends with two spaces and the path. */
  lemma RowEnd(oid: string, size: string, path: string, width: nat)
    ensures EndsWith(Layout(oid, size, path, width), Gap + path)
  {
    var front := (LJust(oid, width) + Gap) + RJust(size, SizeColumn);
    ConcatParts(front, Gap + path);
  }

  /** A size text of at most ten characters fills the size field exactly:
      the field is the text right-aligned in ten columns. */
  lemma RowSizeField(oid: string, size: string, path: string, width: nat)
    requires |oid| <= width && |size| <= SizeColumn
    ensures var row := Layout(oid, size, path, width);
      |row| >= width + |Gap| + SizeColumn &&
      row[width + |Gap|..width + |Gap| + SizeColumn] == RJust(size, SizeColumn)
  {
    var head := LJust(oid, width) + Gap;
    var field := RJust(size, SizeColumn);
    var row := Layout(oid, size, path, width);
    assert row == (head + field) + (Gap + path);
    ConcatParts(head + field, Gap + path);
    ConcatParts(head, field);
    assert row[|head|..|head| + |field|] == (head + field)[|head|..];
  }

  /** With the size field filled exactly, the path starts in the same
      column on every row: after the id field, the field and two gaps. */
  lemma RowPathStart(oid: string, size: string, path: string, width: nat)
    requires |oid| <= width && |size| <= SizeColumn
    ensures |Layout(oid, size, path, width)| == width + 2 * |Gap| + SizeColumn + |path|
    ensures Layout(oid, size, path, width)[width + 2 * |Gap| + SizeColumn..] == path
  {
    FieldsAt(LJust(oid, width), Gap, RJust(size, SizeColumn), path, width, width + 2 * |Gap| + SizeColumn);
  }

  /** The path column shows the path, or the placeholder when the path is
      absent or empty. */
  lemma PathColumn(path: Option<string>)
    ensures path.None? ==> PathDisplay(path) == MissingPath
    ensures path.Some? ==> PathDisplay(path) == if path.value == [] then MissingPath else path.value
  {
  }

  /** Every row of a report starts with its id padded to the longest id. */
  lemma ReportIdColumn(sorted: seq<BlobInfo>, i: nat)
    requires i < |sorted|
    ensures var width := OidWidth(sorted); var row := ReportLines(sorted)[i + 1];
      |row| >= width && row[..width] == LJust(sorted[i].oid, width)
  {
    var b := sorted[i];
    ReportRow(sorted, i);
    RowStart(b.oid, HumanSizeText(b.size), PathDisplay(b.path), OidWidth(sorted));
  }

  /** For sizes from 0 up to, but not including, 1 TiB the path starts
      `width + 14` characters into the row, whatever the size: the path
      column lines up. */
  lemma ReportPathColumn(sorted: seq<BlobInfo>, i: nat)
    requires i < |sorted| && 0 <= sorted[i].size < Pow1024(LastUnit)
    ensures var width := OidWidth(sorted); var row := ReportLines(sorted)[i + 1];
      |row| >= width + 2 * |Gap| + SizeColumn &&
      row[width + 2 * |Gap| + SizeColumn..] == PathDisplay(sorted[i].path)
  {
    var width := OidWidth(sorted);
    var row := ReportLines(sorted)[i + 1];
    ReportRow(sorted, i);
    RowPathColumn(sorted[i], width);
    assert row[width + 2 * |Gap| + SizeColumn..] == Row(sorted[i], width)[width + 2 * |Gap| + SizeColumn..];
  }

  /** The path column of one row whose id fits the width and whose size
      is below 1 TiB. */
  lemma RowPathColumn(b: BlobInfo, width: nat)
    requires |b.oid| <= width && 0 <= b.size < Pow1024(LastUnit)
    ensures var row := Row(b, width);
      |row| >= width + 2 * |Gap| + SizeColumn &&
      row[width + 2 * |Gap| + SizeColumn..] == PathDisplay(b.path)
  {
    FitsSizeColumn(b.size);
    RowPathStart(b.oid, HumanSizeText(b.size), PathDisplay(b.path), width);
  }
}
