# git-list-large-blobs, modelled in Dafny

`contrib/list-large-objects/git-list-large-blobs.py` lists the blobs of a Git
repository whose size is at least a threshold. It takes candidate objects
from `git rev-list --objects --all`. It asks `git cat-file --batch-check`
for their kinds and sizes, keeps the blobs that are large enough, and
prints them largest first. Each row shows the id, a human-readable size and
the path.

This project models the in-memory logic of that pipeline, with the two
subprocesses replaced by the lines they print:

- `Candidates`: the `BlobInfo` record and `parse_rev_list`. Each non-empty
  rev-list line becomes one candidate with size 0, its first token as the
  id and the rest of the line as the path.
- `SizeResolver`: the `fill_sizes` reply loop over the candidate array.
  Reply i sets the size of candidate i, a non-blob kind sets it to 0, and a
  short line leaves it alone. The loop stops at the end of the replies, or
  where `int()` rejects a size.
- `SizeFilter`: `filter_large_blobs`.
- `SizeOrder`: the stable, largest-first in-place sort of `print_report`.
- `HumanSize`: `human_size`, with the unit choice stated with integers.
- `Report`: `print_report`, returning the lines it prints.
- `MinSize`: `parse_min_size`.
- `Text`, `Numbers` and `Sequences`: the parts of Python's `str`, `int`,
  `float` and `%.1f` formatting the script relies on, and the subsequence
  order used to state "in the same order".

A candidate list the script changes in place (`fill_sizes`, `sort`) is an
`array<BlobInfo>`. Loops the script runs (`parse_rev_list`, `fill_sizes`,
`human_size`, the report loop, the sort) are methods whose `ensures` tie
them to the functions specified below. Pure computations are functions.

## Model

| member | source | states |
|---|---|---|
| Candidates.ParseRevLine | contrib/list-large-objects/git-list-large-blobs.py:39-42 | the candidate of a line has size 0 and the line's first token as id; its path is absent exactly when the line has fewer than two tokens; otherwise the path is a tail of the line that starts with no whitespace and holds every token after the first |
| Candidates.NonEmptyLines | contrib/list-large-objects/git-list-large-blobs.py:36-38 | every non-empty line is kept as often as it occurs, and no empty line is kept |
| Candidates.NonEmptyLinesInOrder | contrib/list-large-objects/git-list-large-blobs.py:36-38 | the lines kept are a subsequence of the input: their order is unchanged |
| Candidates.ParseRevList | contrib/list-large-objects/git-list-large-blobs.py:35-43 | one candidate per non-empty line, in order, each the candidate of its line |
| SizeResolver.Apply | contrib/list-large-objects/git-list-large-blobs.py:72-76 | a reply changes only the size of its candidate, never the id or path, and only when its verdict sets a size |
| SizeResolver.JudgeTokens | contrib/list-large-objects/git-list-large-blobs.py:70-76 | the branch the loop takes on the tokens of a reply: `continue` below three tokens, size 0 for a kind other than `blob`, `int(size)` otherwise, `Raise` where `int()` rejects; its cases are stated by `BlobReplySetsSize`, `OtherKindReplyZeroes` and `MissingReplySkipped` |
| SizeResolver.Judge | contrib/list-large-objects/git-list-large-blobs.py:69-76 | the same on a reply line, through `strip().split()`; `KnownReplyTokens` and `BlankReplySkipped` state what the split yields |
| SizeResolver.Handled | contrib/list-large-objects/git-list-large-blobs.py:65-68 | the loop handles no more candidates than there are, nor than there are replies |
| SizeResolver.HandledIsFirstStop | contrib/list-large-objects/git-list-large-blobs.py:65-76 | no reply before the stopping point is rejected by `int()`; unless the candidates or the replies ran out, the reply at the stopping point is rejected |
| SizeResolver.HandledAt | contrib/list-large-objects/git-list-large-blobs.py:65-76 | the first point where the candidates or the replies run out, or a size is rejected, is the stopping point |
| SizeResolver.ReadVerdict | contrib/list-large-objects/git-list-large-blobs.py:66-72 | reading reply i gives the verdict of the i-th reply of the stream |
| SizeResolver.FillSizes | contrib/list-large-objects/git-list-large-blobs.py:46-78 | each candidate before the stopping point takes its reply's verdict; every later candidate keeps its size; ids and paths never change; the error is raised exactly when the loop stopped at a rejected size; no candidates means no change |
| SizeResolver.BlobReplySetsSize | contrib/list-large-objects/git-list-large-blobs.py:69-76 | the reply `<oid> blob <n>` sets the candidate's size to n and changes nothing else |
| SizeResolver.OtherKindReplyZeroes | contrib/list-large-objects/git-list-large-blobs.py:72-75 | a reply of another kind sets the size to 0, whatever size it gives |
| SizeResolver.MissingReplySkipped | contrib/list-large-objects/git-list-large-blobs.py:69-71 | the reply `<oid> missing` and a blank line leave the candidate unchanged |
| SizeResolver.BlankReplySkipped | contrib/list-large-objects/git-list-large-blobs.py:69-71 | a blank reply line leaves the candidate unchanged |
| SizeResolver.KnownReplyTokens | contrib/list-large-objects/git-list-large-blobs.py:69 | a reply line of three whitespace-free words splits back into those three words |
| SizeFilter.FilterKeepsExactly | contrib/list-large-objects/git-list-large-blobs.py:92-93 | each candidate of at least the minimum size is kept as often as it occurs, and no other candidate is kept |
| SizeFilter.KeptMeetThreshold | contrib/list-large-objects/git-list-large-blobs.py:92-93 | every candidate kept has at least the minimum size |
| SizeFilter.FilterInOrder | contrib/list-large-objects/git-list-large-blobs.py:92-93 | the candidates kept keep their relative order |
| SizeFilter.FilterMonotone | contrib/list-large-objects/git-list-large-blobs.py:92-93 | what a higher threshold keeps is a subsequence of what a lower one keeps |
| SizeFilter.FilterTwice | contrib/list-large-objects/git-list-large-blobs.py:92-93 | filtering twice equals filtering once with the larger threshold, so filtering is idempotent |
| SizeFilter.FilterLargeBlobs | contrib/list-large-objects/git-list-large-blobs.py:92-93 | the list comprehension keeps at most the candidates given; which ones, how often and in what order is stated by `FilterKeepsExactly`, `KeptMeetThreshold` and `FilterInOrder` |
| SizeOrder.InsertPermutes | contrib/list-large-objects/git-list-large-blobs.py:101 | placing one candidate adds that candidate and loses none |
| SizeOrder.SortedPermutes | contrib/list-large-objects/git-list-large-blobs.py:101 | the sorted list is a permutation of the input |
| SizeOrder.InsertKeepsDescending | contrib/list-large-objects/git-list-large-blobs.py:101 | placing a candidate into a largest-first list keeps it largest first |
| SizeOrder.InsertBySize | contrib/list-large-objects/git-list-large-blobs.py:101 | where a stable largest-first sort puts a candidate that comes after all of a sorted list: `InsertPermutes`, `InsertKeepsDescending`, `InsertStable` and `InsertAt` state it |
| SizeOrder.SortedBySize | contrib/list-large-objects/git-list-large-blobs.py:101 | the order `sort(key=size, reverse=True)` leaves: `SortedPermutes`, `SortedDescending` and `SortedStable` prove it a permutation, largest first, stable |
| SizeOrder.SortedDescending | contrib/list-large-objects/git-list-large-blobs.py:101 | the sorted list is non-increasing in size |
| SizeOrder.InsertStable | contrib/list-large-objects/git-list-large-blobs.py:101 | a candidate placed goes after every candidate of its size already in the list |
| SizeOrder.SortedStable | contrib/list-large-objects/git-list-large-blobs.py:101 | candidates of equal size keep their input order, as Python's stable `sort(reverse=True)` keeps them |
| SizeOrder.InsertAt | contrib/list-large-objects/git-list-large-blobs.py:101 | a candidate lands right after the leading candidates at least as large as it |
| SizeOrder.InsertAtIndex | contrib/list-large-objects/git-list-large-blobs.py:101 | the same landing place, stated position by position |
| SizeOrder.SortBySize | contrib/list-large-objects/git-list-large-blobs.py:101 | the array after the in-place sort is the stable largest-first order of its old contents |
| SizeOrder.InsertLast | contrib/list-large-objects/git-list-large-blobs.py:101 | one pass moves element i into its place in the sorted prefix and leaves the rest of the array alone |
| HumanSize.UnitFrom | contrib/list-large-objects/git-list-large-blobs.py:85-88 | the loop, started at a unit, stops at that unit or a later one, and never past TiB |
| HumanSize.UnitIndex | contrib/list-large-objects/git-list-large-blobs.py:83-88 | the chosen unit is one of the five |
| HumanSize.UnitIndexIsLeast | contrib/list-large-objects/git-list-large-blobs.py:83-88 | every smaller unit would leave the number at 1024 or more; the chosen unit leaves it below 1024 unless it is TiB |
| HumanSize.UnitIndexAt | contrib/list-large-objects/git-list-large-blobs.py:83-88 | any unit that every smaller unit overflows, and that is TiB or holds the size below 1024^(i+1), is the chosen one |
| HumanSize.BelowNextUnit | contrib/list-large-objects/git-list-large-blobs.py:86 | the value in unit i is below 1024 exactly when the size is below 1024^(i+1) |
| HumanSize.NextUnit | contrib/list-large-objects/git-list-large-blobs.py:88 | one more division by 1024 gives the value in the next unit |
| HumanSize.HumanSize | contrib/list-large-objects/git-list-large-blobs.py:81-89 | the loop returns the scaled value in the least unit described above; it always returns, so the fallback after it is never reached |
| HumanSize.ScaledBounds | contrib/list-large-objects/git-list-large-blobs.py:86-88 | the number shown is below 1024 unless the unit is TiB, and at least 1 unless the unit is bytes |
| HumanSize.HumanSizeTextShape | contrib/list-large-objects/git-list-large-blobs.py:87 | the text ends with a space and the unit; the number before it reads back as the scaled value rounded to a tenth |
| HumanSize.FitsSizeColumn | contrib/list-large-objects/git-list-large-blobs.py:87 | any size from 0 up to, but not including, 1 TiB gives a text of at most ten characters |
| HumanSize.HumanSizeText | contrib/list-large-objects/git-list-large-blobs.py:81-89 | what `human_size` returns: `HumanSize` proves the loop returns it; `UnitIndexIsLeast`, `ScaledBounds`, `HumanSizeTextShape` and `FitsSizeColumn` state its unit, number and width |
| Report.OidWidth | contrib/list-large-objects/git-list-large-blobs.py:102 | the width is at least every id's length and is the length of some id |
| Report.Rows | contrib/list-large-objects/git-list-large-blobs.py:105-107 | one row per candidate |
| Report.RowsAt | contrib/list-large-objects/git-list-large-blobs.py:105-107 | row i is the row of candidate i |
| Report.RowsSnoc | contrib/list-large-objects/git-list-large-blobs.py:105-107 | one more candidate adds its row at the end |
| Report.PrintReport | contrib/list-large-objects/git-list-large-blobs.py:96-107 | the array is left in the stable largest-first order, and the lines printed are the report on that order |
| Report.ReportEmpty | contrib/list-large-objects/git-list-large-blobs.py:97-99 | the report is the "No blobs" line alone exactly when there are no candidates |
| Report.HeaderIsNotNoBlobsLine | contrib/list-large-objects/git-list-large-blobs.py:98-104 | the header never reads as the "No blobs" line |
| Report.ReportShape | contrib/list-large-objects/git-list-large-blobs.py:104-107 | a report on some candidates is the header with their count and one line per candidate |
| Report.ReportRow | contrib/list-large-objects/git-list-large-blobs.py:105-107 | line i+1 is the row of the i-th candidate in sorted order, padded to the longest id |
| Report.RowStart | contrib/list-large-objects/git-list-large-blobs.py:107 | a row starts with the id padded to the width, then two spaces |
| Report.RowEnd | contrib/list-large-objects/git-list-large-blobs.py:107 | a row ends with two spaces and the path shown |
| Report.RowSizeField | contrib/list-large-objects/git-list-large-blobs.py:107 | a size text of at most ten characters fills the ten-column field, right-aligned |
| Report.RowPathStart | contrib/list-large-objects/git-list-large-blobs.py:107 | with such a size text, the path starts at column width + 14 and the row has exactly that many characters plus the path |
| Report.PathColumn | contrib/list-large-objects/git-list-large-blobs.py:106 | an absent or empty path shows "(no path available)"; any other path shows as it is |
| Report.ReportIdColumn | contrib/list-large-objects/git-list-large-blobs.py:102-107 | in every row the id field is the id padded to the longest id, and never truncated |
| Report.RowPathColumn | contrib/list-large-objects/git-list-large-blobs.py:106-107 | the row of a candidate below 1 TiB shows its path from column width + 14 |
| Report.ReportPathColumn | contrib/list-large-objects/git-list-large-blobs.py:102-107 | for sizes below 1 TiB the path column lines up: it starts at column width + 14 on every row |
| Report.ReportLines | contrib/list-large-objects/git-list-large-blobs.py:96-107 | the lines `print_report` prints number one more than the candidates; `ReportEmpty`, `ReportShape`, `ReportRow`, `ReportIdColumn` and `ReportPathColumn` state them |
| Report.Header | contrib/list-large-objects/git-list-large-blobs.py:104 | the header with the count; `HeaderIsNotNoBlobsLine` shows it never reads as the no-candidates line |
| Report.PathDisplay | contrib/list-large-objects/git-list-large-blobs.py:106 | `blob.path or "(no path available)"` is never empty; `PathColumn` states which it shows |
| Report.Row | contrib/list-large-objects/git-list-large-blobs.py:107 | the row of one candidate; `RowPathColumn` places its path |
| Report.Layout | contrib/list-large-objects/git-list-large-blobs.py:107 | `f"{oid.ljust(width)}  {size:>10}  {path}"` is at least as long as its fields at their widths; `RowStart`, `RowSizeField`, `RowEnd` and `RowPathStart` place each field |
| MinSize.FirstSuffix | contrib/list-large-objects/git-list-large-blobs.py:140-141 | the entry found matches the string's tail and is in the table; when none is found, no entry matches |
| MinSize.SuffixShape | contrib/list-large-objects/git-list-large-blobs.py:127-137 | entry i is K, M or G followed by i mod 3 letters, each B or I |
| MinSize.SuffixesTailExclusive | contrib/list-large-objects/git-list-large-blobs.py:127-137 | no suffix of the table ends another one |
| MinSize.AtMostOneSuffixMatches | contrib/list-large-objects/git-list-large-blobs.py:139-141 | at most one suffix matches the tail of any string |
| MinSize.SameMatch | contrib/list-large-objects/git-list-large-blobs.py:139-141 | two table entries that match the same string are the same entry |
| MinSize.SameEntries | contrib/list-large-objects/git-list-large-blobs.py:127-137 | a reordering of the table has the same entries |
| MinSize.FirstSuffixOrderIndependent | contrib/list-large-objects/git-list-large-blobs.py:140-141 | whatever order the dictionary iterates in, the loop finds the same entry |
| MinSize.ParseMinSizeOrderIndependent | contrib/list-large-objects/git-list-large-blobs.py:126-143 | the threshold does not depend on the dictionary's iteration order |
| MinSize.NormalisedSpelling | contrib/list-large-objects/git-list-large-blobs.py:139 | digits followed by a suffix in any letter case strip and upper-case to the digits and the upper-case suffix |
| MinSize.FindsSuffix | contrib/list-large-objects/git-list-large-blobs.py:140-141 | digits followed by suffix i find entry i |
| MinSize.ScaledNumber | contrib/list-large-objects/git-list-large-blobs.py:142 | digits followed by a matched suffix give the digits' value times the factor, when that product is below the double range limit |
| MinSize.ScaleDigits | contrib/list-large-objects/git-list-large-blobs.py:142 | a whole number read by `float` and scaled by a whole factor truncates to the exact product, when both are below the double range limit |
| MinSize.ScaleWhole | contrib/list-large-objects/git-list-large-blobs.py:142 | a whole number times a whole factor loses nothing to `int()`, when both are below the double range limit |
| MinSize.TruncateProduct | contrib/list-large-objects/git-list-large-blobs.py:142 | `int()` of a product of whole numbers is that product |
| MinSize.SuffixedNumber | contrib/list-large-objects/git-list-large-blobs.py:126-143 | n followed by a suffix in any letter case is n times the suffix's factor, when that product is a finite double: "5MiB" is 5 * 1024^2, "2g" is 2 * 1024^3 |
| MinSize.PlainNumber | contrib/list-large-objects/git-list-large-blobs.py:139-143 | a number without a suffix, below the double range limit, is that many bytes: "100" is 100 |
| MinSize.NoSuffixAfterDigit | contrib/list-large-objects/git-list-large-blobs.py:140-141 | no suffix matches a string that ends with a digit |
| MinSize.WholeNumber | contrib/list-large-objects/git-list-large-blobs.py:143 | `int(float(n))` of a whole number that is a finite double is n |
| MinSize.SuffixesEndInLetters | contrib/list-large-objects/git-list-large-blobs.py:127-137 | every suffix ends with a letter |
| MinSize.ThresholdNeedsDigit | contrib/list-large-objects/git-list-large-blobs.py:139-143 | a threshold without a digit is an error |
| MinSize.NeedsDigitWithTable | contrib/list-large-objects/git-list-large-blobs.py:139-143 | the same holds whatever the suffix table |
| MinSize.NormalisedDigit | contrib/list-large-objects/git-list-large-blobs.py:139 | a digit in the stripped, upper-cased text is a digit of the text as given |
| MinSize.NonNumericIsError | contrib/list-large-objects/git-list-large-blobs.py:142-143 | in the modelled decimal syntax, a number part with any character other than digits, a point, a sign or whitespace is an error |
| MinSize.SuffixAloneIsError | contrib/list-large-objects/git-list-large-blobs.py:139-143 | a suffix on its own, in any letter case, such as "MiB" or "k", is an error |
| MinSize.SuffixesAreLetters | contrib/list-large-objects/git-list-large-blobs.py:127-137 | every suffix is made of upper-case letters |
| MinSize.ParseMinSize | contrib/list-large-objects/git-list-large-blobs.py:126-143 | `parse_min_size`, `None` for the errors it raises: `SuffixedNumber`, `PlainNumber`, `HugeNumberIsError`, `HugeSuffixedIsError`, `ThresholdNeedsDigit`, `SuffixAloneIsError` and `ParseMinSizeOrderIndependent` state its results |
| MinSize.ParseMinSizeIn | contrib/list-large-objects/git-list-large-blobs.py:139-143 | `parse_min_size` with the dictionary iterated in a given order; `NeedsDigitWithTable` and `ParseMinSizeOrderIndependent` are stated about it |
| MinSize.Scaled | contrib/list-large-objects/git-list-large-blobs.py:140-143 | the number read once the loop found a suffix or none; `ScaledNumber` and `ScaledOverflow` state its value and its overflow |
| MinSize.NumberPart | contrib/list-large-objects/git-list-large-blobs.py:142 | `upper[:-len(suffix)]`: the number part followed by the matched suffix gives back the normalised threshold; with no suffix it is the whole threshold |
| MinSize.Scale | contrib/list-large-objects/git-list-large-blobs.py:142 | `int(float(x) * factor)` gives a value exactly when `float` accepted the number and both the number and the product are finite doubles; otherwise `OverflowError` or `ValueError` |
| MinSize.Whole | contrib/list-large-objects/git-list-large-blobs.py:143 | `int(float(x))` gives a value exactly when `float` accepted the number and it is a finite double |
| MinSize.HugeNumberIsError | contrib/list-large-objects/git-list-large-blobs.py:143 | a number at least 2^1024 - 2^970 is read as infinity, and `int()` raises `OverflowError` |
| MinSize.HugeSuffixedIsError | contrib/list-large-objects/git-list-large-blobs.py:142 | a number whose scaled value is at least 2^1024 - 2^970 is an error: the product is infinity |
| MinSize.ScaledOverflow | contrib/list-large-objects/git-list-large-blobs.py:142 | digits followed by a suffix whose product with the factor overflows a double give an error |
| MinSize.ScaleOverflow | contrib/list-large-objects/git-list-large-blobs.py:142 | a whole product that overflows a double is an error under `int()` |
| Numbers.NatToString | contrib/list-large-objects/git-list-large-blobs.py:104 | `str(n)` is non-empty ASCII digits with no leading zero, and its value is n |
| Numbers.ParseInt | contrib/list-large-objects/git-list-large-blobs.py:76 | what `int()` accepts ends, once stripped, in a non-empty run of digits |
| Numbers.UnsignedDecimal | contrib/list-large-objects/git-list-large-blobs.py:142-143 | an unsigned numeral is never negative |
| Numbers.ParseDecimalOfInteger | contrib/list-large-objects/git-list-large-blobs.py:142-143 | a digit string reads the same under `float` as under `int` |
| Numbers.ParseDecimalHasDigit | contrib/list-large-objects/git-list-large-blobs.py:142-143 | in the modelled decimal syntax, `float` raises on text without a digit |
| Numbers.NumeralChars | contrib/list-large-objects/git-list-large-blobs.py:142-143 | text the modelled decimal syntax accepts holds only digits, the point, signs and whitespace |
| Numbers.NonNumeralRejected | contrib/list-large-objects/git-list-large-blobs.py:142-143 | in the modelled decimal syntax, `float` raises on text holding any other character |
| Numbers.TruncateTowardZero | contrib/list-large-objects/git-list-large-blobs.py:142-143 | `int()` of a float moves it toward zero by less than one |
| Numbers.RoundHalfEven | contrib/list-large-objects/git-list-large-blobs.py:87 | the rounded value is within one half, ties go to the even neighbour, and no non-negative value rounds below 0 |
| Numbers.RoundedToTenths | contrib/list-large-objects/git-list-large-blobs.py:87 | the value `.1f` shows is within 0.05 of the value formatted |
| Numbers.FormatTenthsRoundTrip | contrib/list-large-objects/git-list-large-blobs.py:87 | what `.1f` writes, `float` reads back as the rounded value |
| Numbers.TenthsNumeralValue | contrib/list-large-objects/git-list-large-blobs.py:87 | the numeral for t tenths reads back as t / 10 |
| Numbers.ParseDecimal | contrib/list-large-objects/git-list-large-blobs.py:142-143 | `float` on a threshold in the modelled decimal syntax: `ParseDecimalOfInteger`, `ParseDecimalHasDigit`, `NumeralChars` and `FormatTenthsRoundTrip` state what it accepts and reads |
| Numbers.Truncate | contrib/list-large-objects/git-list-large-blobs.py:142-143 | `int()` of a float; `TruncateTowardZero` states that it moves toward zero by less than one |
| Numbers.FormatTenths | contrib/list-large-objects/git-list-large-blobs.py:87 | `f"{value:.1f}"`; `FormatTenthsRoundTrip` states that `float` reads it back as the value rounded to tenths, which `RoundedToTenths` puts within 0.05 |
| Text.StripShape | contrib/list-large-objects/git-list-large-blobs.py:69 | `strip()` removes whitespace at both ends and nothing else |
| Text.StripUnpadded | contrib/list-large-objects/git-list-large-blobs.py:139 | a string that neither starts nor ends with whitespace is its own strip |
| Text.Strip | contrib/list-large-objects/git-list-large-blobs.py:69 | `strip()` never lengthens a string; `StripShape` and `StripUnpadded` state what it removes |
| Text.SplitTokens | contrib/list-large-objects/git-list-large-blobs.py:69 | every token `split()` yields is non-empty and free of whitespace |
| Text.SplitOfTrimmed | contrib/list-large-objects/git-list-large-blobs.py:69 | leading whitespace does not change the tokens |
| Text.Split | contrib/list-large-objects/git-list-large-blobs.py:69 | `split()`; `SplitTokens`, `SplitOfTrimmed`, `SplitWord` and `SplitAfterWord` state its tokens |
| Text.SplitWord | contrib/list-large-objects/git-list-large-blobs.py:69 | a whitespace-free word is one token |
| Text.SplitAfterWord | contrib/list-large-objects/git-list-large-blobs.py:69 | a word, a space and more text give the word, then the text's tokens |
| Text.SplitOnce | contrib/list-large-objects/git-list-large-blobs.py:39 | `split(maxsplit=1)` gives at most two parts |
| Text.SplitOnceAgreesWithSplit | contrib/list-large-objects/git-list-large-blobs.py:39 | `split(maxsplit=1)` finds no part exactly when `split()` finds none; its first part is the first token; it has a remainder exactly when there is a second token, and the remainder's tokens are all tokens after the first |
| Text.SplitOnceShape | contrib/list-large-objects/git-list-large-blobs.py:39-41 | `split(maxsplit=1)` gives nothing exactly on a blank line; every part is non-empty, and the remainder is a tail of the line that starts with no whitespace |
| Text.Upper | contrib/list-large-objects/git-list-large-blobs.py:139 | upper-casing keeps the length and maps each character on its own |
| Text.LJust | contrib/list-large-objects/git-list-large-blobs.py:107 | `ljust` keeps the string as a prefix, pads with spaces up to the width and never truncates |
| Text.RJust | contrib/list-large-objects/git-list-large-blobs.py:107 | right-alignment keeps the string as a suffix, pads with spaces in front up to the width and never truncates |
| Text.EndsWith | contrib/list-large-objects/git-list-large-blobs.py:140 | `str.endswith`; `EndsWithMeansAppended` states what it means |
| Text.EndsWithMeansAppended | contrib/list-large-objects/git-list-large-blobs.py:140 | `s.endswith(suffix)` holds exactly when `s` is some text followed by `suffix` |

## Left out

- The subprocesses are not modelled: `subprocess.run`, `Popen`, the pipe writes, `stdin.close`, `proc.wait` and the `check=True` failure. The rev-list output arrives as its lines, already split. The `cat-file` replies arrive as a sequence of lines without their newlines, and the end of that sequence is the end of the stream. Writing every request before reading any reply can deadlock on full pipes; that is a matter of the operating system and is out of scope.
- `parse_args` and `main` are argument parsing and glue; the default threshold "5MiB" is covered by `MinSize.SuffixedNumber`.
- `print` is not modelled: `Report.PrintReport` returns the strings it would print, one per call, and each `print` adds a newline.
- Candidates.ParseRevList: requires that no line is whitespace only. On such a line the script fails with `IndexError` at `parts[0]`; the model does not describe that failure.
- SizeResolver.FillSizes: the `ValueError` that `int()` raises on a malformed size is the `raised` result, and the sizes set before it stay set, as in the script. `break` at the end of the stream is modelled as returning there.
- `BlobInfo` is a value, and `fill_sizes` stores an updated copy in the array slot. Each object is held by that one slot, so nothing can observe the difference; aliasing of `BlobInfo` objects is not modelled.
- SizeOrder.SortBySize: this is an insertion sort, not Python's sort. Both are stable and largest first, so they give the same order; the comparisons made and the running time are not modelled.
- HumanSize.HumanSize: `float(size)` is the exact size. This is right up to 2^53; above that the float rounds, and the model does not. Division by 1024 is exact in binary floating point. For a size of at least 2^1024 - 2^970 in magnitude, `float(size)` raises `OverflowError`, so `human_size` returns nothing. The model still returns a text for such a size.
- Report.PrintReport: inherits that gap. A candidate whose size is at least 2^1024 - 2^970 makes the script raise `OverflowError` while printing its row. The model returns a full report instead. Such a size can only come from a `cat-file` reply.
- Numbers.FormatTenths: `.1f` rounds the exact value half to even. Because every value shown is a size divided by a power of 1024, it is exactly the float Python holds.
- MinSize.ParseMinSize: `float` reads the number part as an exact decimal. Python rounds it to the nearest double before the multiplication, so the truncated result can differ when the numeral has more significant digits than a double holds.
- MinSize.ParseMinSize: exponents ("1E3"), "INF", "NAN" and underscores ("1_000") are errors here, though Python's `float` accepts them. For "INF" and "NAN", `int()` then raises `OverflowError` or `ValueError`. So "5E2K", which the script reads as 512000, is an error in the model.
- MinSize.ParseMinSize: overflow is decided on the exact value, against 2^1024 - 2^970. Near that limit the rounding `float` does first can decide otherwise; away from it the two agree.
- MinSize.NonNumericIsError: holds in the modelled decimal syntax only. Python's `float` also accepts "E", "INF", "NAN" and "_", so "5E2K" is not an error in the script.
- Numbers.ParseDecimal: the modelled syntax is an optional sign, digits and at most one point, with whitespace around. Exponents, "inf", "nan", underscores and non-ASCII digits, which Python's `float` accepts, are rejected. The numeral is read as an exact rational, while Python rounds it to the nearest double (`float("9007199254740993")` is 9007199254740992). `Numbers.ParseDecimalOfInteger` and `Numbers.FormatTenthsRoundTrip` rely on the exact reading. For `FormatTenthsRoundTrip` the difference matters only when a numeral has more significant digits than a double holds.
- Numbers.ParseDecimalHasDigit: holds in the modelled decimal syntax only. Python's `float` also accepts "inf" and "nan", which have no digit, and the non-ASCII decimal digits.
- MinSize.ThresholdNeedsDigit: holds in the modelled decimal syntax only. Python's `float` also reads non-ASCII decimal digits, so "５K" is 5120 in the script, though it has no ASCII digit.
- MinSize.NeedsDigitWithTable: holds in the modelled decimal syntax only, for the same reason: "５K" is 5120 in the script.
- Numbers.NumeralChars: holds in the modelled decimal syntax only. Python's `float` also accepts the letters of exponents, "inf" and "nan", underscores and non-ASCII digits.
- Numbers.NonNumeralRejected: holds in the modelled decimal syntax only. Python's `float` does not raise on "1E3", "INF" or "1_0".
- Numbers.ParseInt: underscores and non-ASCII digits, which Python's `int` accepts, are errors here.
- Numbers.ParseInt: has no length limit. From Python 3.11 (and the 3.10.7, 3.9.14, 3.8.14 and 3.7.14 security releases), `int()` raises `ValueError` on a decimal numeral of more than 4300 digits. The limit is `sys.get_int_max_str_digits()` and can be changed with `PYTHONINTMAXSTRDIGITS`, so it depends on the interpreter and its environment. The model reads such a numeral as its value.
- SizeResolver.JudgeTokens: inherits that gap. On a `blob` reply whose size has more than 4300 digits, the script raises `ValueError` at `int(obj_size)` under the default limit of those versions, while the model sets the size.
- SizeResolver.BlobReplySetsSize: holds for every n only where `int()` has no digit limit. Under the default limit of the versions above, it holds for sizes of at most 4300 digits. `git cat-file` never reports a size anywhere near that.
- Numbers.ParseDecimalOfInteger: the `int` half holds for digit strings of at most 4300 digits under the default limit of the versions above; past it, `int()` raises. The `float` half has no such limit.
- Text: whitespace is the ASCII set `str.isspace()` accepts (tab, line feed, vertical tab, form feed, carriage return, 0x1C-0x1F and space). Other Unicode whitespace is not modelled, and `upper()` changes only `a`-`z`.
- `str.splitlines()` on the rev-list output is not modelled; the lines are the input.
