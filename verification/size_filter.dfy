/** The threshold filter, `filter_large_blobs`: the candidates whose size is
    at least the minimum, in the order they came in. */
module SizeFilter {
  import opened Candidates
  import opened Sequences

  /** `[blob for blob in blobs if blob.size >= min_size]`. */
  function FilterLargeBlobs(blobs: seq<BlobInfo>, minSize: int): (r: seq<BlobInfo>)
    ensures |r| <= |blobs|
  {
    if blobs == [] then []
    else (if blobs[0].size >= minSize then [blobs[0]] else []) + FilterLargeBlobs(blobs[1..], minSize)
  }

  /** Every candidate of at least `minSize` bytes is kept as often as it
      occurs, and no other candidate is. */
  lemma {:induction false} FilterKeepsExactly(blobs: seq<BlobInfo>, minSize: int)
    ensures forall b ::
      multiset(FilterLargeBlobs(blobs, minSize))[b] == if b.size >= minSize then multiset(blobs)[b] else 0
  {
    if blobs != [] {
      FilterKeepsExactly(blobs[1..], minSize);
      assert blobs == [blobs[0]] + blobs[1..];
    }
  }

  /** Every candidate kept meets the threshold. */
  lemma KeptMeetThreshold(blobs: seq<BlobInfo>, minSize: int)
    ensures forall i :: 0 <= i < |FilterLargeBlobs(blobs, minSize)| ==>
      FilterLargeBlobs(blobs, minSize)[i].size >= minSize
  {
    var r := FilterLargeBlobs(blobs, minSize);
    FilterKeepsExactly(blobs, minSize);
    forall i | 0 <= i < |r|
      ensures r[i].size >= minSize
    {
      assert multiset(r)[r[i]] > 0;
    }
  }

  /** The kept candidates appear in the order they had. */
  lemma {:induction false} FilterInOrder(blobs: seq<BlobInfo>, minSize: int)
    ensures IsSubsequence(FilterLargeBlobs(blobs, minSize), blobs)
  {
    if blobs != [] {
      FilterInOrder(blobs[1..], minSize);
      var rest := FilterLargeBlobs(blobs[1..], minSize);
      if blobs[0].size >= minSize {
        assert ([blobs[0]] + rest)[1..] == rest;
      } else {
        assert [] + rest == rest;
        SubsequenceOfLonger(rest, blobs);
      }
    }
  }

  /** Raising the threshold keeps a subsequence of what a lower threshold
      keeps. */
  lemma {:induction false} FilterMonotone(blobs: seq<BlobInfo>, low: int, high: int)
    requires low <= high
    ensures IsSubsequence(FilterLargeBlobs(blobs, high), FilterLargeBlobs(blobs, low))
  {
    if blobs != [] {
      FilterMonotone(blobs[1..], low, high);
      var x := blobs[0];
      var restLow := FilterLargeBlobs(blobs[1..], low);
      var restHigh := FilterLargeBlobs(blobs[1..], high);
      if x.size >= high {
        assert ([x] + restHigh)[1..] == restHigh;
        assert ([x] + restLow)[1..] == restLow;
      } else if x.size >= low {
        assert [] + restHigh == restHigh;
        assert ([x] + restLow)[1..] == restLow;
        SubsequenceOfLonger(restHigh, [x] + restLow);
      } else {
        assert [] + restHigh == restHigh;
        assert [] + restLow == restLow;
      }
    }
  }

  /** Filtering twice is filtering once with the higher threshold; in
      particular filtering again with the same threshold changes nothing. */
  lemma {:induction false} FilterTwice(blobs: seq<BlobInfo>, first: int, second: int)
    ensures FilterLargeBlobs(FilterLargeBlobs(blobs, first), second) ==
      FilterLargeBlobs(blobs, if first < second then second else first)
  {
    if blobs != [] {
      FilterTwice(blobs[1..], first, second);
      var x := blobs[0];
      var once := FilterLargeBlobs(blobs[1..], first);
      if x.size >= first {
        assert ([x] + once)[1..] == once;
        assert FilterLargeBlobs([x] + once, second) ==
          (if x.size >= second then [x] else []) + FilterLargeBlobs(once, second);
      } else {
        var top := if first < second then second else first;
        assert [] + once == once;
        assert [] + FilterLargeBlobs(blobs[1..], top) == FilterLargeBlobs(blobs[1..], top);
      }
    }
  }
}
