/** The order of the report: `blobs.sort(key=lambda b: b.size,
    reverse=True)`, largest first. Python's sort is stable, and stays
    stable with `reverse=True`: candidates of equal size keep the order they
    had. */
module SizeOrder {
  import opened Candidates

  /** Non-increasing in size. */
  predicate Descending(s: seq<BlobInfo>) {
    forall i, j :: 0 <= i < j < |s| ==> s[i].size >= s[j].size
  }

  /** `x` placed after every leading candidate at least as large: where a
      stable descending sort puts a candidate that comes after all of `t`. */
  function InsertBySize(x: BlobInfo, t: seq<BlobInfo>): (r: seq<BlobInfo>)
  {
    if t == [] then [x]
    else if t[0].size >= x.size then [t[0]] + InsertBySize(x, t[1..])
    else [x] + t
  }

  /** The list after the stable descending sort, built one candidate at a
      time in the original order. */
  function SortedBySize(s: seq<BlobInfo>): (r: seq<BlobInfo>)
  {
    if s == [] then []
    else InsertBySize(s[|s| - 1], SortedBySize(s[..|s| - 1]))
  }

  /** The candidates of size `v`, in order. */
  function WithSize(s: seq<BlobInfo>, v: int): (r: seq<BlobInfo>)
  {
    if s == [] then []
    else if s[0].size == v then [s[0]] + WithSize(s[1..], v)
    else WithSize(s[1..], v)
  }

  /** Inserting adds `x` and loses nothing. */
  lemma {:induction false} InsertPermutes(x: BlobInfo, t: seq<BlobInfo>)
    ensures multiset(InsertBySize(x, t)) == multiset(t) + multiset{x}
  {
    if t != [] && t[0].size >= x.size {
      InsertPermutes(x, t[1..]);
      assert t == [t[0]] + t[1..];
    }
  }

  /** The sort is a permutation: the same candidates, as often as before. */
  lemma {:induction false} SortedPermutes(s: seq<BlobInfo>)
    ensures multiset(SortedBySize(s)) == multiset(s)
  {
    if s != [] {
      var init := s[..|s| - 1];
      SortedPermutes(init);
      InsertPermutes(s[|s| - 1], SortedBySize(init));
      assert s == init + [s[|s| - 1]];
    }
  }

  /** Inserting into a descending list keeps it descending. */
  lemma {:induction false} InsertKeepsDescending(x: BlobInfo, t: seq<BlobInfo>)
    requires Descending(t)
    ensures Descending(InsertBySize(x, t))
  {
    if t != [] && t[0].size >= x.size {
      var rest := InsertBySize(x, t[1..]);
      InsertKeepsDescending(x, t[1..]);
      InsertPermutes(x, t[1..]);
      forall k | 0 <= k < |rest|
        ensures t[0].size >= rest[k].size
      {
        assert rest[k] in multiset(rest);
        if rest[k] != x {
          assert rest[k] in multiset(t[1..]);
          var m :| 0 <= m < |t[1..]| && t[1..][m] == rest[k];
          assert t[m + 1] == rest[k];
        }
      }
    }
  }

  /** The sort leaves the list non-increasing in size. */
  lemma {:induction false} SortedDescending(s: seq<BlobInfo>)
    ensures Descending(SortedBySize(s))
  {
    if s != [] {
      SortedDescending(s[..|s| - 1]);
      InsertKeepsDescending(s[|s| - 1], SortedBySize(s[..|s| - 1]));
    }
  }

  /** Taking the candidates of one size commutes with concatenation. */
  lemma {:induction false} WithSizeAppend(a: seq<BlobInfo>, b: seq<BlobInfo>, v: int)
    ensures WithSize(a + b, v) == WithSize(a, v) + WithSize(b, v)
  {
    if a == [] {
      assert a + b == b;
    } else {
      WithSizeAppend(a[1..], b, v);
      assert (a + b)[1..] == a[1..] + b;
    }
  }

  /** A descending list whose head is smaller than `v` holds nothing of
      size `v`. */
  lemma {:induction false} NoneOfSize(t: seq<BlobInfo>, v: int)
    requires Descending(t)
    requires forall k :: 0 <= k < |t| ==> t[k].size < v
    ensures WithSize(t, v) == []
  {
    if t != [] {
      NoneOfSize(t[1..], v);
    }
  }

  /** Inserting `x` puts it after every candidate of its size already in
      the list. */
  lemma {:induction false} InsertStable(x: BlobInfo, t: seq<BlobInfo>, v: int)
    requires Descending(t)
    ensures WithSize(InsertBySize(x, t), v) == WithSize(t, v) + (if x.size == v then [x] else [])
  {
    var tail := if x.size == v then [x] else [];
    if t == [] {
      assert WithSize([x], v) == tail + WithSize([], v);
    } else if t[0].size >= x.size {
      InsertStable(x, t[1..], v);
      var r := InsertBySize(x, t);
      assert r[0] == t[0] && r[1..] == InsertBySize(x, t[1..]);
      if t[0].size == v {
        assert WithSize(r, v) == [t[0]] + (WithSize(t[1..], v) + tail);
      }
    } else {
      var r := InsertBySize(x, t);
      assert r[0] == x && r[1..] == t;
      if x.size == v {
        NoneOfSize(t, v);
      }
    }
  }

  /** The sort is stable: the candidates of each size come out in the
      order they went in. */
  lemma {:induction false} SortedStable(s: seq<BlobInfo>, v: int)
    ensures WithSize(SortedBySize(s), v) == WithSize(s, v)
  {
    if s != [] {
      var init := s[..|s| - 1];
      var last := s[|s| - 1];
      SortedStable(init, v);
      SortedDescending(init);
      InsertStable(last, SortedBySize(init), v);
      assert s == init + [last];
      WithSizeAppend(init, [last], v);
      assert WithSize([last], v) == if last.size == v then [last] else [];
    }
  }

  /** Where the insertion lands: after the first `j` candidates, the ones
      at least as large as `x`. */
  lemma {:induction false} InsertAt(x: BlobInfo, t: seq<BlobInfo>, j: nat)
    requires j <= |t|
    requires forall k :: 0 <= k < j ==> t[k].size >= x.size
    requires forall k :: j <= k < |t| ==> t[k].size < x.size
    ensures InsertBySize(x, t) == t[..j] + [x] + t[j..]
  {
    if j == 0 {
      InsertAtFront(x, t);
    } else {
      InsertAt(x, t[1..], j - 1);
      ShiftSplit(t, j);
    }
  }

  /** A candidate larger than every one of `t` goes first. */
  lemma InsertAtFront(x: BlobInfo, t: seq<BlobInfo>)
    requires forall k :: 0 <= k < |t| ==> t[k].size < x.size
    ensures InsertBySize(x, t) == t[..0] + [x] + t[0..]
  {
    assert t[..0] == [] && t[0..] == t;
  }

  /** Cutting `t` at `j` is cutting its tail at `j - 1`. */
  lemma ShiftSplit(t: seq<BlobInfo>, j: nat)
    requires 0 < j <= |t|
    ensures t[..j] == [t[0]] + t[1..][..j - 1] && t[j..] == t[1..][j - 1..]
  {
  }

  /** `blobs.sort(key=lambda b: b.size, reverse=True)`: a stable insertion
      sort in place, largest first. */
  method SortBySize(a: array<BlobInfo>)
    modifies a
    ensures a[..] == SortedBySize(old(a[..]))
  {
    ghost var s := a[..];
    for i := 0 to a.Length
      invariant a[..i] == SortedBySize(s[..i])
      invariant a[i..] == s[i..]
    {
      SortedDescending(s[..i]);
      assert a[i] == s[i];
      InsertLast(a, i);
      assert a[i + 1..] == s[i + 1..];
      assert s[..i + 1][..i] == s[..i];
      assert s[..i + 1][i] == s[i];
    }
    assert s[..a.Length] == s;
  }

  /** One pass of the insertion sort: `a[i]` moves left past the smaller
      candidates before it, into the descending prefix `a[..i]`. */
  method InsertLast(a: array<BlobInfo>, i: nat)
    requires i < a.Length && Descending(a[..i])
    modifies a
    ensures a[..i + 1] == InsertBySize(old(a[i]), old(a[..i]))
    ensures forall k :: i < k < a.Length ==> a[k] == old(a[k])
  {
    var x := a[i];
    ghost var t := a[..i];
    var j := i;
    while j > 0 && a[j - 1].size < x.size
      invariant 0 <= j <= i
      invariant forall k :: 0 <= k < j ==> a[k] == old(a[k])
      invariant forall k :: j < k <= i ==> a[k] == old(a[k - 1])
      invariant forall k :: j <= k < i ==> old(a[k]).size < x.size
      invariant forall k :: i < k < a.Length ==> a[k] == old(a[k])
    {
      a[j] := a[j - 1];
      j := j - 1;
    }
    a[j] := x;
    InsertAtIndex(x, t, j);
    forall k | 0 <= k <= i
      ensures a[k] == InsertBySize(x, t)[k]
    {
    }
  }

  /** `InsertAt` position by position. */
  lemma InsertAtIndex(x: BlobInfo, t: seq<BlobInfo>, j: nat)
    requires Descending(t) && j <= |t|
    requires j == 0 || t[j - 1].size >= x.size
    requires forall k :: j <= k < |t| ==> t[k].size < x.size
    ensures |InsertBySize(x, t)| == |t| + 1
    ensures forall k :: 0 <= k < j ==> InsertBySize(x, t)[k] == t[k]
    ensures InsertBySize(x, t)[j] == x
    ensures forall k :: j < k <= |t| ==> InsertBySize(x, t)[k] == t[k - 1]
  {
    assert forall k :: 0 <= k < j ==> t[k].size >= t[j - 1].size >= x.size;
    InsertAt(x, t, j);
    var r := InsertBySize(x, t);
    forall k | j < k <= |t|
      ensures r[k] == t[k - 1]
    {
      assert r[k] == t[j..][k - j - 1];
    }
  }
}
