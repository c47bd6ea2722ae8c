/** The pieces of Python's `str` behaviour the script relies on: whitespace,
    `strip`, `upper`, `split`, `split(maxsplit=1)`, `endswith`, `ljust` and
    right-justification in a format field. Strings are `seq<char>`. */
module Text {

  /** The ASCII characters for which Python's `str.isspace()` holds:
      tab, line feed, vertical tab, form feed, carriage return (9..13),
      the four information separators (28..31) and the space (32). */
  predicate IsSpace(c: char) {
    var n := c as int;
    (9 <= n <= 13) || (28 <= n <= 32)
  }

  predicate AllSpace(s: string) {
    forall i :: 0 <= i < |s| ==> IsSpace(s[i])
  }

  predicate NoSpace(s: string) {
    forall i :: 0 <= i < |s| ==> !IsSpace(s[i])
  }

  /** The number of whitespace characters `s` starts with. */
  function LeadingSpace(s: string): (n: nat)
    ensures n <= |s|
    ensures n < |s| ==> !IsSpace(s[n])
  {
    if s != [] && IsSpace(s[0]) then 1 + LeadingSpace(s[1..]) else 0
  }

  /** The number of whitespace characters `s` ends with. */
  function TrailingSpace(s: string): (n: nat)
    ensures n <= |s|
    ensures n < |s| ==> !IsSpace(s[|s| - 1 - n])
  {
    if s != [] && IsSpace(s[|s| - 1]) then 1 + TrailingSpace(s[..|s| - 1]) else 0
  }

  /** What `LeadingSpace` counts is all whitespace. */
  lemma {:induction false} LeadingSpaceIsSpace(s: string)
    ensures AllSpace(s[..LeadingSpace(s)])
  {
    if s != [] && IsSpace(s[0]) {
      LeadingSpaceIsSpace(s[1..]);
      assert s[..LeadingSpace(s)] == [s[0]] + s[1..][..LeadingSpace(s[1..])];
    }
  }

  /** What `TrailingSpace` counts is all whitespace. */
  lemma {:induction false} TrailingSpaceIsSpace(s: string)
    ensures AllSpace(s[|s| - TrailingSpace(s)..])
  {
    if s != [] && IsSpace(s[|s| - 1]) {
      var init := s[..|s| - 1];
      var n := TrailingSpace(init);
      TrailingSpaceIsSpace(init);
      var tail := s[|s| - (n + 1)..];
      forall i | 0 <= i < |tail|
        ensures IsSpace(tail[i])
      {
        if i < n {
          assert tail[i] == init[|init| - n..][i];
        }
      }
    }
  }

  /** `s.lstrip()`: `s` without the whitespace it starts with. */
  function TrimLeft(s: string): (r: string)
  {
    s[LeadingSpace(s)..]
  }

  /** `s.rstrip()`: `s` without the whitespace it ends with. */
  function TrimRight(s: string): (r: string)
  {
    s[..|s| - TrailingSpace(s)]
  }

  /** `s.strip()`. */
  function Strip(s: string): (r: string)
    ensures |r| <= |s|
  {
    TrimRight(TrimLeft(s))
  }

  /** Left-stripping empties exactly the strings made only of whitespace. */
  lemma TrimLeftEmpty(s: string)
    ensures TrimLeft(s) == [] <==> AllSpace(s)
  {
    LeadingSpaceIsSpace(s);
    if LeadingSpace(s) == |s| {
      assert s[..|s|] == s;
    }
  }

  /** Stripping removes whitespace at both ends and nothing else: the result is
      the slice of the input that starts after its leading whitespace, it
      neither starts nor ends with whitespace, and everything cut away is
      whitespace. */
  lemma StripShape(s: string)
    ensures var k := LeadingSpace(s); var r := Strip(s);
      k + |r| <= |s| && r == s[k..k + |r|] &&
      AllSpace(s[..k]) && AllSpace(s[k + |r|..])
    ensures var r := Strip(s); r == [] || (!IsSpace(r[0]) && !IsSpace(r[|r| - 1]))
  {
    StripSlice(s);
    StripCuts(s);
    StripEnds(s);
  }

  /** The strip is the slice after the leading whitespace. */
  lemma StripSlice(s: string)
    ensures LeadingSpace(s) + |Strip(s)| <= |s|
    ensures Strip(s) == s[LeadingSpace(s)..LeadingSpace(s) + |Strip(s)|]
  {
    var k := LeadingSpace(s);
    var t := s[k..];
    var n := |t| - TrailingSpace(t);
    assert Strip(s) == t[..n];
    assert t[..n] == s[k..k + n];
  }

  /** What the strip cuts away at either end is whitespace. */
  lemma StripCuts(s: string)
    ensures LeadingSpace(s) + |Strip(s)| <= |s|
    ensures AllSpace(s[..LeadingSpace(s)])
    ensures AllSpace(s[LeadingSpace(s) + |Strip(s)|..])
  {
    var k := LeadingSpace(s);
    var t := s[k..];
    var m := TrailingSpace(t);
    assert Strip(s) == t[..|t| - m];
    LeadingSpaceIsSpace(s);
    TrailingSpaceIsSpace(t);
    var cut := s[k + (|t| - m)..];
    forall i | 0 <= i < |cut|
      ensures IsSpace(cut[i])
    {
      assert cut[i] == t[|t| - m..][i];
    }
  }

  /** The strip neither starts nor ends with whitespace. */
  lemma StripEnds(s: string)
    ensures var r := Strip(s); r == [] || (!IsSpace(r[0]) && !IsSpace(r[|r| - 1]))
  {
    var k := LeadingSpace(s);
    var t := s[k..];
    var r := Strip(s);
    if r != [] {
      assert r[0] == t[0];
    }
  }

  /** A string that neither starts nor ends with whitespace is its own strip. */
  lemma StripUnpadded(s: string)
    requires s == [] || (!IsSpace(s[0]) && !IsSpace(s[|s| - 1]))
    ensures Strip(s) == s
  {
    assert LeadingSpace(s) == 0;
    assert s[0..] == s;
    assert TrailingSpace(s) == 0;
  }

  function UpperChar(c: char): (u: char)
  {
    if 'a' <= c <= 'z' then (c as int - 'a' as int + 'A' as int) as char else c
  }

  /** `s.upper()` on ASCII letters. */
  function Upper(s: string): (r: string)
    ensures |r| == |s|
    ensures forall i :: 0 <= i < |s| ==> r[i] == UpperChar(s[i])
  {
    seq(|s|, i requires 0 <= i < |s| => UpperChar(s[i]))
  }

  /** The length of the run of non-whitespace characters that `s` starts with. */
  function WordLength(s: string): (n: nat)
    ensures n <= |s|
  {
    if s == [] || IsSpace(s[0]) then 0 else 1 + WordLength(s[1..])
  }

  /** The run `WordLength` measures is whitespace-free and maximal. */
  lemma {:induction false} WordLengthShape(s: string)
    ensures NoSpace(s[..WordLength(s)])
    ensures WordLength(s) == |s| || IsSpace(s[WordLength(s)])
  {
    if s != [] && !IsSpace(s[0]) {
      WordLengthShape(s[1..]);
      assert s[..WordLength(s)] == [s[0]] + s[1..][..WordLength(s[1..])];
    }
  }

  /** A whitespace-free string is one run. */
  lemma {:induction false} WordLengthOfWord(w: string, rest: string)
    requires NoSpace(w)
    requires rest == [] || IsSpace(rest[0])
    ensures WordLength(w + rest) == |w|
  {
    if w != [] {
      assert (w + rest)[0] == w[0];
      assert (w + rest)[1..] == w[1..] + rest;
      WordLengthOfWord(w[1..], rest);
    } else {
      assert w + rest == rest;
    }
  }

  /** `s.split()` with no separator: the maximal runs of non-whitespace
      characters, in order. */
  function Split(s: string): (parts: seq<string>)
    decreases |s|
  {
    var k := LeadingSpace(s);
    if k == |s| then []
    else
      var n := WordLength(s[k..]);
      [s[k..k + n]] + Split(s[k + n..])
  }

  /** Every token `split()` yields is non-empty and whitespace-free. */
  lemma {:induction false} SplitTokens(s: string)
    ensures forall i :: 0 <= i < |Split(s)| ==> Split(s)[i] != [] && NoSpace(Split(s)[i])
    decreases |s|
  {
    var k := LeadingSpace(s);
    if k < |s| {
      var n := WordLength(s[k..]);
      WordLengthShape(s[k..]);
      assert s[k..k + n] == s[k..][..n];
      SplitTokens(s[k + n..]);
    }
  }

  /** `s.split(maxsplit=1)`: the first token, and the rest of the string after
      the whitespace that follows it, when that rest is not empty. */
  function SplitOnce(s: string): (parts: seq<string>)
    ensures |parts| <= 2
  {
    var k := LeadingSpace(s);
    if k == |s| then []
    else
      var n := WordLength(s[k..]);
      var rest := TrimLeft(s[k + n..]);
      if rest == [] then [s[k..k + n]] else [s[k..k + n], rest]
  }

  /** Leading whitespace does not change the tokens. */
  lemma SplitOfTrimmed(s: string)
    ensures Split(TrimLeft(s)) == Split(s)
  {
    var k := LeadingSpace(s);
    var t := s[k..];
    assert LeadingSpace(t) == 0;
    if k < |s| {
      assert t[0..] == t;
      SplitUnfold(s, k, t);
      SplitUnfold(t, 0, t);
    }
  }

  /** `Split` on a string with a token, given what follows its leading
      whitespace: the first token, then the tokens after it. */
  lemma SplitUnfold(s: string, k: nat, u: string)
    requires k == LeadingSpace(s) < |s| && u == s[k..]
    ensures Split(s) == [u[..WordLength(u)]] + Split(u[WordLength(u)..])
  {
    var n := WordLength(u);
    assert u[..n] == s[k..k + n];
    assert u[n..] == s[k + n..];
    SplitAt(s, k, n);
  }

  /** One unfolding of `Split`, with the cut points named. */
  lemma SplitAt(s: string, k: nat, n: nat)
    requires k == LeadingSpace(s) < |s| && n == WordLength(s[k..])
    ensures Split(s) == [s[k..k + n]] + Split(s[k + n..])
  {
  }

  /** A string without whitespace is one token. */
  lemma SplitWord(w: string)
    requires w != [] && NoSpace(w)
    ensures Split(w) == [w]
  {
    assert LeadingSpace(w) == 0;
    WordLengthOfWord(w, []);
    assert w + [] == w;
    assert w[0..|w|] == w;
    assert w[|w|..] == [];
  }

  /** A token, a space and more text: the token, then the text's tokens. */
  lemma SplitAfterWord(w: string, rest: string)
    requires w != [] && NoSpace(w)
    ensures Split(w + " " + rest) == [w] + Split(rest)
  {
    var s := w + " " + rest;
    assert s == w + (" " + rest);
    assert s[0] == w[0];
    assert LeadingSpace(s) == 0;
    WordLengthOfWord(w, " " + rest);
    assert s[0..] == s;
    assert s[0..|w|] == w;
    assert s[|w|..] == " " + rest;
    var tail := " " + rest;
    assert LeadingSpace(tail) == 1 + LeadingSpace(rest);
    assert TrimLeft(tail) == TrimLeft(rest);
    SplitOfTrimmed(tail);
    SplitOfTrimmed(rest);
  }

  /** `split(maxsplit=1)` agrees with `split()`: both find no token on the same
      lines; the first token is the same; there is a remainder exactly when
      there is a second token, and the remainder's tokens are all the tokens
      after the first. */
  lemma SplitOnceAgreesWithSplit(s: string)
    ensures SplitOnce(s) == [] <==> Split(s) == []
    ensures SplitOnce(s) != [] ==> SplitOnce(s)[0] == Split(s)[0]
    ensures |SplitOnce(s)| == 2 <==> |Split(s)| >= 2
    ensures |SplitOnce(s)| == 2 ==> Split(SplitOnce(s)[1]) == Split(s)[1..]
  {
    var k := LeadingSpace(s);
    if k < |s| {
      var n := WordLength(s[k..]);
      var after := s[k + n..];
      SplitOfTrimmed(after);
      SplitAt(s, k, n);
      assert Split(s)[1..] == Split(after);
      assert TrimLeft(after) == [] <==> LeadingSpace(after) == |after|;
    }
    if |SplitOnce(s)| == 2 {
      SplitOnceRest(s);
    }
  }

  /** The remainder of `split(maxsplit=1)` has the tokens after the first. */
  lemma SplitOnceRest(s: string)
    requires |SplitOnce(s)| == 2
    ensures Split(SplitOnce(s)[1]) == Split(s)[1..]
  {
    var k := LeadingSpace(s);
    var n := WordLength(s[k..]);
    var after := s[k + n..];
    SplitAt(s, k, n);
    SplitOfTrimmed(after);
    DropFirst(s[k..k + n], Split(after));
    SplitOnceRemainder(s, k, n);
  }

  /** The remainder `split(maxsplit=1)` yields is the text after the first
      token, left-stripped. */
  lemma SplitOnceRemainder(s: string, k: nat, n: nat)
    requires k == LeadingSpace(s) < |s| && n == WordLength(s[k..])
    ensures |SplitOnce(s)| == 2 <==> TrimLeft(s[k + n..]) != []
    ensures |SplitOnce(s)| == 2 ==> SplitOnce(s)[1] == TrimLeft(s[k + n..])
  {
  }

  /** Dropping the first element of `[x] + ys` leaves `ys`. */
  lemma DropFirst(x: string, ys: seq<string>)
    ensures ([x] + ys)[1..] == ys
  {
  }

  /** What `split(maxsplit=1)` yields: no part on a blank line, otherwise a
      non-empty first token and, when present, a remainder that starts with
      no whitespace and is a tail of the string. */
  lemma SplitOnceShape(s: string)
    ensures SplitOnce(s) == [] <==> AllSpace(s)
    ensures forall i :: 0 <= i < |SplitOnce(s)| ==> SplitOnce(s)[i] != []
    ensures |SplitOnce(s)| == 2 ==>
      !IsSpace(SplitOnce(s)[1][0]) && EndsWith(s, SplitOnce(s)[1])
  {
    TrimLeftEmpty(s);
    var k := LeadingSpace(s);
    if k < |s| {
      var n := WordLength(s[k..]);
      assert n >= 1;
      var after := s[k + n..];
      var rest := TrimLeft(after);
      assert rest == s[|s| - |rest|..];
    }
  }

  /** A concatenation splits back into its parts. */
  lemma ConcatParts(a: string, b: string)
    ensures (a + b)[..|a|] == a && (a + b)[|a|..] == b
  {
  }

  /** `s.endswith(suffix)`. */
  predicate EndsWith(s: string, suffix: string) {
    |suffix| <= |s| && s[|s| - |suffix|..] == suffix
  }

  /** `s` ends with `suffix` exactly when it is some text followed by
      `suffix`. */
  lemma EndsWithMeansAppended(s: string, suffix: string)
    ensures EndsWith(s, suffix) <==> |suffix| <= |s| && s == s[..|s| - |suffix|] + suffix
  {
    if |suffix| <= |s| {
      var k := |s| - |suffix|;
      ConcatParts(s[..k], suffix);
      assert s[..k] + s[k..] == s;
    }
  }

  function Spaces(n: nat): (r: string)
    ensures |r| == n && AllSpace(r)
  {
    seq(n, _ => ' ')
  }

  /** `s.ljust(width)`: pads on the right with spaces, never truncates. */
  function LJust(s: string, width: nat): (r: string)
    ensures |r| == if |s| < width then width else |s|
    ensures r[..|s|] == s
    ensures forall i :: |s| <= i < |r| ==> r[i] == ' '
  {
    if |s| < width then s + Spaces(width - |s|) else s
  }

  /** The format field `{s:>width}`: pads on the left with spaces, never
      truncates. */
  function RJust(s: string, width: nat): (r: string)
    ensures |r| == if |s| < width then width else |s|
    ensures r[|r| - |s|..] == s
    ensures forall i :: 0 <= i < |r| - |s| ==> r[i] == ' '
  {
    if |s| < width then Spaces(width - |s|) + s else s
  }
}
