/** The size resolver, `fill_sizes`: the i-th line `git cat-file
    --batch-check` answers is paired with the i-th candidate, and the
    candidate's size is set from it in place. The subprocess is not
    modelled: the reply lines arrive as a sequence, and the end of that
    sequence is the end of the stream (`readline()` returning ""). */
module SizeResolver {
  import opened Wrappers
  import opened Text
  import opened Numbers
  import opened Candidates

  /** What one reply line makes the loop do with its candidate. */
  datatype Verdict =
    | Skip            // fewer than three tokens: `continue`, size untouched
    | SetSize(n: int) // `blob.size = 0` for other kinds, `int(size)` for blobs
    | Raise           // `int(size)` raises `ValueError`

  /** The verdict on one reply line, `<oid> <kind> <size>` when well formed. */
  function Judge(reply: string): (v: Verdict)
  {
    JudgeTokens(Split(Strip(reply)))
  }

  /** The verdict on the tokens of a reply line. */
  function JudgeTokens(parts: seq<string>): (v: Verdict)
  {
    if |parts| < 3 then Skip
    else if parts[1] != "blob" then SetSize(0)
    else match ParseInt(parts[2])
      case Some(n) => SetSize(n)
      case None => Raise
  }

  /** The candidate after a verdict other than `Raise`: only its size can
      change, and it changes exactly on `SetSize`. */
  function Apply(b: BlobInfo, v: Verdict): (r: BlobInfo)
    ensures r.oid == b.oid && r.path == b.path
    ensures r.size == if v.SetSize? then v.n else b.size
  {
    if v.SetSize? then b.(size := v.n) else b
  }

  /** The verdicts on a stream of reply lines, in order. */
  function Verdicts(replies: seq<string>): (vs: seq<Verdict>)
    ensures |vs| == |replies|
  {
    if replies == [] then [] else [Judge(replies[0])] + Verdicts(replies[1..])
  }

  /** Verdict i is the verdict on reply i. */
  lemma {:induction false} VerdictAt(replies: seq<string>, i: nat)
    requires i < |replies|
    ensures Verdicts(replies)[i] == Judge(replies[i])
  {
    if i > 0 {
      VerdictAt(replies[1..], i - 1);
    }
  }

  /** How many candidates the loop updates before it stops: at the last
      candidate, at the end of the reply stream, or at the first reply whose
      size `int()` rejects, whichever comes first. */
  function Handled(verdicts: seq<Verdict>, count: nat): (k: nat)
    ensures k <= count && k <= |verdicts|
  {
    if count == 0 || verdicts == [] || verdicts[0].Raise? then 0
    else 1 + Handled(verdicts[1..], count - 1)
  }

  /** `Handled` is the first place the loop stops: no reply before it
      raises, and unless the candidates or the replies ran out there, the
      reply there raises. */
  lemma {:induction false} HandledIsFirstStop(verdicts: seq<Verdict>, count: nat)
    ensures var k := Handled(verdicts, count);
      forall i :: 0 <= i < k ==> !verdicts[i].Raise?
    ensures var k := Handled(verdicts, count);
      k < count && k < |verdicts| ==> verdicts[k].Raise?
  {
    if count != 0 && verdicts != [] && !verdicts[0].Raise? {
      HandledIsFirstStop(verdicts[1..], count - 1);
    }
  }

  /** `Handled` is the first position where the candidates or the replies
      run out or a reply raises. */
  lemma {:induction false} HandledAt(verdicts: seq<Verdict>, count: nat, k: nat)
    requires k <= count && k <= |verdicts|
    requires forall j :: 0 <= j < k ==> !verdicts[j].Raise?
    requires k == count || k == |verdicts| || verdicts[k].Raise?
    ensures Handled(verdicts, count) == k
  {
    if k > 0 {
      HandledAt(verdicts[1..], count - 1, k - 1);
    }
  }

  /** `fill_sizes` after the subprocess. Candidate i, for i below
      `Handled`, takes the verdict of reply i; every other candidate keeps
      its size. Ids and paths never change. `raised` is true exactly when
      the loop stopped at a reply whose size `int()` rejects, where the
      script raises `ValueError`. */
  method FillSizes(blobs: array<BlobInfo>, replies: seq<string>) returns (raised: bool)
    modifies blobs
    ensures var k := Handled(Verdicts(replies), blobs.Length);
      raised <==> k < blobs.Length && k < |replies|
    ensures var k := Handled(Verdicts(replies), blobs.Length);
      forall i :: 0 <= i < blobs.Length ==>
        blobs[i] == if i < k then Apply(old(blobs[i]), Verdicts(replies)[i]) else old(blobs[i])
    ensures forall i :: 0 <= i < blobs.Length ==>
      blobs[i].oid == old(blobs[i].oid) && blobs[i].path == old(blobs[i].path)
  {
    ghost var verdicts := Verdicts(replies);
    if blobs.Length == 0 {
      HandledAt(verdicts, 0, 0);
      return false;
    }
    for i := 0 to blobs.Length
      invariant i <= |replies|
      invariant forall j :: 0 <= j < i ==> !verdicts[j].Raise?
      invariant forall j :: 0 <= j < i ==> blobs[j] == Apply(old(blobs[j]), verdicts[j])
      invariant forall j :: i <= j < blobs.Length ==> blobs[j] == old(blobs[j])
    {
      if i == |replies| {
        // `readline()` returned "": the loop breaks and the function ends.
        HandledAt(verdicts, blobs.Length, i);
        return false;
      }
      var verdict := ReadVerdict(replies, i);
      match verdict {
        case Skip =>
          continue;
        case SetSize(n) =>
          blobs[i] := blobs[i].(size := n);
        case Raise =>
          HandledAt(verdicts, blobs.Length, i);
          return true;
      }
    }
    HandledAt(verdicts, blobs.Length, blobs.Length);
    return false;
  }

  /** Reads reply `i` and judges it: the verdict of that reply in the
      stream. */
  method ReadVerdict(replies: seq<string>, i: nat) returns (v: Verdict)
    requires i < |replies|
    ensures v == Verdicts(replies)[i]
  {
    VerdictAt(replies, i);
    v := Judge(replies[i]);
  }

  /** The line git prints for a blob, `<oid> blob <size>`, sets exactly
      that size. */
  lemma BlobReplySetsSize(b: BlobInfo, oid: string, size: nat)
    requires oid != [] && NoSpace(oid)
    ensures Apply(b, Judge(oid + " blob " + NatToString(size))) == b.(size := size)
  {
    var digits := NatToString(size);
    var reply := oid + " blob " + digits;
    assert reply == oid + " " + "blob" + " " + digits;
    KnownReplyTokens(oid, "blob", digits);
    ParseDecimalOfInteger(digits);
    assert Judge(reply) == JudgeTokens([oid, "blob", digits]);
  }

  /** The line git prints for a tree, commit or tag, `<oid> <kind> <size>`,
      sets the size to 0 whatever size it states. */
  lemma OtherKindReplyZeroes(b: BlobInfo, oid: string, kind: string, size: nat)
    requires oid != [] && NoSpace(oid) && kind != [] && NoSpace(kind) && kind != "blob"
    ensures Apply(b, Judge(oid + " " + kind + " " + NatToString(size))) == b.(size := 0)
  {
    KnownReplyTokens(oid, kind, NatToString(size));
  }

  /** The line git prints for an object it cannot find, `<oid> missing`,
      and a blank line leave the candidate as it is. */
  lemma MissingReplySkipped(b: BlobInfo, oid: string)
    requires oid != [] && NoSpace(oid)
    ensures Apply(b, Judge(oid + " missing")) == b
    ensures Apply(b, Judge("")) == b
  {
    var reply := oid + " missing";
    assert reply == oid + " " + "missing";
    TwoReplyTokens(oid, "missing");
    assert Judge(reply) == JudgeTokens([oid, "missing"]);
    BlankReplySkipped(b);
  }

  /** A blank reply line leaves the candidate as it is. */
  lemma BlankReplySkipped(b: BlobInfo)
    ensures Apply(b, Judge("")) == b
  {
    assert Strip("") == [];
    assert Split([]) == [];
  }

  /** A two-token reply line splits into its two tokens. */
  lemma TwoReplyTokens(oid: string, word: string)
    requires oid != [] && NoSpace(oid) && word != [] && NoSpace(word)
    ensures Split(Strip(oid + " " + word)) == [oid, word]
  {
    var reply := oid + " " + word;
    assert reply[0] == oid[0] && reply[|reply| - 1] == word[|word| - 1];
    StripUnpadded(reply);
    TwoWords(oid, word);
  }

  /** Two words and a space between them split into the two words. */
  lemma TwoWords(a: string, b: string)
    requires a != [] && NoSpace(a) && b != [] && NoSpace(b)
    ensures Split(a + " " + b) == [a, b]
  {
    SplitAfterWord(a, b);
    SplitWord(b);
  }

  /** A three-token reply line splits into its three tokens. */
  lemma KnownReplyTokens(oid: string, kind: string, size: string)
    requires oid != [] && NoSpace(oid) && kind != [] && NoSpace(kind)
    requires size != [] && NoSpace(size)
    ensures Split(Strip(oid + " " + kind + " " + size)) == [oid, kind, size]
  {
    var rest := kind + " " + size;
    var reply := oid + " " + rest;
    assert oid + " " + kind + " " + size == reply;
    assert reply[0] == oid[0] && reply[|reply| - 1] == size[|size| - 1];
    StripUnpadded(reply);
    SplitAfterWord(oid, rest);
    TwoWords(kind, size);
  }
}
