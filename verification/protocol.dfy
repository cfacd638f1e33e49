/**
  The wire protocol shared by the assistant server and its client: the marker
  literals, the substring test both sides use to find them, the client's
  request framing, and the shape of what one `recv` call can return.
 */
module Protocol {

  /** Reserved server-initiated timeout signal; defined but never sent. */
  const Timeout: string := "<TMT>"
  /** Sent instead of `Ready` when the inference slot is taken. */
  const Busy: string := "<BSY>"
  /** Ends a request; also the tail of every completed answer. */
  const RequestEnd: string := "<END>"
  /** Sent once the slot has been granted to a connection. */
  const Ready: string := "<OK_>"
  /** What the server writes after the last token of a completed answer. */
  const ResponseEnd: string := "\n" + RequestEnd

  /** `pat` occurs in `text` starting at index `i`. */
  predicate MatchAt(text: string, pat: string, i: int)
  {
    0 <= i && i + |pat| <= |text| && text[i..i + |pat|] == pat
  }

  /** Python's `pat in text`. */
  predicate Contains(text: string, pat: string)
  {
    exists i | 0 <= i <= |text| - |pat| :: MatchAt(text, pat, i)
  }

  /** The request the client sends for the user's input: the input followed by
      the request terminator. */
  function Frame(input: string): (r: string)
    ensures |r| == |input| + |RequestEnd|
    ensures r[..|input|] == input && r[|input|..] == RequestEnd
    ensures Contains(r, RequestEnd)
  {
    var r := input + RequestEnd;
    assert MatchAt(r, RequestEnd, |input|);
    r
  }

  /** What one `recv` call yields: some text (the empty text means the peer
      has closed its side), or an exception. */
  datatype Incoming = Chunk(text: string) | Fault

  function TextOf(x: Incoming): string
  {
    if x.Chunk? then x.text else ""
  }

  /** A read that delivered at least one character. */
  predicate IsData(x: Incoming)
  {
    x.Chunk? && x.text != ""
  }

  /** The text of a run of chunks, in order. */
  function Joined(chunks: seq<Incoming>): string
  {
    if chunks == [] then "" else TextOf(chunks[0]) + Joined(chunks[1..])
  }

  lemma {:induction false} JoinedAppend(a: seq<Incoming>, b: seq<Incoming>)
    ensures Joined(a + b) == Joined(a) + Joined(b)
    decreases |a|
  {
    if a == [] {
      assert a + b == b;
    } else {
      assert (a + b)[1..] == a[1..] + b;
      JoinedAppend(a[1..], b);
    }
  }

  /** Splitting a run of reads at any point splits its text at the same point. */
  lemma JoinedSplit(chunks: seq<Incoming>, k: nat)
    requires k <= |chunks|
    ensures Joined(chunks) == Joined(chunks[..k]) + Joined(chunks[k..])
  {
    assert chunks == chunks[..k] + chunks[k..];
    JoinedAppend(chunks[..k], chunks[k..]);
  }

  lemma AppendAssoc<T>(a: seq<T>, b: seq<T>, c: seq<T>)
    ensures a + (b + c) == (a + b) + c
  {
  }

  /** The text of a non-empty prefix of a run of reads is the text of its
      first read followed by the text of the corresponding prefix of the rest. */
  lemma PrefixText(chunks: seq<Incoming>, k: nat)
    requires 1 <= k <= |chunks|
    ensures Joined(chunks[..k]) == TextOf(chunks[0]) + Joined(chunks[1..][..k - 1])
  {
    assert chunks[..k][1..] == chunks[1..][..k - 1];
  }

  /** Whatever is appended, a marker already present stays present. */
  lemma ContainsExtends(a: string, b: string, pat: string)
    requires Contains(a, pat)
    ensures Contains(a + b, pat)
  {
    var i :| 0 <= i <= |a| - |pat| && MatchAt(a, pat, i);
    assert (a + b)[i..i + |pat|] == a[i..i + |pat|];
    assert MatchAt(a + b, pat, i);
  }

  /** A text free of a marker has no prefix holding the marker. */
  lemma NoMarkerInPrefix(a: string, b: string, pat: string)
    requires !Contains(a + b, pat)
    ensures !Contains(a, pat)
  {
    forall i | 0 <= i <= |a| - |pat|
      ensures !MatchAt(a, pat, i)
    {
      assert (a + b)[i..i + |pat|] == a[i..i + |pat|];
      assert !MatchAt(a + b, pat, i);
    }
  }

  /** Whatever comes before it, a marker present in a text stays present. */
  lemma ContainsPrepend(a: string, b: string, pat: string)
    requires Contains(b, pat)
    ensures Contains(a + b, pat)
  {
    var i :| 0 <= i <= |b| - |pat| && MatchAt(b, pat, i);
    assert (a + b)[|a| + i..|a| + i + |pat|] == b[i..i + |pat|];
    assert MatchAt(a + b, pat, |a| + i);
  }

  /** A marker whose first `j` characters end one piece of text and whose
      remaining characters start the next is found in their concatenation. */
  lemma StraddlingMarker(a: string, b: string, pat: string, j: nat)
    requires j <= |pat| && j <= |a| && |pat| - j <= |b|
    requires a[|a| - j..] == pat[..j]
    requires b[..|pat| - j] == pat[j..]
    ensures Contains(a + b, pat)
  {
    var i := |a| - j;
    var s := a + b;
    assert s[i..i + |pat|] == a[i..] + b[..|pat| - j];
    assert pat == pat[..j] + pat[j..];
    assert MatchAt(s, pat, i);
  }

  /** The request terminator's last character occurs nowhere else in it, so no
      proper prefix of a framed request contains the terminator unless the
      user's input already did. This is why the server reads back exactly one
      framed request. */
  lemma FrameFirstMarker(input: string, p: string)
    requires !Contains(input, RequestEnd)
    requires |p| < |Frame(input)| && p == Frame(input)[..|p|]
    ensures !Contains(p, RequestEnd)
  {
    var f := input + RequestEnd;
    assert Frame(input) == f;
    forall i | 0 <= i <= |p| - |RequestEnd|
      ensures !MatchAt(p, RequestEnd, i)
    {
      assert p[i..i + 5] == f[i..i + 5];
      if i + |RequestEnd| <= |input| {
        assert f[i..i + 5] == input[i..i + 5];
        assert !MatchAt(input, RequestEnd, i);
      } else {
        // The occurrence would end inside the appended terminator, at one of
        // its first four characters rather than at its closing '>'.
        var k := i + 4 - |input|;
        assert 0 <= k < 4;
        assert f[i + 4] == RequestEnd[k];
        assert RequestEnd[k] != RequestEnd[4];
        assert p[i..i + 5][4] != RequestEnd[4];
      }
    }
  }
}
