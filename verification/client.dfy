/**
  The client's receive loop: it reads the server's reply in small pieces,
  echoes each piece as it arrives, and stops at the first of three things:
  the accumulated reply holding the end or busy marker, thirteen empty reads
  in a row, or a read that raises.
 */
module Client {
  import opened Protocol

  /** How many consecutive empty reads the loop tolerates; one more ends it. */
  const MaxBlanks: nat := 12

  /** Why the loop stopped: a marker was seen, thirteen empty reads came in
      a row, that is, after the peer closed (the loop prints a timeout
      notice), or a read raised, as it does when the peer stays silent past
      the socket timeout (the exception propagates to the caller). */
  datatype Stop = SawMarker | TimedOut | RecvRaised

  /** The pieces echoed, in order, why the loop stopped, and the index of
      the read it stopped on. */
  datatype Reception = Reception(printed: seq<string>, stop: Stop, at: nat)

  /** Read number `i` of the socket; once the given reads are used up the
      peer has closed and every further read returns nothing. */
  function ReadAt(got: seq<Incoming>, i: nat): Incoming
  {
    if i < |got| then got[i] else Chunk("")
  }

  /** The text of the first `k` reads, in order. */
  function Received(got: seq<Incoming>, k: nat): string
  {
    if k == 0 then "" else Received(got, k - 1) + TextOf(ReadAt(got, k - 1))
  }

  /** The texts of the first `k` reads, one entry per read. */
  function Texts(got: seq<Incoming>, k: nat): (r: seq<string>)
    ensures |r| == k
  {
    seq(k, j requires 0 <= j => TextOf(ReadAt(got, j)))
  }

  /** The reply so far holds one of the two markers the client waits for. */
  predicate SeesMarker(s: string)
  {
    Contains(s, RequestEnd) || Contains(s, Busy)
  }

  /** Read `k` is the last of more than `MaxBlanks` empty reads in a row. */
  ghost predicate QuietRun(got: seq<Incoming>, k: nat)
  {
    k >= MaxBlanks && forall j | k - MaxBlanks <= j <= k :: ReadAt(got, j) == Chunk("")
  }

  /** The loop ends at read `k`: it raised, it completed a marker, or it was
      one empty read too many. */
  ghost predicate StopsAt(got: seq<Incoming>, k: nat)
  {
    ReadAt(got, k) == Fault || SeesMarker(Received(got, k + 1)) || QuietRun(got, k)
  }

  /** The length of the run of empty reads that ends the first `k` reads:
      the value of the loop's blank counter after read `k - 1`. */
  function EmptyRun(got: seq<Incoming>, k: nat): nat
  {
    if k == 0 then 0
    else if ReadAt(got, k - 1) == Chunk("") then EmptyRun(got, k - 1) + 1
    else 0
  }

  /** The blank counter reaches `t` exactly when the last `t` reads were all
      empty. */
  lemma {:induction false} EmptyRunMeans(got: seq<Incoming>, k: nat, t: nat)
    ensures EmptyRun(got, k) >= t <==> t <= k && forall j | k - t <= j < k :: ReadAt(got, j) == Chunk("")
    decreases k
  {
    if k > 0 && t > 0 {
      EmptyRunMeans(got, k - 1, t - 1);
    }
  }

  /** The counter exceeds `MaxBlanks` after read `k` exactly when read `k`
      ends a quiet run. */
  lemma BlankCounterMeansQuiet(got: seq<Incoming>, k: nat)
    ensures EmptyRun(got, k + 1) > MaxBlanks <==> QuietRun(got, k)
  {
    EmptyRunMeans(got, k + 1, MaxBlanks + 1);
  }

  /** Past the end of the given reads every read is empty, so the counter is
      at least the number of reads past the end. */
  lemma PastEndBlanks(got: seq<Incoming>, k: nat)
    requires k >= |got|
    ensures EmptyRun(got, k) >= k - |got|
  {
    EmptyRunMeans(got, k, k - |got|);
  }

  /** One more read adds one more entry. */
  lemma TextsNext(got: seq<Incoming>, k: nat)
    ensures Texts(got, k + 1) == Texts(got, k) + [TextOf(ReadAt(got, k))]
  {
    assert Texts(got, k + 1)[..k] == Texts(got, k);
  }

  /** The receive loop. It stops at the first read at which it ends, echoes
      the text of every read up to and including that one (except a read
      that raised), and, because the peer's silence counts, it stops within
      thirteen reads of the end of what the peer sent. */
  method ReceiveResponse(got: seq<Incoming>) returns (r: Reception)
    ensures StopsAt(got, r.at) && forall m | 0 <= m < r.at :: !StopsAt(got, m)
    ensures r.stop == RecvRaised <==> ReadAt(got, r.at) == Fault
    ensures r.stop == SawMarker <==> ReadAt(got, r.at) != Fault && SeesMarker(Received(got, r.at + 1))
    ensures r.stop == TimedOut ==> QuietRun(got, r.at)
    ensures r.printed == Texts(got, if r.stop == RecvRaised then r.at else r.at + 1)
    ensures r.at < |got| + MaxBlanks + 1
  {
    var response := "";
    var blanks := 0;
    var printed: seq<string> := [];
    var i := 0;
    while true
      invariant i <= |got| + MaxBlanks
      invariant response == Received(got, i)
      invariant printed == Texts(got, i)
      invariant blanks == EmptyRun(got, i) && blanks <= MaxBlanks
      invariant forall m | 0 <= m < i :: !StopsAt(got, m)
      decreases |got| + MaxBlanks - i
    {
      var x := ReadAt(got, i);
      if x.Fault? {
        return Reception(printed, RecvRaised, i);
      }
      var data := x.text;
      response := response + data;
      TextsNext(got, i);
      printed := printed + [data];
      if Contains(response, RequestEnd) || Contains(response, Busy) {
        return Reception(printed, SawMarker, i);
      }
      if data == "" {
        blanks := blanks + 1;
      } else {
        blanks := 0;
      }
      BlankCounterMeansQuiet(got, i);
      if blanks > MaxBlanks {
        return Reception(printed, TimedOut, i);
      }
      if i + 1 > |got| {
        PastEndBlanks(got, i + 1);
      }
      i := i + 1;
    }
  }

  /** The text of the first `k` given reads is their joined text. */
  lemma {:induction false} ReceivedJoined(got: seq<Incoming>, k: nat)
    requires k <= |got|
    ensures Received(got, k) == Joined(got[..k])
    decreases k
  {
    if k > 0 {
      ReceivedJoined(got, k - 1);
      assert got[..k] == got[..k - 1] + [got[k - 1]];
      JoinedAppend(got[..k - 1], [got[k - 1]]);
      assert Joined([got[k - 1]]) == TextOf(got[k - 1]) + Joined([]);
    }
  }

  /** A marker split across two reads, its first `j` characters ending read
      `k` and the rest starting read `k + 1`, still stops the loop, at read
      `k + 1` at the latest: the test is made on the whole reply so far, not
      on the latest piece. */
  lemma SplitMarkerSeen(got: seq<Incoming>, k: nat, pat: string, j: nat)
    requires pat == RequestEnd || pat == Busy
    requires k + 1 < |got| && got[k].Chunk? && got[k + 1].Chunk?
    requires j <= |pat| && j <= |got[k].text| && |pat| - j <= |got[k + 1].text|
    requires got[k].text[|got[k].text| - j..] == pat[..j]
    requires got[k + 1].text[..|pat| - j] == pat[j..]
    ensures StopsAt(got, k + 1)
  {
    var a := got[k].text;
    var b := got[k + 1].text;
    StraddlingMarker(a, b, pat, j);
    var before := Received(got, k);
    AppendAssoc(before, a, b);
    assert Received(got, k + 2) == before + (a + b);
    ContainsPrepend(before, a + b, pat);
  }

  /** A reply delivered as reads of text whose first marker is completed by
      its last read is read to the end and no further: the loop stops on its
      last read, because of the marker, having echoed every piece. */
  lemma WholeReplyRead(got: seq<Incoming>)
    requires got != [] && forall i | 0 <= i < |got| :: IsData(got[i])
    requires SeesMarker(Joined(got))
    requires !SeesMarker(Joined(got[..|got| - 1]))
    ensures StopsAt(got, |got| - 1)
    ensures forall m | 0 <= m < |got| - 1 :: !StopsAt(got, m)
  {
    var last := |got| - 1;
    ReceivedJoined(got, |got|);
    assert got[..|got|] == got;
    forall m | 0 <= m < last
      ensures !StopsAt(got, m)
    {
      NoEarlyStop(got, m);
    }
  }

  /** Before the last read of such a reply the loop does not stop: the read
      delivered text, and the reply so far is a prefix of a marker-free text. */
  lemma NoEarlyStop(got: seq<Incoming>, m: nat)
    requires forall i | 0 <= i < |got| :: IsData(got[i])
    requires m + 1 < |got| && !SeesMarker(Joined(got[..|got| - 1]))
    ensures !StopsAt(got, m)
  {
    var last := |got| - 1;
    var front := got[..last];
    ReceivedJoined(got, m + 1);
    JoinedSplit(front, m + 1);
    assert front[..m + 1] == got[..m + 1];
    MarkerStays(Joined(got[..m + 1]), Joined(front[m + 1..]));
    assert IsData(got[m]);
  }

  /** A marker in the reply so far stays there whatever is read next. */
  lemma MarkerStays(a: string, b: string)
    ensures SeesMarker(a) ==> SeesMarker(a + b)
  {
    if Contains(a, RequestEnd) {
      ContainsExtends(a, b, RequestEnd);
    }
    if Contains(a, Busy) {
      ContainsExtends(a, b, Busy);
    }
  }
}
