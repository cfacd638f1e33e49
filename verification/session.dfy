/**
  One admitted connection, from the first request to the teardown: the read
  loop that assembles a request, the streaming of the engine's tokens with
  the response terminator, the loop over rounds, and the teardown both exits
  end in.

  The connection's inbound side is the sequence of what successive reads
  return; once that sequence is used up the peer has closed, and a read of
  the empty text keeps being returned. Write outcomes are listed per write
  attempt, counted over the whole session; attempts past the end of the list
  succeed. The engine is an opaque function from the round number and the
  request to a finite token sequence, possibly ending in an exception.
 */
module Session {
  import opened Protocol
  import opened Admission

  /** The outcome of the read loop, with the reads it left unconsumed: a
      request (possibly empty, possibly lacking the terminator), or an
      exception from the first read in `rest`. */
  datatype Read = Got(request: string, rest: seq<Incoming>) | ReadFault(rest: seq<Incoming>)

  /** Keeps reading while `request` lacks the request terminator. An empty
      read (the peer closed) ends the loop and is left in place, since every
      later read returns it too. */
  function Accumulate(inbound: seq<Incoming>, request: string): (r: Read)
    decreases |inbound|
    ensures |r.rest| <= |inbound| && r.rest == inbound[|inbound| - |r.rest|..]
    ensures r.Got? ==> r.request == request + Joined(inbound[..|inbound| - |r.rest|])
  {
    if Contains(request, RequestEnd) then Got(request, inbound)
    else if inbound == [] then Got(request, [])
    else match inbound[0]
      case Fault => ReadFault(inbound)
      case Chunk(data) =>
        if data == "" then Got(request, inbound)
        else
          var r := Accumulate(inbound[1..], request + data);
          PrefixText(inbound, |inbound| - |r.rest|);
          AppendAssoc(request, data, Joined(inbound[1..][..|inbound| - 1 - |r.rest|]));
          r
  }

  /** The number of reads the read loop consumed. */
  function Consumed(inbound: seq<Incoming>, r: Read): nat
    requires |r.rest| <= |inbound|
  {
    |inbound| - |r.rest|
  }

  /** Every read the read loop consumed delivered text, and none of them but
      the last completed the terminator: the loop stops at the first read
      after which the accumulated text holds it. */
  lemma {:induction false} AccumulateFirstStop(inbound: seq<Incoming>, request: string)
    ensures var r := Accumulate(inbound, request);
      forall j | 0 <= j < Consumed(inbound, r) ::
        IsData(inbound[j]) && !Contains(request + Joined(inbound[..j]), RequestEnd)
    decreases |inbound|
  {
    var r := Accumulate(inbound, request);
    if !Contains(request, RequestEnd) && inbound != [] && IsData(inbound[0]) {
      var data := inbound[0].text;
      var t := inbound[1..];
      assert r == Accumulate(t, request + data);
      AccumulateFirstStop(t, request + data);
      forall j | 0 <= j < Consumed(inbound, r)
        ensures IsData(inbound[j]) && !Contains(request + Joined(inbound[..j]), RequestEnd)
      {
        if j > 0 {
          PrefixText(inbound, j);
          assert inbound[j] == t[j - 1];
          var rest := Joined(t[..j - 1]);
          assert Joined(inbound[..j]) == data + rest;
          AppendAssoc(request, data, rest);
        } else {
          assert request + Joined(inbound[..j]) == request;
        }
      }
    }
  }

  /** A read loop that ends in an exception raised while the text so far
      still lacked the terminator: it reads only while the terminator is
      missing. */
  lemma {:induction false} FaultUnterminated(inbound: seq<Incoming>, request: string)
    ensures var r := Accumulate(inbound, request);
      r.ReadFault? ==> !Contains(request + Joined(inbound[..Consumed(inbound, r)]), RequestEnd)
    decreases |inbound|
  {
    var r := Accumulate(inbound, request);
    if r.ReadFault? {
      if IsData(inbound[0]) {
        var data := inbound[0].text;
        var t := inbound[1..];
        FaultUnterminated(t, request + data);
        assert r == Accumulate(t, request + data);
        var m := Consumed(t, r);
        PrefixText(inbound, m + 1);
        AppendAssoc(request, data, Joined(t[..m]));
      } else {
        assert inbound[..0] == [] && request + "" == request;
      }
    }
  }

  /** The read loop ends a request only at the terminator or at an empty
      read; an exception comes from a read made while the text so far still
      lacked the terminator, and leaves the reads from the raising one on. */
  lemma {:induction false} AccumulateEnds(inbound: seq<Incoming>, request: string)
    ensures var r := Accumulate(inbound, request);
      r.Got? ==> Contains(r.request, RequestEnd) || r.rest == [] || r.rest[0] == Chunk("")
    ensures var r := Accumulate(inbound, request);
      r.ReadFault? ==>
        && r.rest != [] && r.rest[0] == Fault
        && !Contains(request + Joined(inbound[..Consumed(inbound, r)]), RequestEnd)
    decreases |inbound|
  {
    FaultUnterminated(inbound, request);
    if !Contains(request, RequestEnd) && inbound != [] && IsData(inbound[0]) {
      AccumulateEnds(inbound[1..], request + inbound[0].text);
    }
  }

  /** The read phase of one round: starts from the empty request. */
  function ReadRequest(inbound: seq<Incoming>): Read
  {
    Accumulate(inbound, "")
  }

  /** What the engine yields for one request: its tokens in order, and
      whether the generator raises after the last of them. */
  datatype Generation = Generation(tokens: seq<string>, raises: bool)

  /** The engine, as seen by a session: the answer to the request of a given
      round. Prompt formatting happens inside it. */
  type Engine = (nat, string) -> Generation

  /** Whether write attempt number `n` of the session succeeds. */
  function WriteOk(link: seq<bool>, n: nat): bool
  {
    n >= |link| || link[n]
  }

  /** The token loop: what reached the peer, the number of the next write
      attempt, whether the connection is still considered alive, and how
      many tokens were taken from the engine. */
  datatype Streamed = Streamed(written: seq<string>, next: nat, connected: bool, drained: nat)

  /** Takes every token; while connected, writes it, and on the first failed
      write marks the connection dead and writes nothing more. */
  function Stream(tokens: seq<string>, link: seq<bool>, n: nat, connected: bool): (r: Streamed)
    decreases |tokens|
    ensures r.drained == |tokens|
    ensures !connected ==> r.written == [] && r.next == n && !r.connected
    ensures connected ==> |r.written| <= |tokens| && r.written == tokens[..|r.written|]
    ensures connected ==> forall m | n <= m < n + |r.written| :: WriteOk(link, m)
    ensures connected ==> (r.connected <==> |r.written| == |tokens|)
    ensures connected && !r.connected ==> !WriteOk(link, n + |r.written|)
    ensures connected ==> r.next == n + |r.written| + (if r.connected then 0 else 1)
  {
    if tokens == [] then Streamed([], n, connected, 0)
    else
      var (written, n', connected') :=
        if !connected then ([], n, false)
        else if WriteOk(link, n) then ([tokens[0]], n + 1, true)
        else ([], n + 1, false);
      var rest := Stream(tokens[1..], link, n', connected');
      Streamed(written + rest.written, rest.next, rest.connected, rest.drained + 1)
  }

  /** How one answer ended: the terminator was written; a token write failed
      and the server closed the connection; the terminator write raised; or
      the engine raised. */
  datatype Ending = Completed | Dropped | TerminatorFailed | EngineRaised

  datatype Answer = Answer(log: seq<Action>, next: nat, ending: Ending)

  /** A completed write of each text to `c`, in order. */
  function Sends(c: ConnId, texts: seq<string>): (r: seq<Action>)
    ensures |r| == |texts|
    ensures forall i | 0 <= i < |texts| :: r[i] == Send(c, texts[i])
  {
    seq(|texts|, i requires 0 <= i < |texts| => Send(c, texts[i]))
  }

  /** Answers one request on connection `c`, starting at write attempt `n`. */
  function Respond(c: ConnId, gen: Generation, link: seq<bool>, n: nat): (r: Answer)
    ensures var allWritten := forall m | n <= m < n + |gen.tokens| :: WriteOk(link, m);
      (r.ending in {Completed, TerminatorFailed}) <==> allWritten && !gen.raises
    ensures r.ending == Completed ==> r.log == Sends(c, gen.tokens) + [Send(c, ResponseEnd)]
    ensures r.ending == Completed ==> r.next == n + |gen.tokens| + 1 && WriteOk(link, n + |gen.tokens|)
    ensures r.ending == TerminatorFailed ==> !WriteOk(link, n + |gen.tokens|)
    ensures r.ending == TerminatorFailed ==> r.log == Sends(c, gen.tokens) + [SendFailed(c)]
    ensures r.ending == EngineRaised <==> gen.raises
    ensures r.ending == Dropped ==> exists k | 0 <= k < |gen.tokens| ::
      && (forall m | n <= m < n + k :: WriteOk(link, m))
      && !WriteOk(link, n + k)
      && r.log == Sends(c, gen.tokens[..k]) + [SendFailed(c), Close(c)]
    ensures r.ending == EngineRaised ==> exists k | 0 <= k <= |gen.tokens| ::
      && (forall m | n <= m < n + k :: WriteOk(link, m))
      && (k == |gen.tokens| ==> r.log == Sends(c, gen.tokens))
      && (k < |gen.tokens| ==> !WriteOk(link, n + k) && r.log == Sends(c, gen.tokens[..k]) + [SendFailed(c), Close(c)])
    ensures forall a | a in r.log :: (a.Send? || a.SendFailed? || a.Close?) && a.conn == c
  {
    var s := Stream(gen.tokens, link, n, true);
    assert s.connected ==> s.written == gen.tokens;
    var streamed := Sends(c, s.written) + (if s.connected then [] else [SendFailed(c), Close(c)]);
    if gen.raises then Answer(streamed, s.next, EngineRaised)
    else if !s.connected then Answer(streamed, s.next, Dropped)
    else if WriteOk(link, s.next) then Answer(streamed + [Send(c, ResponseEnd)], s.next + 1, Completed)
    else Answer(streamed + [SendFailed(c)], s.next + 1, TerminatorFailed)
  }

  /** How a session's round loop ended: the peer closed before sending a
      further request, or an exception left the loop. */
  datatype Exit = PeerClosed | Raised

  /** A session's actions, the requests it answered in order, and how its
      round loop ended. */
  datatype Served = Served(log: seq<Action>, requests: seq<string>, exit: Exit)

  /** Everything in `log` is done on connection `c` alone: no lock or engine
      action happens in it. */
  ghost predicate OwnConnection(c: ConnId, log: seq<Action>)
  {
    forall a | a in log :: (a.Send? || a.SendFailed? || a.Close? || a.Ask?) && a.conn == c
  }

  /** Every character is ASCII. The server appends each request to its log
      file, which it opens with the ASCII encoding, so any other character
      makes that log write raise. */
  predicate IsAscii(s: string)
  {
    forall i | 0 <= i < |s| :: s[i] as int < 128
  }

  /** What one turn of the round loop did: the loop ended, possibly after
      handing one last request to the engine, or a request was answered and
      the loop goes on with the remaining reads. */
  datatype Turn =
    | Ended(log: seq<Action>, requests: seq<string>, exit: Exit)
    | Continue(log: seq<Action>, request: string, rest: seq<Incoming>, next: nat, open: bool)

  /** One turn of the round loop on connection `c`, in round `round`, from
      write attempt `n`. `open` is false once the server itself has closed
      the connection after a failed write; the next read then raises. An
      empty request ends the loop. Any other request, with or without the
      terminator, is logged and then answered; logging a request that is not
      ASCII raises, and the loop ends before the engine sees it. */
  function Round(c: ConnId, inbound: seq<Incoming>, link: seq<bool>, engine: Engine,
                 n: nat, round: nat, open: bool): (r: Turn)
    ensures r.Continue? ==> |r.rest| < |inbound| && r.request != ""
    ensures r.Ended? ==> forall q | q in r.requests :: q != ""
    ensures !open || ReadRequest(inbound).ReadFault? ==> r == Ended([], [], Raised)
    ensures open && ReadRequest(inbound).Got? && ReadRequest(inbound).request == "" ==> r == Ended([], [], PeerClosed)
    ensures open && ReadRequest(inbound).Got? && ReadRequest(inbound).request != "" ==>
      var request := ReadRequest(inbound).request;
      if !IsAscii(request) then r == Ended([], [], Raised)
      else
        && r.log != [] && r.log[0] == Ask(c, request)
        && (r.Ended? ==> r.requests == [request] && r.exit == Raised)
        && (r.Continue? ==> r.request == request && r.rest == ReadRequest(inbound).rest)
    ensures OwnConnection(c, r.log)
    ensures Acquire !in r.log && Reset !in r.log && Release !in r.log
  {
    if !open then Ended([], [], Raised)
    else match ReadRequest(inbound)
      case ReadFault(_) => Ended([], [], Raised)
      case Got(request, rest) =>
        if request == "" then Ended([], [], PeerClosed)
        else if !IsAscii(request) then Ended([], [], Raised)
        else
          assert inbound[..0] == [];
          var a := Respond(c, engine(round, request), link, n);
          var log := [Ask(c, request)] + a.log;
          if a.ending == EngineRaised || a.ending == TerminatorFailed then Ended(log, [request], Raised)
          else Continue(log, request, rest, a.next, a.ending == Completed)
  }

  /** The round loop: turns until one ends it. */
  function Rounds(c: ConnId, inbound: seq<Incoming>, link: seq<bool>, engine: Engine,
                  n: nat, round: nat, open: bool): (r: Served)
    decreases |inbound|
    ensures OwnConnection(c, r.log)
    ensures Acquire !in r.log && Reset !in r.log && Release !in r.log
    ensures forall q | q in r.requests :: q != ""
  {
    match Round(c, inbound, link, engine, n, round, open)
    case Ended(log, requests, exit) => Served(log, requests, exit)
    case Continue(log, request, rest, next, open') =>
      var tail := Rounds(c, rest, link, engine, next, round + 1, open');
      Served(log + tail.log, [request] + tail.requests, tail.exit)
  }

  /** The whole life of an admitted connection `c`: the round loop, then the
      teardown, whichever way the loop ended. The lock stays held through
      every round and is released only by the last action. */
  function ProcessClient(c: ConnId, inbound: seq<Incoming>, link: seq<bool>, engine: Engine): (r: Served)
    ensures |r.log| >= 3 && r.log[|r.log| - 3..] == DropClient(c)
    ensures Release !in r.log[..|r.log| - 1] && Reset !in r.log[..|r.log| - 2]
    ensures Acquire !in r.log
  {
    var s := Rounds(c, inbound, link, engine, 0, 0, true);
    var log := s.log + DropClient(c);
    assert log[..|log| - 1] == s.log + [Close(c), Reset];
    assert log[..|log| - 2] == s.log + [Close(c)];
    Served(log, s.requests, s.exit)
  }

  /** Actions that neither take nor give back the lock leave it as it was. */
  lemma {:induction false} HeldThroughout(log: seq<Action>)
    requires Acquire !in log && Release !in log
    ensures LockDiscipline(true, log) && HeldAfter(true, log)
    decreases |log|
  {
    if log != [] {
      assert log[0] in log;
      assert log == [log[0]] + log[1..];
      HeldThroughout(log[1..]);
    }
  }

  /** Appending the teardown to actions that leave the lock alone gives it
      back exactly once, right after the engine reset. */
  lemma TeardownReleases(c: ConnId, before: seq<Action>)
    requires Acquire !in before && Release !in before
    ensures LockDiscipline(true, before + DropClient(c))
    ensures !HeldAfter(true, before + DropClient(c))
    ensures ReleaseAfterReset(before + DropClient(c))
  {
    var log := before + DropClient(c);
    HeldThroughout(before);
    DisciplineAppend(true, before, DropClient(c));
    assert DropClient(c)[1..] == [Reset, Release];
    assert [Reset, Release][1..] == [Release];
    forall k | 0 <= k < |before|
      ensures log[k] != Release
    {
      assert log[k] == before[k] && before[k] in before;
    }
  }

  /** A session, entered with the lock held, keeps the lock discipline and
      leaves the lock free, through a teardown, on every exit. */
  lemma SessionReleasesOnce(c: ConnId, inbound: seq<Incoming>, link: seq<bool>, engine: Engine)
    ensures LockDiscipline(true, ProcessClient(c, inbound, link, engine).log)
    ensures !HeldAfter(true, ProcessClient(c, inbound, link, engine).log)
    ensures ReleaseAfterReset(ProcessClient(c, inbound, link, engine).log)
  {
    var s := Rounds(c, inbound, link, engine, 0, 0, true);
    TeardownReleases(c, s.log);
  }

  /** One turn of the read loop on a read that delivered text. */
  lemma AccumulateStep(inbound: seq<Incoming>, request: string)
    requires !Contains(request, RequestEnd)
    requires inbound != [] && IsData(inbound[0])
    ensures Accumulate(inbound, request) == Accumulate(inbound[1..], request + inbound[0].text)
  {
  }

  /** The server reads a framed request back exactly, however the client's
      bytes were split into reads, provided the user's input does not itself
      hold the terminator; reads after it are left for the next round. */
  lemma {:induction false} FramedRequestRead(input: string, acc: string, chunks: seq<Incoming>, rest: seq<Incoming>)
    requires !Contains(input, RequestEnd)
    requires forall i | 0 <= i < |chunks| :: IsData(chunks[i])
    requires acc + Joined(chunks) == Frame(input)
    ensures Accumulate(chunks + rest, acc) == Got(Frame(input), rest)
    decreases |chunks|
  {
    if chunks == [] {
      assert chunks + rest == rest;
      assert acc + "" == acc;
      assert Contains(acc, RequestEnd);
    } else {
      var d := chunks[0].text;
      var tail := Joined(chunks[1..]);
      AppendAssoc(acc, d, tail);
      assert Frame(input) == acc + (d + tail);
      assert Frame(input)[..|acc|] == acc;
      FrameFirstMarker(input, acc);
      var inbound := chunks + rest;
      assert inbound[0] == chunks[0];
      assert inbound[1..] == chunks[1..] + rest;
      AccumulateStep(inbound, acc);
      FramedRequestRead(input, acc + d, chunks[1..], rest);
    }
  }

  /** The reads of each part, one after another. */
  function Flatten(parts: seq<seq<Incoming>>): seq<Incoming>
  {
    if parts == [] then [] else parts[0] + Flatten(parts[1..])
  }

  /** The framed request for each question, in order. */
  function Frames(questions: seq<string>): seq<string>
  {
    if questions == [] then [] else [Frame(questions[0])] + Frames(questions[1..])
  }

  /** The actions of one fully answered round: the request handed to the
      engine, every token written, then the response terminator. */
  function FullAnswer(c: ConnId, request: string, gen: Generation): seq<Action>
  {
    [Ask(c, request)] + Sends(c, gen.tokens) + [Send(c, ResponseEnd)]
  }

  /** The actions of fully answered rounds, one per framed question. */
  function Transcript(c: ConnId, questions: seq<string>, engine: Engine, round: nat): seq<Action>
  {
    if questions == [] then []
    else
      var request := Frame(questions[0]);
      FullAnswer(c, request, engine(round, request)) + Transcript(c, questions[1..], engine, round + 1)
  }

  /** A round whose request was read and answered in full continues with the
      remaining reads on an open connection. */
  lemma AnsweredRound(c: ConnId, inbound: seq<Incoming>, link: seq<bool>, engine: Engine, n: nat, round: nat,
                      request: string, rest: seq<Incoming>, answer: seq<Action>, next: nat, log: seq<Action>)
    requires ReadRequest(inbound) == Got(request, rest) && request != "" && IsAscii(request)
    requires Respond(c, engine(round, request), link, n) == Answer(answer, next, Completed)
    requires log == [Ask(c, request)] + answer
    ensures Round(c, inbound, link, engine, n, round, true) == Continue(log, request, rest, next, true)
  {
  }

  /** A framed question sent as reads of text is read back as one request. */
  lemma FramedQuestionRead(question: string, part: seq<Incoming>, rest: seq<Incoming>)
    requires !Contains(question, RequestEnd)
    requires forall i | 0 <= i < |part| :: IsData(part[i])
    requires Joined(part) == Frame(question)
    ensures ReadRequest(part + rest) == Got(Frame(question), rest)
  {
    assert "" + Joined(part) == Frame(question);
    FramedRequestRead(question, "", part, rest);
  }

  /** Over a connection that accepts every write, an engine that does not
      raise gets its answer written in full, terminator included. */
  lemma ReliableAnswer(c: ConnId, gen: Generation, n: nat)
    requires !gen.raises
    ensures Respond(c, gen, [], n) == Answer(Sends(c, gen.tokens) + [Send(c, ResponseEnd)], n + |gen.tokens| + 1, Completed)
  {
    assert WriteOk([], n + |gen.tokens|);
  }

  /** A round whose request was read and answered in full is followed by
      the rounds on what is left. */
  lemma RoundsAnswered(c: ConnId, inbound: seq<Incoming>, link: seq<bool>, engine: Engine, n: nat, round: nat,
                       request: string, rest: seq<Incoming>, answer: seq<Action>, next: nat, log: seq<Action>)
    requires ReadRequest(inbound) == Got(request, rest) && request != "" && IsAscii(request)
    requires Respond(c, engine(round, request), link, n) == Answer(answer, next, Completed)
    requires log == [Ask(c, request)] + answer
    ensures var tail := Rounds(c, rest, link, engine, next, round + 1, true);
      Rounds(c, inbound, link, engine, n, round, true) == Served(log + tail.log, [request] + tail.requests, tail.exit)
  {
    AnsweredRound(c, inbound, link, engine, n, round, request, rest, answer, next, log);
  }

  /** Each part is a run of reads carrying exactly one framed question, and
      every question is ASCII text that does not hold the terminator itself. */
  predicate Framed(questions: seq<string>, parts: seq<seq<Incoming>>)
  {
    |parts| == |questions| &&
    (questions != [] ==>
      && !Contains(questions[0], RequestEnd)
      && IsAscii(questions[0])
      && (forall i | 0 <= i < |parts[0]| :: IsData(parts[0][i]))
      && Joined(parts[0]) == Frame(questions[0])
      && Framed(questions[1..], parts[1..]))
  }

  /** Framing adds only ASCII characters. */
  lemma FrameAscii(question: string)
    requires IsAscii(question)
    ensures IsAscii(Frame(question))
  {
    var f := Frame(question);
    forall i | 0 <= i < |f|
      ensures f[i] as int < 128
    {
      if i >= |question| {
        assert f[i] == RequestEnd[i - |question|];
      }
    }
  }

  /** The engine answers each framed question, from round `round` on,
      without raising. */
  predicate EngineCompletes(engine: Engine, questions: seq<string>, round: nat)
  {
    questions != [] ==>
      !engine(round, Frame(questions[0])).raises && EngineCompletes(engine, questions[1..], round + 1)
  }

  /** The client's framed questions sent one after another over a connection
      that accepts every write are each answered in full, in order, on the
      same session: the lock is not released between rounds. */
  lemma {:induction false} ServesEveryRound(c: ConnId, questions: seq<string>, parts: seq<seq<Incoming>>,
                                            engine: Engine, n: nat, round: nat)
    requires Framed(questions, parts)
    requires EngineCompletes(engine, questions, round)
    ensures Rounds(c, Flatten(parts), [], engine, n, round, true)
      == Served(Transcript(c, questions, engine, round), Frames(questions), PeerClosed)
    decreases |questions|
  {
    if questions == [] {
      ClosedTail(c, [], [], engine, n, round, true);
    } else {
      var request := Frame(questions[0]);
      var gen := engine(round, request);
      var rest := Flatten(parts[1..]);
      var next := n + |gen.tokens| + 1;
      var inbound := Flatten(parts);
      assert inbound == parts[0] + rest;
      FramedQuestionRead(questions[0], parts[0], rest);
      FrameAscii(questions[0]);
      ReliableAnswer(c, gen, n);
      AppendAssoc([Ask(c, request)], Sends(c, gen.tokens), [Send(c, ResponseEnd)]);
      RoundsAnswered(c, inbound, [], engine, n, round, request, rest,
                     Sends(c, gen.tokens) + [Send(c, ResponseEnd)], next, FullAnswer(c, request, gen));
      ServesEveryRound(c, questions[1..], parts[1..], engine, next, round + 1);
    }
  }

  /** The same, for a whole session: the answers are followed by exactly one
      teardown. */
  lemma ServesEverySession(c: ConnId, questions: seq<string>, parts: seq<seq<Incoming>>, engine: Engine)
    requires Framed(questions, parts)
    requires EngineCompletes(engine, questions, 0)
    ensures ProcessClient(c, Flatten(parts), [], engine)
      == Served(Transcript(c, questions, engine, 0) + DropClient(c), Frames(questions), PeerClosed)
  {
    ServesEveryRound(c, questions, parts, engine, 0, 0);
  }

  /** Reads of text whose joined text never completes the terminator,
      followed by the peer closing, are read back as one request: their text,
      with the closing left in place. */
  lemma {:induction false} UnterminatedRead(acc: string, chunks: seq<Incoming>, closing: seq<Incoming>)
    requires forall i | 0 <= i < |chunks| :: IsData(chunks[i])
    requires !Contains(acc + Joined(chunks), RequestEnd)
    requires closing == [] || closing[0] == Chunk("")
    ensures Accumulate(chunks + closing, acc) == Got(acc + Joined(chunks), closing)
    decreases |chunks|
  {
    if chunks == [] {
      assert chunks + closing == closing;
      assert acc + Joined(chunks) == acc;
    } else {
      var d := chunks[0].text;
      var tail := Joined(chunks[1..]);
      AppendAssoc(acc, d, tail);
      NoMarkerInPrefix(acc, d + tail, RequestEnd);
      var inbound := chunks + closing;
      assert inbound[0] == chunks[0];
      assert inbound[1..] == chunks[1..] + closing;
      AccumulateStep(inbound, acc);
      UnterminatedRead(acc + d, chunks[1..], closing);
    }
  }

  /** After the peer has closed, the round loop ends without a further
      action: through the empty read if the connection is still open, through
      the raising read if the server closed it. */
  lemma ClosedTail(c: ConnId, closing: seq<Incoming>, link: seq<bool>, engine: Engine,
                   n: nat, round: nat, open: bool)
    requires closing == [] || closing[0] == Chunk("")
    ensures Rounds(c, closing, link, engine, n, round, open) == Served([], [], if open then PeerClosed else Raised)
  {
    assert !Contains("", RequestEnd);
    assert ReadRequest(closing) == Got("", closing);
  }

  /** The round loop on a request the peer's closing ended: that request is
      the only one handed to the engine, and it is handed over first. */
  lemma LastRequestRounds(c: ConnId, inbound: seq<Incoming>, request: string, closing: seq<Incoming>,
                          link: seq<bool>, engine: Engine)
    requires ReadRequest(inbound) == Got(request, closing) && request != "" && IsAscii(request)
    requires closing == [] || closing[0] == Chunk("")
    ensures var s := Rounds(c, inbound, link, engine, 0, 0, true);
      s.requests == [request] && s.log != [] && s.log[0] == Ask(c, request)
  {
    var t := Round(c, inbound, link, engine, 0, 0, true);
    if t.Continue? {
      ClosedTail(c, closing, link, engine, t.next, 1, t.open);
    }
  }

  /** The same loop, when the engine does not raise and every write of the
      answer succeeds: the answer completes and the peer's closing ends the
      session. */
  lemma LastRequestCompleted(c: ConnId, inbound: seq<Incoming>, request: string, closing: seq<Incoming>,
                             link: seq<bool>, engine: Engine)
    requires ReadRequest(inbound) == Got(request, closing) && request != "" && IsAscii(request)
    requires closing == [] || closing[0] == Chunk("")
    requires !engine(0, request).raises
    requires forall m | 0 <= m <= |engine(0, request).tokens| :: WriteOk(link, m)
    ensures Rounds(c, inbound, link, engine, 0, 0, true).exit == PeerClosed
  {
    var a := Respond(c, engine(0, request), link, 0);
    assert a.ending == Completed;
    RoundsAnswered(c, inbound, link, engine, 0, 0, request, closing, a.log, a.next, [Ask(c, request)] + a.log);
    ClosedTail(c, closing, link, engine, a.next, 1, true);
  }

  /** A request cut short by the peer closing is still handed to the engine,
      whatever the link and the engine do: the read loop ends on the empty
      read with the text so far, and that text is the only request of the
      session. If the engine does not raise and every write succeeds, it is
      answered in full and the next, empty, request ends the session. */
  lemma PartialRequestAnswered(c: ConnId, part: seq<Incoming>, closing: seq<Incoming>,
                               link: seq<bool>, engine: Engine)
    requires forall i | 0 <= i < |part| :: IsData(part[i])
    requires Joined(part) != "" && !Contains(Joined(part), RequestEnd) && IsAscii(Joined(part))
    requires closing == [] || closing[0] == Chunk("")
    ensures var r := ProcessClient(c, part + closing, link, engine);
      r.requests == [Joined(part)] && r.log[0] == Ask(c, Joined(part))
    ensures var gen := engine(0, Joined(part));
      (forall m | 0 <= m <= |gen.tokens| :: WriteOk(link, m)) && !gen.raises ==>
        ProcessClient(c, part + closing, link, engine).exit == PeerClosed
  {
    var text := Joined(part);
    var inbound := part + closing;
    assert "" + text == text;
    UnterminatedRead("", part, closing);
    LastRequestRounds(c, inbound, text, closing, link, engine);
    var gen := engine(0, text);
    if (forall m | 0 <= m <= |gen.tokens| :: WriteOk(link, m)) && !gen.raises {
      LastRequestCompleted(c, inbound, text, closing, link, engine);
    }
  }

  /** In any round, an answer that does not complete ends the round loop: an
      exception from the engine or from the terminator write leaves the loop
      through the exception handler, and after a failed token write the
      server has closed the connection, so the next read raises. Either way
      the loop's actions are the request and what was written of its answer,
      and no further request is taken. */
  lemma FailedAnswerEndsRounds(c: ConnId, inbound: seq<Incoming>, link: seq<bool>, engine: Engine,
                               n: nat, round: nat)
    requires ReadRequest(inbound).Got? && ReadRequest(inbound).request != ""
    requires IsAscii(ReadRequest(inbound).request)
    requires Respond(c, engine(round, ReadRequest(inbound).request), link, n).ending != Completed
    ensures var request := ReadRequest(inbound).request;
      Rounds(c, inbound, link, engine, n, round, true)
        == Served([Ask(c, request)] + Respond(c, engine(round, request), link, n).log, [request], Raised)
  {
    var request := ReadRequest(inbound).request;
    var a := Respond(c, engine(round, request), link, n);
    var t := Round(c, inbound, link, engine, n, round, true);
    assert t.log == [Ask(c, request)] + a.log;
    if t.Continue? {
      assert !t.open;
      assert Rounds(c, t.rest, link, engine, t.next, round + 1, false) == Served([], [], Raised);
      assert t.log + [] == t.log;
    }
  }

  /** So an answer to the session's first request that does not complete
      makes the session that request, what was written of its answer, and
      the teardown. */
  lemma FailedAnswerEndsSession(c: ConnId, inbound: seq<Incoming>, link: seq<bool>, engine: Engine)
    requires ReadRequest(inbound).Got? && ReadRequest(inbound).request != ""
    requires IsAscii(ReadRequest(inbound).request)
    requires Respond(c, engine(0, ReadRequest(inbound).request), link, 0).ending != Completed
    ensures var request := ReadRequest(inbound).request;
      ProcessClient(c, inbound, link, engine)
        == Served([Ask(c, request)] + Respond(c, engine(0, request), link, 0).log + DropClient(c), [request], Raised)
  {
    FailedAnswerEndsRounds(c, inbound, link, engine, 0, 0);
  }

  /** In any round, an engine that raises ends the round loop after its
      answer. */
  lemma EngineRaisedEndsRounds(c: ConnId, inbound: seq<Incoming>, link: seq<bool>, engine: Engine,
                               n: nat, round: nat)
    requires ReadRequest(inbound).Got? && ReadRequest(inbound).request != ""
    requires IsAscii(ReadRequest(inbound).request)
    requires engine(round, ReadRequest(inbound).request).raises
    ensures var request := ReadRequest(inbound).request;
      Rounds(c, inbound, link, engine, n, round, true)
        == Served([Ask(c, request)] + Respond(c, engine(round, request), link, n).log, [request], Raised)
  {
    FailedAnswerEndsRounds(c, inbound, link, engine, n, round);
  }

  /** In particular, an engine that raises on the session's first request
      ends the session after its answer. */
  lemma EngineRaisedEndsSession(c: ConnId, inbound: seq<Incoming>, link: seq<bool>, engine: Engine)
    requires ReadRequest(inbound).Got? && ReadRequest(inbound).request != ""
    requires IsAscii(ReadRequest(inbound).request)
    requires engine(0, ReadRequest(inbound).request).raises
    ensures var request := ReadRequest(inbound).request;
      ProcessClient(c, inbound, link, engine)
        == Served([Ask(c, request)] + Respond(c, engine(0, request), link, 0).log + DropClient(c), [request], Raised)
  {
    FailedAnswerEndsSession(c, inbound, link, engine);
  }

  /** A request that is not ASCII is never answered: logging it raises, and
      the exception handler tears the session down. */
  lemma NonAsciiRequestDropped(c: ConnId, inbound: seq<Incoming>, link: seq<bool>, engine: Engine)
    requires ReadRequest(inbound).Got? && ReadRequest(inbound).request != ""
    requires !IsAscii(ReadRequest(inbound).request)
    ensures ProcessClient(c, inbound, link, engine) == Served(DropClient(c), [], Raised)
  {
    assert [] + DropClient(c) == DropClient(c);
  }

  /** A framed question holding a character outside ASCII, such as an
      accented letter, is never answered, however its bytes were split into
      reads and whatever follows it. */
  lemma NonAsciiQuestionDropped(c: ConnId, question: string, part: seq<Incoming>, rest: seq<Incoming>,
                                link: seq<bool>, engine: Engine)
    requires !Contains(question, RequestEnd) && !IsAscii(question)
    requires forall i | 0 <= i < |part| :: IsData(part[i])
    requires Joined(part) == Frame(question)
    ensures ProcessClient(c, part + rest, link, engine) == Served(DropClient(c), [], Raised)
  {
    FramedQuestionRead(question, part, rest);
    var i :| 0 <= i < |question| && question[i] as int >= 128;
    assert Frame(question)[i] == question[i];
    NonAsciiRequestDropped(c, part + rest, link, engine);
  }

  /** A peer that closes before sending anything gets no answer: the session
      goes straight to its teardown. */
  lemma EmptyRequestEndsSession(c: ConnId, inbound: seq<Incoming>, link: seq<bool>, engine: Engine)
    requires inbound == [] || inbound[0] == Chunk("")
    ensures ProcessClient(c, inbound, link, engine) == Served(DropClient(c), [], PeerClosed)
  {
    assert !Contains("", RequestEnd);
    assert ReadRequest(inbound) == Got("", inbound);
    assert [] + DropClient(c) == DropClient(c);
  }
}
