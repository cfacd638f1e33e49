# Assistant protocol core, in Dafny

Assistant is a small question-answering service: one TCP server wraps a
local language model, and a command-line client sends it a question and
echoes the streamed answer. This project models the protocol core of
both sides and proves properties about it.

- **Wire protocol.** A request is the user's text followed by `<END>`.
  A completed answer is the model's tokens followed by `\n<END>`.
  The server answers a newly accepted connection with `<OK_>` if the model
  is free and with `<BSY>` if it is busy.
- **Admission gate.** The accept branch of the server loop. A single
  inference lock is taken for the one session allowed at a time, and is
  given back by the session's teardown.
- **Session.** The read loop assembles a request from successive reads.
  The round loop answers any number of requests on one connection. The
  streaming responder writes the tokens, then the terminator. The
  teardown closes the connection, resets the model and releases the lock.
- **Client receive loop.** It echoes the reply as it arrives. It stops on
  the end or busy marker, after too many empty reads in a row, or when a
  read raises.

Sockets are replaced by sequences. What successive reads return is a
sequence of `Incoming` values: some text, the empty text once the peer has
closed, or an exception. Whether each write succeeds is a sequence of
booleans. The model is an opaque function from the round and the request to
a finite token sequence, which may end in an exception. The lock is the
two-state `Slot`. The server's life is a sequential trace of arrivals and
session ends, and its effects are a trace of `Action`s.

Files:
- `protocol.dfy` holds the markers, the substring test, the request framing
  and reads.
- `admission.dfy` holds the gate, the teardown and the lock discipline.
- `session.dfy` holds the read loop, streaming, rounds and the whole session.
- `client.dfy` holds the receive loop.

Some behaviours of the code are easy to misread; the model follows the code:

- The server answers a non-empty request that lacks `<END>` when the peer
  closes in the middle of it. Only an empty request ends the session
  (assistant.py:112-121).
- The client gives up after thirteen consecutive empty reads, not twelve,
  because it tests `blanks > 12` (client.py:75).
- The server's `MAX_BLANK` constant (assistant.py:48) is never used, so it
  is not modelled.
- The server's log file is opened with the ASCII encoding (assistant.py:64),
  and every request is logged before it is answered (assistant.py:120). A
  request holding any other character therefore raises in the logging call,
  and the session is torn down without an answer (assistant.py:124-126).

## Model

| member | source | states |
|---|---|---|
| Protocol.Frame | client.py:103 | The request is the user's text followed by the request terminator, and it contains the terminator. |
| Protocol.FrameFirstMarker | client.py:103 | If the user's text has no terminator, no proper prefix of the framed request has one. The first terminator the server can find is the one the client appended. |
| Protocol.StraddlingMarker | client.py:67 | A marker whose first characters end one text and whose remaining characters start the next occurs in their concatenation. |
| Protocol.ContainsExtends | client.py:66-67 | A marker already in the accumulated text is still there after more text is appended. |
| Protocol.JoinedAppend | assistant.py:117 | The text of two runs of reads is the text of the first followed by the text of the second. |
| Admission.Accept | assistant.py:93-100 | Busy branch: the lock is left unchanged, and the connection gets exactly `<BSY>` and is closed. Free branch: the lock is taken for the connection, then `<OK_>` is sent, then the session starts. |
| Admission.DropClient | assistant.py:128-135 | The teardown closes the connection, then resets the model, then releases the lock. |
| Admission.Run | assistant.py:89-100 | The accept loop over a trace of events: after an empty trace nothing has happened, and after any other trace the lock is free exactly when the last event was a session end. Its safety is stated by RunSafe and ResetBeforeReuse. |
| Admission.Next | assistant.py:91-100 | An arrival runs the accept branch. A session end tears down the session holding the lock and frees it. |
| Admission.NextSafe | assistant.py:93-100 | One event never takes a held lock and never releases a free one. The lock is held afterwards exactly when the new state says so. A release comes right after a reset and a close, and a session start comes right after `<OK_>` and the acquire. |
| Admission.RunSafe | assistant.py:93-100 | Over any trace of arrivals and session ends: the lock is never taken while held nor released while free, so at most one session holds it; only a teardown releases it; a session starts only after the lock was taken and `<OK_>` sent. |
| Admission.DisciplineAppend | assistant.py:98 | Lock discipline over two logs joined together: the first log keeps it, then the second keeps it from the lock state the first leaves. |
| Admission.ReleaseBeforeReacquire | assistant.py:98 | In a log walked from a held lock, any acquire comes after some release. |
| Admission.TeardownBetweenGrants | assistant.py:132-134 | Between two acquires in a disciplined log whose releases all follow a reset, there is a reset directly followed by a release. |
| Admission.ResetBeforeReuse | assistant.py:128-134 | Between any two acquires of the lock in the server's trace there is a reset directly followed by a release. |
| Session.Accumulate | assistant.py:111-117 | The request is the starting text followed by the joined text of exactly the reads consumed. The reads left over are a suffix of the input. |
| Session.AccumulateFirstStop | assistant.py:112-117 | Every consumed read delivered text. Before each consumed read the text so far lacked the terminator, so the loop stops at the first read that completes it. |
| Session.AccumulateEnds | assistant.py:112-117 | A request ends only at the terminator, at the empty read, or when the reads run out. An exception leaves the raising read first among the remaining reads, and that read was made while the text so far still lacked the terminator. |
| Session.FaultUnterminated | assistant.py:112-117 | A read loop that ends in an exception read nothing after its text held the terminator. |
| Session.Stream | assistant.py:139-147 | Every token is taken from the engine. The tokens written are a prefix of the tokens, in order, and every one of those writes succeeded. All tokens are written exactly when no write failed. After the first failed write nothing more is attempted. |
| Session.Respond | assistant.py:137-149 | The terminator is attempted exactly when every token write succeeded and the engine did not raise. The answer ends with the engine's exception exactly when the engine raised. A completed answer is the tokens then `\n<END>`, and its terminator write succeeded. An answer whose terminator write failed is every token, then that failed write. A dropped answer is the tokens before the first failed write (every earlier write succeeded), then the failure and the close. When the engine raised, what was written is the tokens up to the first failed write, followed by the failure and the close if there was one. Every action is on the session's own connection. |
| Session.Round | assistant.py:111-126 | A closed connection or a raising read ends the loop with no action. An empty request ends it because the peer closed. A non-empty request that is not ASCII ends it through the exception handler, with no action. Any other request is handed to the engine first; then the loop either ends through an exception with that one request, or goes on with the reads after it. A round that goes on consumed at least one read. Every action is on the session's connection, and none takes, resets or releases the lock. Which answers end the loop in any round is stated by FailedAnswerEndsRounds, and which go on by AnsweredRound. |
| Session.Rounds | assistant.py:110-122 | Over all rounds of one connection, the lock is neither taken nor released, the model is not reset, and every request answered is non-empty. |
| Session.ProcessClient | assistant.py:106-126 | Both exits of a session end with exactly one teardown: close, reset, release. No release or reset happens before it, and no acquire happens at all. |
| Session.TeardownReleases | assistant.py:128-134 | Appending the teardown to actions that leave the lock alone releases a held lock exactly once, right after the reset. |
| Session.SessionReleasesOnce | assistant.py:123-134 | A session entered with the lock held keeps the lock discipline and leaves the lock free through a teardown, whichever way it exits. |
| Session.FramedRequestRead | assistant.py:112-117 | A framed request, however its bytes are split into reads, is read back exactly. Reads after it are left for the next round. |
| Session.FramedQuestionRead | assistant.py:111-117 | A framed question sent as reads of text is read back as exactly one request, and the reads after it are left untouched. |
| Session.ReliableAnswer | assistant.py:139-149 | If every write succeeds and the engine does not raise, the answer is every token in order followed by `\n<END>`. |
| Session.AnsweredRound | assistant.py:111-121 | On any link, a round that read a non-empty ASCII request and answered it in full hands the request to the engine, writes the answer, and continues on the remaining reads with the connection still open. |
| Session.RoundsAnswered | assistant.py:110-122 | After a fully answered request, the round loop goes on with the next request on the same connection. Nothing happens between the two rounds: no teardown and no release. |
| Session.ServesEveryRound | assistant.py:110-122 | Framed ASCII questions sent one after another, over a link that accepts every write and to an engine that does not raise, are each answered in full and in order on the same session. The round loop ends only when the peer closes. |
| Session.ServesEverySession | assistant.py:106-123 | A whole session of framed questions is their answers in order, followed by one teardown. |
| Session.UnterminatedRead | assistant.py:112-119 | Reads of text whose joined text never holds the terminator, followed by the peer closing, are read back as one request: their text, with the closing left unread. |
| Session.ClosedTail | assistant.py:112-119 | Once the peer has closed, the round loop ends with no action: by the empty request on an open connection, by the raising read on one the server closed. |
| Session.LastRequestRounds | assistant.py:110-126 | On any link and with any engine, a request ended by the peer closing is the session's only request, and it is handed to the engine before anything else happens. |
| Session.LastRequestCompleted | assistant.py:110-122 | If that request's answer is written in full, the session ends because the peer closed. |
| Session.PartialRequestAnswered | assistant.py:106-126 | A non-empty ASCII request cut short by the peer closing, sent as any number of reads, is handed to the engine first and is the session's only request, whatever the link and the engine do. If the engine does not raise and every write succeeds, the next, empty, request ends the session. |
| Session.NonAsciiRequestDropped | assistant.py:118-126 | A non-empty request that is not ASCII is never handed to the engine: the session is exactly its teardown, reached through the exception handler. |
| Session.FailedAnswerEndsRounds | assistant.py:110-147 | In any round, an answer that does not complete ends the round loop with no further request: after an engine exception or a failed terminator write through the exception handler, after a failed token write through the next read raising on the closed connection. The loop's actions are the request and what was written of its answer. |
| Session.EngineRaisedEndsRounds | assistant.py:121-126 | In any round, an engine that raises ends the round loop right after its partial answer. |
| Session.FailedAnswerEndsSession | assistant.py:121-147 | For the session's first request: an answer that does not complete makes the session the request, what was written of its answer, then one teardown. |
| Session.EngineRaisedEndsSession | assistant.py:121-126 | For the session's first request: an engine that raises ends the session right after its partial answer, with one teardown. |
| Session.NonAsciiQuestionDropped | assistant.py:118-126 | A framed question holding a character outside ASCII, however it is split into reads, gets no answer: the session is exactly its teardown. |
| Session.EmptyRequestEndsSession | assistant.py:118-123 | A peer that closes before sending anything gets no answer; the session goes straight to its teardown. |
| Client.ReceiveResponse | client.py:59-79 | The loop stops at the first read where a read raised, the reply so far holds `<END>` or `<BSY>`, or thirteen consecutive reads were empty. A marker takes precedence over the timeout. It echoes every read up to and including the stopping one (not a raising read), in order and once each. It stops within thirteen reads after the peer's data ends. |
| Client.EmptyRunMeans | client.py:71-74 | The blank counter is at least `t` exactly when the last `t` reads were all empty. |
| Client.BlankCounterMeansQuiet | client.py:71-77 | The counter exceeds twelve after a read exactly when that read ends a run of thirteen empty reads. |
| Client.PastEndBlanks | client.py:71-74 | After the peer's data ends, the counter is at least the number of reads past the end. |
| Client.ReceivedJoined | client.py:65-66 | The reply accumulated from the first reads is their joined text. |
| Client.MarkerStays | client.py:66-67 | Once the reply so far holds a marker, it holds it whatever is read next. |
| Client.SplitMarkerSeen | client.py:65-69 | A marker split across two consecutive reads stops the loop at the second read at the latest, because the test looks at the whole reply and not at the last piece. |
| Client.NoEarlyStop | client.py:64-77 | Before the last read of a reply whose text before that read has no marker, the loop does not stop. |
| Client.WholeReplyRead | client.py:64-69 | A reply whose first marker is completed by its last read is read to the end and no further. The loop stops there because of the marker. |

## Left out

- Sockets, `bind`/`listen`/`accept` and the five-second bind retry are left out. Reads and write outcomes are given as sequences.
- Threads and the real `threading.Lock` are left out. The lock is the two-state `Slot`, and the server is a sequential trace of events.
- Loading the language model, prompt formatting, `max_tokens` and the stop list are left out. The engine is an opaque function returning a finite token sequence.
- Logging and the timestamp formatting helpers are left out, except for one effect of the ASCII log encoding: logging a request that is not ASCII raises, which `Session.Round` models. The other messages are built from fixed text, addresses and exception messages, which the model takes to be ASCII. Log writes that fail for other reasons, such as a full disk, are not modelled.
- The bare `except` of the accept loop (assistant.py:101-104) is left out. Its log call names `exc`, which is unbound there, so the handler raises `UnboundLocalError`. That escapes `server_loop` and ends the server before the `sock.close()` at line 103 runs.
- Admission.Accept: a failing `<OK_>` or `<BSY>` write, or a failing `start_new_thread`, would end up in that bare `except` and end the server. The model treats these steps as always completing.
- Admission.DropClient: the teardown is modelled as always completing. In the source, `conn.close()` and `llm.reset()` (assistant.py:130-132) could raise. On the normal path (assistant.py:123, inside the `try`) the `except` would then run the teardown a second time, and a second failure would leave the lock held, so every later client would get `<BSY>`. `Session.ProcessClient`'s single teardown rests on this assumption.
- Client configuration, connecting, reading the prompt, exit codes and colouring are left out. Only the request framing and `receive_response` are modelled.
- The client's timeout notice is represented by the `TimedOut` stop, not by printed text.
- Byte decoding is left out. Reads are modelled as strings, so a multi-byte character split between reads (a decode error in the source) is not represented.
- Read sizes (1024 bytes on the server, 5 on the client) are not enforced. The properties hold for reads of any size.
- The reserved `<TMT>` signal is defined and never sent, as in the source.
