# A verified model of `peekable`

`peekable` puts a replay buffer in front of an unreliable byte source. Peeking moves bytes from the reader into the
buffer; reading serves the buffer first. The reader may deliver less than asked, be interrupted, fail, have nothing
now, or come to its end, and a custom buffer may refuse to grow. The promise is that none of this is ever visible in
the bytes: looking ahead never changes what is read later.

The project has three layers.

* **What the operations mean.** `Io` describes a reader as the bytes it still has and a plan of its next answers.
  `Growth` is the growth search against a bounded buffer. `Pump` is the loop behind `peek_to_end`, `peek_to_string`
  and `peek_exact`, which depends on byte counts only. `Utf8` is the grammar of section 4 of RFC 3629 with a validator
  that reports what `core::str::from_utf8` documents (that function is not part of the repository). `Machine` gives
  every operation as a function from the state (peek buffer, reader, limit) to the new state, the report and the bytes
  that the caller sees.
* **What is true of them.** `Laws` (what one call promises), `Reports` (which of the reader's answers gets through to
  the caller, and how many bytes with it), `Transparency` (whole runs of any mixture of operations).
* **The code.** `Buffers`, `Readers`, `Rounds`, `Sync` and `Futures` are classes and methods with the source's fields,
  branches and loops, working in place on arrays. Every method is proved to end in the state and report that `Machine`
  gives. `Executor` polls the futures until they are ready, with any number of stalls, and is proved to do what the
  blocking function does without them. `Client` makes arbitrary calls on one `Peekable`; `AsyncClient` does the same
  on one `AsyncPeekable`, where it polls futures any number of times and drops them. Both are proved to go through a
  run of `Transparency`, so that its laws hold of the objects.

The `futures` and the `tokio` form of `AsyncPeekable` have the same fields, and their `PeekExact`, `PeekToEnd`,
`PeekToString` and `FillPeekBuf` futures run the same loops. They are one class here; its field `style` says whether
the reader is handed the tail of the peek buffer as a slice or wrapped in a `ReadBuf`, and every proof covers both.
`poll_read` and `poll_peek` differ in the two crates, and both forms are there. The steps that several of the source's
loops repeat (grow or resize, read into the tail, cut to what arrived) are written once, in `Rounds`.

Assumptions about what the source only knows through a trait: a reader never reports more bytes than fit and does not
advance when it fails or stalls; a blocking reader never stalls; the answers to any finite run of calls are a finite
plan, after which the reader fills every slice; a buffer refuses exactly the lengths above a bound, always with the
same error, and a refused `resize` changes nothing; its capacity is at least its length.

Where documentation and code differ, the model follows the code:

* `CHANGELOG.md:25-27` says that the string of `peek_to_string` stays unchanged when the consumed bytes are not valid
  UTF-8. After an I/O error the code appends the longest valid prefix (`src/lib.rs:690-701` says so too).
  `Laws.StringChangedOnInvalidBytes` is an input that shows it. `Laws.StringKeptIffHopeless`: the promise holds, whatever
  reader and buffer do, if and only if the bytes peeked before the call cannot be made valid by any others, which
  is the function's own check up front. `Laws.TextGainedIffWholeFront`: for other peeked bytes, every failure of the
  loop changes the string if and only if they start with a whole code point; otherwise it depends on the reader.
* `src/future.rs:44-47` says that `poll_peek` reports neither `Interrupted` nor `WouldBlock`. It does report the error
  of a buffer that refuses to grow, whatever its kind: `Laws.PollPeekReportsRefusal` is an input,
  `Laws.PollPeekDiscipline` says exactly when.
* The blocking `fill_peek_buf` and the future of that name differ; `Laws.FillFormsAgreeIff` says exactly when.

## Model

| member | source | states |
|---|---|---|
| Growth.GrowthIsLargestPowerOfTwo | src/lib.rs:1029-1051 | the growth is the largest power of two not above READ_CHUNK or the free space, and there is none exactly when no byte fits |
| Growth.ChunkOrTopBit | src/lib.rs:1041-1051 | one growth uses up one full chunk of the free space, or clears the top bit of what is less than a chunk |
| Buffers.GrowPeekBuffer | src/lib.rs:1041-1051 | the halving loop returns that growth in at most 11 attempts, their number fixed by it; old contents stay in front, a refusal changes nothing |
| Buffers.Buffer.constructor | src/buffer.rs:10-13 | an empty buffer with the capacity asked for, or the bound of its type |
| Buffers.Buffer.Resize | src/buffer.rs:21-22 | grows with zeros or shrinks; refuses exactly above the bound, and then changes nothing; the capacity never shrinks |
| Buffers.Buffer.Truncate | src/buffer.rs:24-25 | keeps the first bytes, or all of them if there are fewer |
| Buffers.Buffer.Clear | src/buffer.rs:18-19 | removes all bytes |
| Buffers.Buffer.Consume | src/buffer.rs:15-16 | drops the first bytes and shifts the others, in place |
| Buffers.Buffer.Capacity | src/buffer.rs:42-43 | the capacity is at least the length, and resizing to it is never refused; every operation of the buffer says what becomes of it |
| Buffers.Buffer.ReadIntoTail | src/tokio/peek_to_end.rs:62-66 | reading into the tail, as a slice or through a `ReadBuf`, keeps the front and writes exactly the bytes given up |
| Rounds.ReadRetrying | src/lib.rs:521-530 | retrying while interrupted is one call of the reader past its interruptions, made after one call for each |
| Rounds.TopUp | src/lib.rs:519-545 | resize, read with retries, cut: the buffer gains exactly what arrived, or is rolled back; a refusal makes no call |
| Rounds.GrowAndRead | src/lib.rs:651-676 | grow, read, cut: one round of the unbounded loop |
| Rounds.ResizeAndRead | src/future/peek_exact.rs:57-79 | resize, read, cut: one round of the exact loop |
| Rounds.FinishString | src/lib.rs:781-805 | at the end of the stream all the text or none, after an error the longest valid prefix; the string stays valid UTF-8 |
| Pump.LoopBounds | src/lib.rs:894-932 | the loop respects the limit, never goes past an exact request, and is full exactly when the request is met |
| Pump.LoopStops | src/lib.rs:650-677 | the loop breaks only with a refusal of the buffer or an error of the reader that is no interruption, and parks only on a stall |
| Pump.LoopCallsAreBounded | src/lib.rs:650-677 | termination: each call uses up a planned answer or a byte, except the last |
| Pump.SteadyToEnd | src/lib.rs:1034-1051 | without errors the unbounded loop succeeds iff one byte of room is left after the stream |
| Pump.SteadyExactly | src/lib.rs:908-929 | without errors the exact loop succeeds iff the stream is long enough, and takes precisely the missing bytes |
| Pump.GreedyCallCount | src/lib.rs:648-677 | filling a bounded buffer takes f / 1024 + popcount(f mod 1024) calls for f free bytes |
| Pump.LoopErase | src/future/peek_to_end.rs:49-82 | a poll that does not park is the blocking run; one that parks is a beginning of it, to be continued from there |
| Pump.LoopMeetsFirstTrouble | src/lib.rs:650-677 | the loop breaks with the first answer of the reader that is neither an interruption nor bytes, or with a refusal; it parks only on a first stall, and ends early only on a false end of file |
| Pump.ToEndStopsAtTrouble | src/lib.rs:650-677 | given bytes and room for all that is announced before it, the unbounded loop gets to that answer, stops for it and calls no further |
| Pump.ExactlyStopsAtTrouble | src/lib.rs:908-929 | so does the exact loop, unless what was announced is enough; it has taken precisely that |
| Utf8.GrammarIsScalarValues | src/lib.rs:743-747 | the grammar accepts exactly the shortest encodings of the Unicode scalar values |
| Utf8.FromUtf8IsGrammar | src/lib.rs:743-747 | the validator accepts exactly the strings of the grammar |
| Utf8.ValidUpToIsLongest | src/lib.rs:791-802 | `valid_up_to` ends a valid prefix, and no longer prefix is valid |
| Utf8.HopelessIsExact | src/lib.rs:738-747 | `error_len` is present iff no continuation of any length makes the bytes valid |
| Utf8.Completion | src/lib.rs:739-742 | bytes without a definite error can be completed by at most three more |
| Utf8.ConcatValid | src/lib.rs:783-788 | appending valid text to a string keeps it valid |
| Machine.Read | src/lib.rs:79-113 | the `Read` contract: what is written is the beginning of the unread stream; failure only with nothing written; zero iff nothing is peeked and the reader answers zero, which is the end of the stream unless that end of file is a passing one |
| Machine.FillBuf | src/lib.rs:117-124 | shows a beginning of the unread stream, empty only at its end, whatever errors or stalls the reader has, unless it shows a passing end of file |
| Machine.ConsumeBuf | src/lib.rs:126-134 | drops exactly the first unread bytes, across the edge of the peek buffer |
| Machine.LoopRound | src/lib.rs:650-677 | a round of the code is a round of the loop: refused, going on, or stopping for the reader's answer |
| Machine.LoopSettles | src/lib.rs:913-922 | the nested retry loop of `peek_exact` is as many rounds of the loop as there are interruptions |
| Machine.PollErases | src/future/peek_to_string.rs:61-121 | polls of a loop, stalls erased, follow the one blocking run and end as it ends; each pending poll uses up one stall, and one call more than the run |
| Machine.PollFillErases | src/future/fill_peek_buf.rs:45-72 | a pending poll uses up one stall and nothing else |
| Laws.PeekToEndThreshold | src/lib.rs:1034-1051 | success iff the unread stream is strictly shorter than the bound; otherwise exactly the first bytes in buffer and vector, the reader just behind |
| Laws.PeekToEndOutcome | src/lib.rs:641-678 | on every exit the vector gains the whole peek buffer, a beginning of the stream; which errors can be reported |
| Laws.PeekToEndCalls | src/lib.rs:641-678 | the number of reads before a bounded buffer refuses |
| Laws.VerdictIsChunkIndependent | src/lib.rs:737-786 | without errors the verdict is that on the whole unread stream, however it is split; text appended or string unchanged |
| Laws.EarlyRejectionIsExact | src/lib.rs:743-747 | refused up front, with nothing touched, iff no stream behind the peek buffer could be accepted |
| Laws.StringGainsLongestValidPrefix | src/lib.rs:781-805 | after an error of reader or buffer the string gains the longest valid prefix of the final peek buffer, every longer one being invalid |
| Laws.StringKeptIffHopeless | CHANGELOG.md:25-27 | "a failure with invalid bytes leaves the string unchanged" holds for every reader and limit iff the bytes peeked before the call are refused up front |
| Laws.TextGainedIffWholeFront | CHANGELOG.md:20-27 | if they are not, every failure of the loop changes the string, for every reader and limit, iff they start with a whole code point |
| Laws.StringChangedOnInvalidBytes | CHANGELOG.md:25-27 | an input on which the string does change |
| Laws.PeekExactSucceedsIff | src/lib.rs:894-932 | success iff the unread stream has enough bytes; precisely that prefix |
| Laws.PeekExactIsBounded | src/lib.rs:820-835 | on every exit the buffer is at most the larger of its old length and the request; a refusal touches nothing |
| Laws.PollPeekDiscipline | src/future.rs:281-351 | when `poll_peek` is pending, when a partial answer, and exactly when it reports an interruption or `WouldBlock` |
| Laws.PollPeekReportsRefusal | src/future.rs:44-47 | an input on which it reports `WouldBlock` |
| Laws.PollPeekIsPeek | src/future.rs:265-352 | `poll_peek` is the blocking `peek` whenever the reader has something to say |
| Pump.SettledQuiet | src/future.rs:281-303 | retrying past interruptions commutes with leaving out stalls and `WouldBlock` answers |
| Machine.PollPeekQuiets | src/future.rs:265-352 | a pending `poll_peek` uses up one stall or `WouldBlock` and changes nothing for the blocking `peek` without them; any other, with nothing peeked, is that `peek` |
| Laws.PeekShowsStream | src/lib.rs:504-572 | `peek` shows the first unread bytes; failure leaves the bytes of both alone; zero means the end of the stream, unless the reader shows a passing end of file; a covered or refused request does not reach the reader |
| Laws.ReadDelaysTrouble | src/lib.rs:95-109 | a persistent error or stall is held back for exactly the one call that delivers the peeked bytes, and no byte is lost or repeated |
| Laws.FillPeekBufIsBounded | src/lib.rs:955-978 | both forms stay within the capacity, gain exactly what they report, and roll back otherwise; the reader's interruptions are never reported by the blocking form, and the future reports one iff it calls the reader and meets it |
| Laws.FillFormsAgreeIff | src/future/fill_peek_buf.rs:48-66 | exactly when the two forms of `fill_peek_buf` do the same |
| Reports.ReadIsPeekedThenReader | src/lib.rs:81-107 | a read past the peeked bytes is those bytes followed by a read of the missing part; a covered one does not call the reader |
| Reports.ReadIsOneCall | src/lib.rs:79-113 | with nothing peeked, the reader's delivery, error or stall is the caller's |
| Reports.GreedyReadIsFull | src/lib.rs:79-113 | from a reader that fills every slice, a read returns all there is up to its size |
| Reports.FillBufShowsAll | src/lib.rs:117-124 | all the peeked bytes are shown without a call; with none, what the reader shows or reports |
| Reports.ConsumeTakesAllPeeked | src/lib.rs:277-286 | takes all the peeked bytes and leaves the reader alone |
| Reports.ConsumeBufAddsUp | src/lib.rs:126-134 | consuming in steps is consuming at once |
| Reports.PeekIsReadAhead | src/lib.rs:504-572 | a peek past the peeked bytes shows what the read would deliver past the interruptions, and reports what the read would hold back |
| Reports.GreedyPeekIsFull | src/lib.rs:504-572 | from a reader that fills every slice, a peek shows all there is up to its size |
| Reports.PeekToEndReports | src/lib.rs:641-678 | success is the whole stream, unless a false end of file comes first; a failure is the reader's first trouble or a refusal |
| Reports.PeekToEndMeetsTrouble | src/lib.rs:669-675 | given enough bytes and room, the reader's first trouble is what is reported, whatever deliveries and interruptions come before it |
| Reports.PeekToStringReports | src/lib.rs:737-806 | the same for text, where a failure may also be the verdict on the bytes |
| Reports.PeekToStringMeetsTrouble | src/lib.rs:748-805 | the converse for text |
| Reports.PeekExactReports | src/lib.rs:894-932 | the slice starts with all that was obtained, on every exit; `UnexpectedEof` of its own means that the stream is too short |
| Reports.PeekExactMeetsTrouble | src/lib.rs:908-929 | given enough bytes, success iff what is announced before the first trouble is enough; otherwise that trouble is reported, with precisely those bytes |
| Reports.PeekExactCalls | src/lib.rs:908-929 | from a reader that fills every slice, one call for the missing bytes, and none if there are none |
| Reports.GreedyFillIsFull | src/lib.rs:955-978 | from a reader that fills every slice, the peek buffer is filled to its capacity or holds the whole stream |
| Reports.FillIsOneCall | src/future/fill_peek_buf.rs:45-72 | one poll with room is one call of the reader on all of it, reported as it is |
| Reports.FillRetries | src/lib.rs:955-978 | the blocking form is that poll on the reader past its interruptions, made even if the buffer is full |
| Transparency.PeeksOnlyLookAhead | src/lib.rs:519-571 | no ghost bytes: after any peek, on every exit, the buffer is the old one followed by exactly the bytes that the reader gave up, and what was shown is at its front |
| Transparency.OpIsTransparent | src/lib.rs:79-135 | what one operation takes, followed by the unread stream after it, is the unread stream before it |
| Transparency.RunsAreTransparent | src/lib.rs:79-135 | over any run, consumed bytes, peek buffer and reader add up to the original stream, so the consumed ones are a beginning of it |
| Transparency.PeekingTakesNothing | src/lib.rs:504-978 | any sequence of peeks leaves the stream as it was and only extends the buffer |
| Transparency.WhatIsSeenIsRead | src/lib.rs:504-978 | bytes at the front of the peek buffer are what the next read of that size delivers, whatever peeks come between |
| Transparency.ProgramsAgree | src/lib.rs:504-978 | any two programs on a stream took the same byte at every position that both have reached |
| Transparency.EveryByteOnce | src/lib.rs:79-135 | after any program, reading on in pieces of any size, retrying errors and stalls, gives a beginning of the original stream; all of it if the reader has no end of file that goes away later |
| Transparency.EveryByteOnceIff | src/lib.rs:415-423 | those are exactly the readers for which every program and piece size completes the stream |
| Sync.Peekable.constructor | src/lib.rs:193-199 | nothing peeked, the reader untouched, the capacity asked for |
| Sync.Peekable.Read | src/lib.rs:79-113 | in place, `Machine.Read` |
| Sync.Peekable.ReadPastBuffer | src/lib.rs:95-109 | the branch that tops peeked bytes up from the reader |
| Sync.Peekable.FillBuf | src/lib.rs:117-124 | `Machine.FillBuf` |
| Sync.Peekable.ConsumeBuf | src/lib.rs:126-134 | in place, `Machine.ConsumeBuf` |
| Sync.Peekable.Consume | src/lib.rs:277-286 | hands out the old buffer with its bytes and starts an empty one of the configured capacity |
| Sync.Peekable.ConsumeInPlace | src/lib.rs:311-316 | drops the peeked bytes |
| Sync.Peekable.Peek | src/lib.rs:504-572 | in place, `Machine.Peek`; the caller's slice changes only where bytes are shown |
| Sync.Peekable.PeekExact | src/lib.rs:894-932 | in place, `Machine.PeekExact`, with both loops and as many calls of the reader |
| Sync.Peekable.PeekToEnd | src/lib.rs:641-678 | in place, `Machine.PeekToEnd`, and as many calls of the reader |
| Sync.Peekable.PeekToString | src/lib.rs:737-806 | in place, `Machine.PeekToString`, and as many calls of the reader, none if refused up front; the string stays valid UTF-8 |
| Sync.Peekable.FillPeekBuf | src/lib.rs:955-978 | in place, `Machine.FillPeekBuf` at the buffer's capacity, which stays |
| Futures.AsyncPeekable.PollRead | src/future.rs:167-214 | in place, `Machine.Read` |
| Futures.AsyncPeekable.PollReadPastBuffer | src/future.rs:188-210 | neither an error nor a stall is reported once bytes are written |
| Futures.AsyncPeekable.PollFillBuf | src/future.rs:218-226 | `Machine.FillBuf` |
| Futures.AsyncPeekable.ConsumeBuf | src/future.rs:228-237 | in place, `Machine.ConsumeBuf` |
| Futures.AsyncPeekable.ConsumeInPlace | src/future.rs:515-520 | drops the peeked bytes |
| Futures.AsyncPeekable.PollPeek | src/future.rs:265-352 | the split form is `Machine.PollPeek` |
| Futures.AsyncPeekable.PollPeekTopUp | src/future.rs:279-312 | its branch with peeked bytes |
| Futures.AsyncPeekable.PollPeekUnbuffered | src/future.rs:319-351 | its branch without |
| Futures.AsyncPeekable.PollReadBuf | src/tokio.rs:143-192 | `Machine.Read`, appended to a `ReadBuf` |
| Futures.AsyncPeekable.PollReadBufPastBuffer | src/tokio.rs:162-188 | the branch that tops peeked bytes up |
| Futures.AsyncPeekable.PollPeekBuf | src/tokio.rs:240-302 | the merged form is the same `Machine.PollPeek`, appended to a `ReadBuf` |
| Futures.AsyncPeekable.PollPeekBufTopUp | src/tokio.rs:259-301 | its top-up branch |
| Futures.AsyncPeekable.ShowPeeked | src/tokio.rs:270-300 | what it answers for each outcome of the reader |
| Futures.PeekToEnd.Poll | src/future/peek_to_end.rs:41-83 | one poll; from the first on, on every exit, the vector is its original contents followed by the whole peek buffer, once |
| Futures.PeekToEnd.AppendArrived | src/tokio/peek_to_end.rs:72-73 | mirrors what arrived |
| Futures.PeekExact.Poll | src/future/peek_exact.rs:37-89 | one poll; while neither untouched nor full, `filled` is the length of the peek buffer and the slice starts with its contents |
| Futures.PeekExact.CopyPeeked | src/tokio/peek_exact.rs:57-63 | the first poll copies what is peeked |
| Futures.PeekExact.CopyArrived | src/tokio/peek_exact.rs:99-101 | later bytes go behind the first `filled` |
| Futures.PeekToString.Poll | src/tokio/peek_to_string.rs:50-131 | one poll; the bytes are checked up front once, the string is untouched while pending and always valid UTF-8 |
| Futures.PeekToString.Drain | src/future/peek_to_string.rs:61-121 | what a poll does behind the check: the string gains text only when the poll is not pending |
| Futures.FillPeekBuf.constructor | src/future/fill_peek_buf.rs:26-35 | captures capacity and length |
| Futures.FillPeekBuf.Poll | src/tokio/fill_peek_buf.rs:48-75 | one poll; unless bytes arrived the buffer is as before and the captured values still fit |
| Executor.DrivePeekToEnd | src/future/peek_to_end.rs:41-83 | polled until ready: report, vector, buffer and reader of the blocking function on the reader without stalls, in one poll more than there were stalls, and one call of the reader more for each |
| Executor.DrivePeekExact | src/future/peek_exact.rs:37-89 | the same for `peek_exact` |
| Executor.DrivePeekToString | src/future/peek_to_string.rs:41-122 | the same for `peek_to_string` |
| Executor.DriveFillPeekBuf | src/future/fill_peek_buf.rs:45-72 | the poll of the `FillPeekBuf` future on the reader without stalls |
| Executor.DrivePollPeek | src/future/peek.rs:28-35 | polled until ready: the blocking `peek` on the reader without stalls and `WouldBlock`, in one poll more than it had of those; with peeked bytes, one poll |
| Executor.DrivePollPeekBuf | src/tokio.rs:240-302 | the same for the merged form |
| Client.PerformPeek | src/lib.rs:504-978 | any peek leaves the unread stream as it was and only extends the buffer |
| Client.PerformAll | src/lib.rs:74-135 | any calls on one object are a run of these operations: the bytes taken, then the unread stream, are the original stream |
| AsyncClient.PerformCall | src/future.rs:160-352 | one call of a polled function, in either crate's form, takes and leaves what its operation says |
| AsyncClient.PerformFuture | src/future.rs:736-847 | a future, polled any number of times and dropped, pending or not, is that many operations, and they take nothing |
| AsyncClient.PerformAll | src/future.rs:160-352 | any mixture of such calls and futures on one object is a run: the bytes taken, then the unread stream, are the original stream |

## Left out

- `Pin`, `Context`, wakers and executor scheduling: `poll` is a plain method, the executor a loop.
- Polling `FillPeekBuf` again after it was ready: its captured length is stale then, and it is not meant to be polled.
- `Write` and `AsyncWrite`, forwarding implementations, `From`, extension traits, `get_ref`, `get_mut` and `into_components`: pass-through.
- `peek`, `peek_vectored` and `peek_buf` wrappers around `poll_peek`; `peek_vectored` serves only the first non-empty slice.
- `AsyncPeekable::consume`: the same code as in `Peekable`; `consume_in_place` is there.
- SmallVec and TinyVec storage, and `Buffer::extend_from_slice`, which no peek path uses.
- The spare capacity that `Vec` allocates: an unbounded buffer here allocates exactly what it needs.
- Overflow of `usize` in lengths, and failure of allocation.
- Sync.Peekable.PeekExact: reports the length of the request where the source reports `()`; so does the `futures` form of Futures.PeekExact.Poll.
- The text inside errors: only their kinds are modelled.
