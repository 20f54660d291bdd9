/** What the operations promise, one call at a time. */
module Laws {
  import opened Io
  import opened Growth
  import opened Pump
  import opened Utf8
  import opened Machine

  // ---- peek_to_end ----

  /** With a reader that does not fail, `peek_to_end` succeeds if and only if the buffer could hold one byte more
      than the unread stream; otherwise it stops with the stream's first `max` bytes in the buffer and in the
      caller's vector, and the reader just behind them. */
  lemma PeekToEndThreshold(st: State)
    requires Steady(st.source.plan) && st.limit.Admits(|st.buffer|)
    ensures var step := PeekToEnd(st); var all := st.Unread();
            if st.limit.Admits(|all| + 1) then
              && step.result == Ready(|all|) && step.out == all
              && step.state.buffer == all && step.state.source.remaining == []
            else
              var max := st.limit.max;
              && step.result == Failed(st.limit.refusal) && step.out == all[..max]
              && step.state.buffer == all[..max] && step.state.source.remaining == all[max..]
  {
    hide Loop;
    SteadyToEnd(st.Avail(), st.source.plan, |st.buffer|, st.limit);
  }

  /** With any reader: the vector gains the final peek buffer, a beginning of the unread stream; success counts it;
      and a failure is the buffer's refusal of one more byte, or an error of the reader that is no interruption. */
  lemma PeekToEndOutcome(st: State)
    ensures var step := PeekToEnd(st); var plan := st.source.plan;
            && step.out == step.state.buffer == st.Unread()[..|step.out|] && |step.out| >= |st.buffer|
            && (step.result.Ready? ==> step.result.value == |step.out|)
            && (step.result.Pending? ==> Mentions(plan, Stall))
            && (step.result.Failed? ==>
                  || (!st.limit.Admits(|step.out| + 1) && step.result.error == st.limit.refusal)
                  || (step.result.error != Interrupted && Mentions(plan, Fail(step.result.error))))
  {
    hide Loop;
    LoopBounds(st.Avail(), st.source.plan, |st.buffer|, ToEnd, st.limit);
    LoopStops(st.Avail(), st.source.plan, |st.buffer|, ToEnd, st.limit);
  }

  /** Against a buffer with `free` bytes of room, from a reader that always fills the slice. */
  lemma PeekToEndCalls(st: State)
    requires st.source.plan == Greedy && st.limit.AtMost? && |st.buffer| <= st.limit.max <= |st.Unread()|
    ensures Pumped(st, ToEnd).calls == DrainCalls(st.limit.max - |st.buffer|)
    ensures PeekToEnd(st).result == Failed(st.limit.refusal)
  {
    hide Loop, DrainCalls;
    GreedyCallCount(st.Avail(), |st.buffer|, st.limit);
  }

  // ---- peek_to_string ----

  /** With a reader that does not fail and enough room, the verdict is that on the whole unread stream,
      however the peeked bytes and the reads split its code points. */
  lemma VerdictIsChunkIndependent(st: State)
    requires Steady(st.source.plan) && st.limit.Admits(|st.Unread()| + 1)
    ensures var step := PeekToString(st); var all := st.Unread();
            if ValidUtf8(all) then step.result == Ready(|all|) && step.out == all
            else step.result == Failed(InvalidData) && step.out == []
    ensures !Hopeless(st.buffer) ==> PeekToString(st).state.buffer == st.Unread()
  {
    hide Loop, FromUtf8, ValidUtf8;
    SteadyToEnd(st.Avail(), st.source.plan, |st.buffer|, st.limit);
    FromUtf8IsGrammar(st.Unread());
    assert Settle(st, ToEnd).buffer == st.Unread();
    if Hopeless(st.buffer) { HopelessForever(st.buffer, st.source.remaining); }
  }

  /** The up-front check refuses exactly the peek buffers that no stream behind them could make valid,
      and then nothing at all is touched. */
  lemma EarlyRejectionIsExact(st: State)
    ensures Hopeless(st.buffer) ==> PeekToString(st) == Step(st, Failed(InvalidData), [])
    ensures Hopeless(st.buffer) <==> forall t: seq<Byte> :: !ValidUtf8(st.buffer + t)
    ensures Hopeless(st.buffer) <==>
            forall t: seq<Byte> ::
              PeekToString(State(st.buffer, Source(t, Greedy), Unlimited)).result == Failed(InvalidData)
  {
    hide Loop, FromUtf8, ValidUtf8;
    HopelessIsExact(st.buffer);
    if !Hopeless(st.buffer) {
      var t := Completion(st.buffer);
      var st' := State(st.buffer, Source(t, Greedy), Unlimited);
      VerdictIsChunkIndependent(st');
      assert PeekToString(st').result.Ready?;
    }
  }

  /** When the loop ends in an error of the reader or of the buffer, the caller's string gains the longest valid
      prefix of the final peek buffer; when it ends at the end of the stream, all of it or nothing. */
  lemma StringGainsLongestValidPrefix(st: State)
    ensures var step := PeekToString(st);
            && ValidUtf8(step.out) && step.out <= step.state.buffer
            && (step.result.Ready? ==> step.out == step.state.buffer)
            && (Pumped(st, ToEnd).stop.Broken? && !Hopeless(st.buffer) ==>
                  && step.result == Failed(Pumped(st, ToEnd).stop.error)
                  && forall p :: |step.out| < p <= |step.state.buffer| ==> !ValidUtf8(step.state.buffer[..p]))
            && (step.result.Failed? && !Pumped(st, ToEnd).stop.Broken? ==>
                  step.result == Failed(InvalidData) && step.out == [] && !ValidUtf8(step.state.buffer))
  {
    hide Loop, FromUtf8, ValidUtf8;
    var all := PeekToString(st).state.buffer;
    FromUtf8IsGrammar([]);
    assert FromUtf8([]).Good? by { NothingIsGood(); }
    FromUtf8IsGrammar(all);
    ValidUpToIsLongest(all);
    if Hopeless(st.buffer) { HopelessForever(st.buffer, []); assert st.buffer + [] == st.buffer; }
  }

  lemma NothingIsGood()
    ensures FromUtf8([]).Good?
  {
  }

  /** The change log (0.6.1): when the consumed bytes are not valid UTF-8, a failure leaves the string unchanged. */
  ghost predicate KeepsStringOnInvalid(st: State) {
    var step := PeekToString(st);
    step.result.Failed? && !ValidUtf8(step.state.buffer) ==> step.out == []
  }

  /** That holds whatever the reader and the buffer do if and only if the bytes peeked before the call are already
      hopeless, so that the reader is not even called. */
  lemma StringKeptIffHopeless(buffer: seq<Byte>)
    ensures Hopeless(buffer)
       <==> forall source: Source, limit: Limit :: KeepsStringOnInvalid(State(buffer, source, limit))
  {
    hide Loop, FromUtf8, ValidUtf8;
    if !Hopeless(buffer) {
      var tail := Completion(buffer);
      var st := StringChanged(buffer, tail, Other(0));
      assert !KeepsStringOnInvalid(State(buffer, st.source, st.limit));
    }
  }

  /** A reader that spoils the promise for peeked bytes that `tail` completes: it completes them, goes on with a
      letter and a byte that is never valid, and then fails. */
  lemma StringChanged(buffer: seq<Byte>, tail: seq<Byte>, e: Error) returns (st: State)
    requires !Hopeless(buffer) && ValidUtf8(buffer + tail) && |tail| <= 3 && e != Interrupted
    ensures st.buffer == buffer && st.limit == Unlimited
    ensures PeekToString(st).result == Failed(e) && PeekToString(st).out != []
    ensures !ValidUtf8(PeekToString(st).state.buffer)
  {
    hide Loop, FromUtf8, ValidUtf8;
    var text := buffer + tail + [0x41];
    OneChar([0x41]);
    ConcatValid(buffer + tail, [0x41]);
    ValidThenFF(text);
    st := DeliverThenFail(buffer, tail + [0x41, 0xFF], e);
    var all := text + [0xFF];
    assert buffer + (tail + [0x41, 0xFF]) == all && all[..|text|] == text;
    ValidUpToIsLongest(all);
  }

  lemma DeliverThenFail(buffer: seq<Byte>, more: seq<Byte>, e: Error) returns (st: State)
    requires 0 < |more| <= READ_CHUNK && e != Interrupted
    ensures st.buffer == buffer && st.limit == Unlimited
    ensures Pumped(st, ToEnd).stop == Broken(e) && Settle(st, ToEnd).buffer == buffer + more
  {
    hide Loop;
    var plan := Do(Deliver(|more|), Do(Fail(e), Greedy));
    st := State(buffer, Source(more, plan), Unlimited);
    GrowthIsLargestPowerOfTwo(Unlimited, |buffer|);
    GrowthIsLargestPowerOfTwo(Unlimited, |buffer| + |more|);
    Unfold(|more|, plan, |buffer|, ToEnd, Unlimited);
    Unfold(0, plan.rest, |buffer| + |more|, ToEnd, Unlimited);
    assert more[..|more|] == more;
  }

  /** After a failure of the loop the string is unchanged exactly when not even one code point is whole at the front
      of the final peek buffer. */
  lemma StringUnchangedOnInvalidBytes(st: State)
    requires !Hopeless(st.buffer) && Pumped(st, ToEnd).stop.Broken?
    ensures var step := PeekToString(st); var all := step.state.buffer;
            step.out == [] <==> all == [] || !LeadOf(all).Whole?
  {
  }

  /** A failure of the loop leaves text in the string. */
  ghost predicate GainsTextOnFailure(st: State) {
    Pumped(st, ToEnd).stop.Broken? ==> PeekToString(st).out != []
  }

  /** For peeked bytes that pass that check, the opposite holds whatever the reader and the buffer do, namely that
      every failure of the loop leaves text in the string, if and only if they start with a whole code point. */
  lemma TextGainedIffWholeFront(buffer: seq<Byte>)
    requires !Hopeless(buffer)
    ensures buffer != [] && LeadOf(buffer).Whole?
       <==> forall source: Source, limit: Limit :: GainsTextOnFailure(State(buffer, source, limit))
  {
    hide Loop;
    if buffer != [] && LeadOf(buffer).Whole? {
      forall source: Source, limit: Limit ensures GainsTextOnFailure(State(buffer, source, limit)) {
        WholeFrontIsGained(State(buffer, source, limit));
      }
    } else {
      var st := FailAtOnce(buffer, Other(0));
      StringUnchangedOnInvalidBytes(st);
      assert !GainsTextOnFailure(State(buffer, st.source, st.limit));
    }
  }

  lemma WholeFrontIsGained(st: State)
    requires !Hopeless(st.buffer) && st.buffer != [] && LeadOf(st.buffer).Whole?
    ensures GainsTextOnFailure(st)
  {
    hide Loop;
    WrongLeadStaysWrong(st.buffer, st.source.remaining[..Pumped(st, ToEnd).taken]);
    if Pumped(st, ToEnd).stop.Broken? { StringUnchangedOnInvalidBytes(st); }
  }

  lemma FailAtOnce(buffer: seq<Byte>, e: Error) returns (st: State)
    requires e != Interrupted
    ensures st.buffer == buffer && st.limit == Unlimited
    ensures Pumped(st, ToEnd).stop == Broken(e) && Settle(st, ToEnd).buffer == buffer
  {
    hide Loop;
    var plan := Do(Fail(e), Greedy);
    st := State(buffer, Source([], plan), Unlimited);
    GrowthIsLargestPowerOfTwo(Unlimited, |buffer|);
    Unfold(0, plan, |buffer|, ToEnd, Unlimited);
  }

  /** The text "A", followed by half a code point, then an error: "A" is appended. */
  lemma StringChangedOnInvalidBytes(e: Error)
    requires e != Interrupted
    ensures var step := PeekToString(State([0x41, 0xC3], Source([], Do(Fail(e), Greedy)), Unlimited));
            && step.result == Failed(e) && step.out == [0x41] && !ValidUtf8(step.state.buffer)
  {
    var buffer: seq<Byte> := [0x41, 0xC3];
    assert LeadOf(buffer) == Whole(1) && buffer[1..] == [0xC3];
    assert LeadOf(buffer[1..]) == Cut;
    assert FromUtf8(buffer) == Bad(1, None);
    FromUtf8IsGrammar(buffer);
    var st := State(buffer, Source([], Do(Fail(e), Greedy)), Unlimited);
    Unfold(0, st.source.plan, 2, ToEnd, Unlimited);
    assert Next(ToEnd, Unlimited, 2) == Ask(READ_CHUNK);
    assert Settle(st, ToEnd).buffer == buffer;
  }

  // ---- peek_exact ----

  /** With a reader and a buffer that do not fail: success if and only if the unread stream is long enough. */
  lemma PeekExactSucceedsIff(st: State, total: nat)
    requires Steady(st.source.plan) && st.limit.Admits(Max(|st.buffer|, total))
    ensures var step := PeekExact(st, total); var all := st.Unread();
            && step.result == (if total <= |all| then Ready(total) else Failed(UnexpectedEof))
            && step.out == all[..Min(total, |all|)]
            && step.state.buffer == all[..Max(|st.buffer|, Min(total, |all|))]
  {
    hide Loop;
    SteadyExactly(st.Avail(), st.source.plan, |st.buffer|, total, st.limit);
  }

  /** On every exit: success means precisely the first `total` unread bytes, and the peek buffer never grows
      past the request. */
  lemma PeekExactIsBounded(st: State, total: nat)
    ensures var step := PeekExact(st, total);
            && |step.state.buffer| <= Max(|st.buffer|, total)
            && step.out <= st.Unread() && |step.out| <= total
            && (step.result.Ready? <==> |step.out| == total)
            && (step.result.Ready? ==> step.result.value == total)
    ensures total > |st.buffer| && !st.limit.Admits(total)
        ==> PeekExact(st, total).state == st && PeekExact(st, total).result == Failed(st.limit.refusal)
  {
    hide Loop;
    LoopBounds(st.Avail(), st.source.plan, |st.buffer|, Exactly(total), st.limit);
    Unfold(st.Avail(), st.source.plan, |st.buffer|, Exactly(total), st.limit);
  }

  // ---- peek ----

  /** The reader's first answer that is not an interruption. */
  function Settlement(st: State, want: nat): Poll
    requires want > |st.buffer|
  {
    Answer(st.Avail(), Settled(st.source.plan), want - |st.buffer|)
  }

  /** How a poll of `peek` ends: it reports an interruption or `WouldBlock` only if the buffer itself refuses to
      grow with it; it is pending exactly when nothing is peeked, something is asked for, and the reader has nothing
      now; and when the reader has nothing now but something is peeked, that is a partial answer. */
  lemma PollPeekDiscipline(st: State, want: nat)
    ensures var step := PollPeek(st, want); var calls := want > |st.buffer| && st.limit.Admits(want);
            && (forall e :: e == Interrupted || e == WouldBlock ==>
                 (step.result == Failed(e) <==> want > |st.buffer| && !calls && st.limit.refusal == e))
            && (step.result.Pending? <==> calls && st.buffer == [] && NothingNow(Settlement(st, want)))
            && (calls && st.buffer != [] && NothingNow(Settlement(st, want)) ==>
                 && step.result == Ready(|st.buffer|) && step.out == st.buffer && step.state.buffer == st.buffer
                 && step.state.source.remaining == st.source.remaining)
  {
    hide Settled;
    SettledPlan(st.source.plan);
  }

  /** The trait's documentation rules those two errors out altogether; a buffer that refuses with one of them shows
      that it does not hold of every buffer. */
  lemma PollPeekReportsRefusal(want: nat)
    requires want > 0
    ensures PollPeek(State([], Source([], Greedy), AtMost(0, WouldBlock)), want).result == Failed(WouldBlock)
  {
  }

  /** The polled and the blocking form are the same whenever the reader has something to say. */
  lemma PollPeekIsPeek(st: State, want: nat)
    ensures (want > |st.buffer| && st.limit.Admits(want) ==> !NothingNow(Settlement(st, want)))
        ==> PollPeek(st, want) == Peek(st, want)
    ensures Blocking(st.source.plan) ==> !Peek(st, want).result.Pending?
  {
    SettledPlan(st.source.plan);
  }

  /** A successful peek shows the first unread bytes, at most `want` of them, and nothing only at the end of the
      stream; a failed one shows nothing and leaves the peek buffer and the reader's bytes alone. A request that is
      covered, or that the buffer refuses, does not reach the reader; no interruption gets through. */
  lemma PeekShowsStream(st: State, want: nat)
    ensures var step := Peek(st, want);
            && |step.state.buffer| <= Max(|st.buffer|, want)
            && (step.result.Ready? ==>
                  && step.result.value == |step.out| <= want && step.out == st.Unread()[..|step.out|]
                  && step.out == step.state.buffer[..|step.out|] && |step.out| >= Min(want, |st.buffer|))
            && (!step.result.Ready? ==>
                  && step.out == [] && step.state.buffer == st.buffer
                  && step.state.source.remaining == st.source.remaining)
            && (NoFalseEof(st.source.plan) && step.result == Ready(0) && want > 0 ==> st.Unread() == [])
            && (want <= |st.buffer| ==> step.result == Ready(want) && step.state == st)
            && (want > |st.buffer| && !st.limit.Admits(want) ==>
                  step.result == Failed(st.limit.refusal) && step.state == st)
            && (want > |st.buffer| && st.limit.Admits(want) ==> step.result != Failed(Interrupted))
  {
    SettledPlan(st.source.plan);
  }

  // ---- read ----

  /** A reader that answers `trouble`, `times` times in a row. */
  function Persistent(trouble: Action, times: nat, rest: Plan): Plan {
    if times == 0 then rest else Do(trouble, Persistent(trouble, times - 1, rest))
  }

  /** Every one of the reads of the sizes `wants` reports `report`, and delivers nothing. */
  ghost predicate AllReport(st: State, wants: seq<nat>, report: Poll, end: State)
    decreases |wants|
  {
    if wants == [] then st == end
    else
      var step := Read(st, wants[0]);
      step.result == report && step.out == [] && AllReport(step.state, wants[1..], report, end)
  }

  /** A read of `want` bytes delivers just the peeked ones, and only the reads after it report `report`. */
  ghost predicate HeldBackOnce(st: State, want: nat, wants: seq<nat>, report: Poll, end: State) {
    var first := Read(st, want);
    first.result == Ready(|st.buffer|) && first.out == st.buffer && AllReport(first.state, wants, report, end)
  }

  /** An error, or a stall, that the reader meets while it tops up peeked bytes is held back for exactly that one
      call, which delivers the peeked bytes; each later call reports it, for as long as it lasts, and no byte is
      lost or repeated. */
  lemma ReadDelaysTrouble(st: State, want: nat, wants: seq<nat>, trouble: Action, rest: Plan)
    requires !trouble.Deliver? && st.source.plan == Persistent(trouble, |wants| + 1, rest)
    requires 0 < |st.buffer| < want
    ensures var report := if trouble.Stall? then Pending else Failed(trouble.error);
            HeldBackOnce(st, want, wants, report, State([], Source(st.source.remaining, rest), st.limit))
  {
    TroublePersists(Read(st, want).state, wants, trouble, rest);
  }

  lemma {:induction false} TroublePersists(st: State, wants: seq<nat>, trouble: Action, rest: Plan)
    requires !trouble.Deliver? && st.source.plan == Persistent(trouble, |wants|, rest) && st.buffer == []
    ensures var report := if trouble.Stall? then Pending else Failed(trouble.error);
            AllReport(st, wants, report, State([], Source(st.source.remaining, rest), st.limit))
    decreases |wants|
  {
    if wants != [] {
      var step := Read(st, wants[0]);
      assert step.state.source.remaining == st.source.remaining;
      TroublePersists(step.state, wants[1..], trouble, rest);
    }
  }

  // ---- fill_peek_buf ----

  /** Both forms keep the peek buffer within the capacity, gain exactly what they report, and are rolled back if they
      fail or are pending; an interruption of the reader is never reported by the blocking form, and always by the
      future, which a full buffer spares. */
  lemma FillPeekBufIsBounded(st: State, cap: nat)
    requires cap >= |st.buffer|
    ensures var step := FillPeekBuf(st, cap);
            && step.state.Unread() == st.Unread() && |step.state.buffer| <= cap
            && |step.state.buffer| == |st.buffer| + (if step.result.Ready? then step.result.value else 0)
            && (step.result == Failed(Interrupted) ==> !st.limit.Admits(cap) && st.limit.refusal == Interrupted)
    ensures var step := PollFillPeekBuf(st, cap);
            && step.state.Unread() == st.Unread() && |step.state.buffer| <= cap
            && |step.state.buffer| == |st.buffer| + (if step.result.Ready? then step.result.value else 0)
            && (cap == |st.buffer| ==> step.result == Ready(0) && step.state == st)
            && (step.result == Failed(Interrupted) <==>
                  && cap > |st.buffer|
                  && if st.limit.Admits(cap) then st.source.plan.Do? && st.source.plan.first == Fail(Interrupted)
                     else st.limit.refusal == Interrupted)
  {
    hide Settled, Blocking, Steady, NoFalseEof;
    SettledPlan(st.source.plan);
  }

  lemma {:induction false} SettledIsSmaller(plan: Plan)
    ensures PlanLength(Settled(plan)) <= PlanLength(plan)
    ensures Settled(plan) == plan <==> plan.Greedy? || plan.first != Fail(Interrupted)
    ensures plan.Do? ==> PlanLength(Rest(Settled(plan))) < PlanLength(plan)
  {
    if plan.Do? { SettledIsSmaller(plan.rest); }
  }

  /** The two forms agree exactly when the buffer refuses, or has room and the reader is not interrupted, or has
      no room and the reader has nothing planned: only the blocking form retries, only the polled form skips a
      full buffer. */
  lemma FillFormsAgreeIff(st: State, cap: nat)
    requires cap >= |st.buffer| && st.limit.Admits(|st.buffer|)
    ensures FillPeekBuf(st, cap) == PollFillPeekBuf(st, cap)
       <==> || !st.limit.Admits(cap)
            || (cap > |st.buffer| && (st.source.plan.Greedy? || st.source.plan.first != Fail(Interrupted)))
            || (cap == |st.buffer| && st.source.plan.Greedy?)
  {
    SettledIsSmaller(st.source.plan);
    SettledPlan(st.source.plan);
    var plan := st.source.plan;
    if st.limit.Admits(cap) {
      assert FillPeekBuf(st, cap).state.source.plan == Rest(Settled(plan));
      if cap == |st.buffer| {
        assert PollFillPeekBuf(st, cap).state.source.plan == plan;
        assert st.buffer + st.source.remaining[..0] == st.buffer;
      }
    }
  }
}
