/** What gets through from the reader to the caller: which answer is reported, and how many bytes are delivered. */
module Reports {
  import opened Io
  import opened Growth
  import opened Pump
  import opened Utf8
  import opened Machine

  // ---- read ----

  /** A read past the peeked bytes delivers them and whatever a read of the missing part, with nothing peeked, would
      deliver; one that they cover delivers the first of them, and the reader is not called. */
  lemma ReadIsPeekedThenReader(st: State, want: nat)
    requires st.buffer != []
    ensures Read(st, want).result == Ready(|Read(st, want).out|)
    ensures want > |st.buffer| ==>
              var rest := Read(st.(buffer := []), want - |st.buffer|);
              Read(st, want).out == st.buffer + rest.out && Read(st, want).state == rest.state
    ensures want <= |st.buffer| ==>
              Read(st, want).out == st.buffer[..want] && Read(st, want).state.source == st.source
  {
  }

  /** With nothing peeked, a read is one call of the reader on the whole slice: its error or stall is reported at
      once, and a delivery reaches the caller as far as the slice has room. */
  lemma ReadIsOneCall(st: State, want: nat)
    requires st.buffer == [] && st.source.plan.Do?
    ensures var step := Read(st, want); var action := st.source.plan.first;
            && step.state.source.plan == st.source.plan.rest
            && (action.Fail? ==> step.result == Failed(action.error))
            && (action.Stall? ==> step.result == Pending)
            && (action.Deliver? ==>
                  step.result.Ready? && step.out == st.Unread()[..Min(action.most, Min(want, |st.Unread()|))])
  {
  }

  /** From a reader that always fills the slice, a read returns all that there is, up to its size. */
  lemma GreedyReadIsFull(st: State, want: nat)
    requires st.source.plan == Greedy
    ensures Read(st, want).out == st.Unread()[..Min(want, |st.Unread()|)]
    ensures Read(st, want).result == Ready(Min(want, |st.Unread()|)) && Read(st, want).state.source.plan == Greedy
  {
    hide NoFalseEof;
    ReadBranches(st, want);
  }

  // ---- fill_buf and consume ----

  /** All the peeked bytes are shown, without a call of the reader; with none, what the reader shows or reports. */
  lemma FillBufShowsAll(st: State)
    ensures st.buffer <= FillBuf(st).out
    ensures st.buffer != [] ==> FillBuf(st) == Step(st, Ready(|st.buffer|), st.buffer)
    ensures st.buffer == [] && st.source.plan.Greedy? ==> FillBuf(st) == Step(st, Ready(|st.Unread()|), st.Unread())
    ensures st.buffer == [] && st.source.plan.Do? ==>
              var step := FillBuf(st); var action := st.source.plan.first;
              && step.state.source == Source(st.source.remaining, st.source.plan.rest)
              && (action.Fail? ==> step.result == Failed(action.error))
              && (action.Stall? ==> step.result == Pending)
              && (action.Deliver? ==>
                    step.result.Ready? && step.out == st.Unread()[..Min(action.most, |st.Unread()|)])
  {
    assert st.source == Advance(st.source, 0, st.source.plan);
  }

  /** `consume` takes all the peeked bytes and leaves the reader alone, so that the stream goes on with what the
      reader still has. */
  lemma ConsumeTakesAllPeeked(st: State)
    ensures Consume(st).out == st.buffer && Consume(st).result == Ready(|st.buffer|)
    ensures Consume(st).state.source == st.source && Consume(st).state.Unread() == st.source.remaining
  {
  }

  /** Consuming step by step is consuming at once, and what the reader will answer is not affected. */
  lemma ConsumeBufAddsUp(st: State, a: nat, b: nat)
    requires a + b <= |st.Unread()|
    ensures ConsumeBuf(ConsumeBuf(st, a), b) == ConsumeBuf(st, a + b)
    ensures ConsumeBuf(st, a).source.plan == st.source.plan
  {
  }

  // ---- peek ----

  /** A peek past the peeked bytes shows what the same read would deliver of the reader past its interruptions, and
      leaves the reader where that read would; but it reports the reader's error or stall, which the read holds back. */
  lemma PeekIsReadAhead(st: State, want: nat)
    requires want > |st.buffer| && st.limit.Admits(want)
    ensures var step := Peek(st, want); var plan := Settled(st.source.plan); var read := Read(Retried(st), want);
            && step.state.source == read.state.source
            && (step.result.Ready? <==> plan.Greedy? || plan.first.Deliver?)
            && (step.result.Ready? ==> step.out == read.out && step.state.buffer == read.out)
            && (plan.Do? && plan.first.Fail? ==> step.result == Failed(plan.first.error))
            && (plan.Do? && plan.first.Stall? ==> step.result == Pending)
  {
    hide Settled;
  }

  lemma GreedyPeekIsFull(st: State, want: nat)
    requires st.source.plan == Greedy && st.limit.Admits(Max(want, |st.buffer|))
    ensures Peek(st, want).out == st.Unread()[..Min(want, |st.Unread()|)]
    ensures PollPeek(st, want) == Peek(st, want)
  {
    if want > |st.buffer| {
      PeekIsReadAhead(st, want);
      GreedyReadIsFull(st, want);
    }
  }

  // ---- peek_to_end ----

  /** With any reader: success means the whole stream, unless the reader's first trouble is a false end of file; a
      failure is the reader's first trouble, or the refusal of one byte more; pending is a first trouble that stalls. */
  lemma PeekToEndReports(st: State)
    ensures var step := PeekToEnd(st); var plan := st.source.plan;
            && (step.result.Ready? ==> step.out == st.Unread() || Meets(plan, Deliver(0)))
            && (NoFalseEof(plan) && step.result.Ready? ==> step.out == st.Unread())
            && (step.result.Failed? ==>
                  || Meets(plan, Fail(step.result.error))
                  || (!st.limit.Admits(|step.out| + 1) && step.result.error == st.limit.refusal))
            && (step.result.Pending? ==> Meets(plan, Stall))
  {
    hide Loop, NoFalseEof;
    LoopMeetsFirstTrouble(st.Avail(), st.source.plan, |st.buffer|, ToEnd, st.limit);
    LoopBounds(st.Avail(), st.source.plan, |st.buffer|, ToEnd, st.limit);
  }

  /** Conversely, with enough bytes and room for everything announced before the first trouble, that trouble is what
      is reported, with all deliveries and interruptions before it; the reader is left just behind it. */
  lemma PeekToEndMeetsTrouble(st: State)
    requires Trouble(st.source.plan).Do? && Announced(st.source.plan) <= st.Avail()
    requires st.limit.Admits(|st.buffer| + Announced(st.source.plan) + 1)
    ensures var step := PeekToEnd(st); var trouble := Trouble(st.source.plan);
            && (trouble.first.Fail? ==> step.result == Failed(trouble.first.error))
            && (trouble.first.Stall? ==> step.result == Pending)
            && (trouble.first.Deliver? ==> step.result == Ready(|step.out|))
            && step.state.source.plan == trouble.rest
            && |st.buffer| <= |step.out| <= |st.buffer| + Announced(st.source.plan)
            && (st.limit.Unlimited? && Within(st.source.plan, READ_CHUNK) ==>
                  step.out == st.Unread()[..|st.buffer| + Announced(st.source.plan)])
  {
    hide Loop, Within;
    ToEndStopsAtTrouble(st.Avail(), st.source.plan, |st.buffer|, st.limit);
  }

  // ---- peek_to_string ----

  /** The same for text: besides, a failure may be the verdict on the bytes. */
  lemma PeekToStringReports(st: State)
    ensures var step := PeekToString(st); var plan := st.source.plan; var all := step.state.buffer;
            && (step.result.Ready? ==>
                  && step.result.value == |step.out| && step.out == all && ValidUtf8(all)
                  && (all == st.Unread() || Meets(plan, Deliver(0))))
            && (step.result.Failed? ==>
                  || Meets(plan, Fail(step.result.error))
                  || (!st.limit.Admits(|all| + 1) && step.result.error == st.limit.refusal)
                  || (step.result.error == InvalidData && step.out == [] && !ValidUtf8(all)))
            && (step.result.Pending? ==> step.out == [] && Meets(plan, Stall))
  {
    hide Loop, FromUtf8, ValidUtf8, ValidUpTo, NoFalseEof;
    LoopMeetsFirstTrouble(st.Avail(), st.source.plan, |st.buffer|, ToEnd, st.limit);
    LoopBounds(st.Avail(), st.source.plan, |st.buffer|, ToEnd, st.limit);
    FromUtf8IsGrammar(PeekToString(st).state.buffer);
    if Hopeless(st.buffer) {
      HopelessForever(st.buffer, []);
      assert st.buffer + [] == st.buffer;
    }
  }

  lemma PeekToStringMeetsTrouble(st: State)
    requires !Hopeless(st.buffer)
    requires Trouble(st.source.plan).Do? && Announced(st.source.plan) <= st.Avail()
    requires st.limit.Admits(|st.buffer| + Announced(st.source.plan) + 1)
    ensures var step := PeekToString(st); var trouble := Trouble(st.source.plan);
            && (trouble.first.Fail? ==> step.result == Failed(trouble.first.error))
            && (trouble.first.Stall? ==> step.result == Pending)
            && (trouble.first.Deliver? ==>
                  var all := step.state.buffer;
                  step.result == if ValidUtf8(all) then Ready(|all|) else Failed(InvalidData))
            && step.state == PeekToEnd(st).state
  {
    hide Loop, FromUtf8, ValidUtf8, ValidUpTo;
    ToEndStopsAtTrouble(st.Avail(), st.source.plan, |st.buffer|, st.limit);
    FromUtf8IsGrammar(PeekToString(st).state.buffer);
  }

  // ---- peek_exact ----

  /** With any reader: the caller's slice starts with all that was obtained, on every exit; a failure is the reader's
      first trouble, a refusal of the request, or the end of a stream that is too short, unless that end is false. */
  lemma PeekExactReports(st: State, total: nat)
    ensures var step := PeekExact(st, total); var plan := st.source.plan;
            && step.out == step.state.buffer[..Min(total, |step.state.buffer|)]
            && (step.result.Failed? ==>
                  || Meets(plan, Fail(step.result.error))
                  || (total > |st.buffer| && !st.limit.Admits(total) && step.result.error == st.limit.refusal)
                  || (step.result.error == UnexpectedEof && (|st.Unread()| < total || Meets(plan, Deliver(0)))))
            && (step.result.Pending? ==> Meets(plan, Stall))
    ensures PeekExact(st, total).result == Failed(UnexpectedEof) && st.limit.Admits(Max(total, |st.buffer|))
            && NoFalseEof(st.source.plan) && !Meets(st.source.plan, Fail(UnexpectedEof))
        ==> |st.Unread()| < total
  {
    hide Loop, NoFalseEof;
    LoopMeetsFirstTrouble(st.Avail(), st.source.plan, |st.buffer|, Exactly(total), st.limit);
    LoopBounds(st.Avail(), st.source.plan, |st.buffer|, Exactly(total), st.limit);
  }

  /** Conversely, with enough bytes for everything announced before the first trouble: success if and only if that is
      enough for the request; otherwise the trouble is what is reported, with precisely the announced bytes. */
  lemma PeekExactMeetsTrouble(st: State, total: nat)
    requires Trouble(st.source.plan).Do? && Announced(st.source.plan) <= st.Avail()
    requires st.limit.Admits(Max(|st.buffer|, total))
    ensures var step := PeekExact(st, total); var trouble := Trouble(st.source.plan);
            var got := |st.buffer| + Announced(st.source.plan);
            if total <= got then step.result == Ready(total) && step.out == st.Unread()[..total]
            else
              && (trouble.first.Fail? ==> step.result == Failed(trouble.first.error))
              && (trouble.first.Stall? ==> step.result == Pending)
              && (trouble.first.Deliver? ==> step.result == Failed(UnexpectedEof))
              && step.state.source.plan == trouble.rest
              && step.out == step.state.buffer == st.Unread()[..got]
  {
    hide Loop;
    ExactlyStopsAtTrouble(st.Avail(), st.source.plan, |st.buffer|, total, st.limit);
  }

  /** From a reader that always fills the slice, the missing bytes are asked for at once. */
  lemma PeekExactCalls(st: State, total: nat)
    requires st.source.plan == Greedy && st.limit.Admits(Max(|st.buffer|, total)) && total <= |st.Unread()|
    ensures Pumped(st, Exactly(total)).calls == if total <= |st.buffer| then 0 else 1
  {
    hide Loop;
    Unfold(st.Avail(), Greedy, |st.buffer|, Exactly(total), st.limit);
    if total > |st.buffer| {
      ExactlyFull(st.Avail() - (total - |st.buffer|), Greedy, total, total, st.limit);
    }
  }

  // ---- fill_peek_buf ----

  /** From a reader that always fills the slice, the peek buffer is filled to its capacity, or with the whole stream. */
  lemma GreedyFillIsFull(st: State, cap: nat)
    requires cap >= |st.buffer| && st.limit.Admits(cap) && st.source.plan == Greedy
    ensures FillPeekBuf(st, cap).state.buffer == st.Unread()[..Min(cap, |st.Unread()|)]
    ensures FillPeekBuf(st, cap) == PollFillPeekBuf(st, cap)
  {
    assert st.buffer + st.source.remaining[..0] == st.buffer;
    assert st.source == Advance(st.source, 0, Greedy);
  }

  /** One poll with room is one call of the reader on all of it, reported as it is. */
  lemma FillIsOneCall(st: State, cap: nat)
    requires cap > |st.buffer| && st.limit.Admits(cap) && st.source.plan.Do?
    ensures var step := PollFillPeekBuf(st, cap); var action := st.source.plan.first;
            && step.state.source.plan == st.source.plan.rest
            && (action.Fail? ==> step.result == Failed(action.error))
            && (action.Stall? ==> step.result == Pending)
            && (action.Deliver? ==>
                  && step.result.Ready?
                  && step.state.buffer == st.Unread()[..Min(|st.buffer| + action.most, Min(cap, |st.Unread()|))])
  {
  }

  /** The blocking form is that call on the reader past its interruptions; it makes it even if the buffer is full. */
  lemma FillRetries(st: State, cap: nat)
    requires cap >= |st.buffer| && st.limit.Admits(cap)
    ensures cap > |st.buffer| ==> FillPeekBuf(st, cap) == PollFillPeekBuf(Retried(st), cap)
    ensures cap == |st.buffer| ==>
              var step := FillPeekBuf(st, cap); var plan := Settled(st.source.plan);
              && step.state == st.(source := Source(st.source.remaining, Rest(plan)))
              && (plan.Do? && plan.first.Fail? ==> step.result == Failed(plan.first.error))
              && (plan.Greedy? || plan.first.Deliver? ==> step.result == Ready(0))
  {
    SettledTwice(st.source.plan);
  }

  lemma {:induction false} SettledTwice(plan: Plan)
    ensures Settled(Settled(plan)) == Settled(plan)
  {
    if plan.Do? { SettledTwice(plan.rest); }
  }
}
