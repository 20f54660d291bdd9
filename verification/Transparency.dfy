/** Whole runs: whatever operations are mixed, and whatever the reader and the buffer do,
    no byte is lost, repeated, reordered or invented. */
module Transparency {
  import opened Io
  import opened Growth
  import opened Pump
  import opened Utf8
  import opened Machine

  /** One call, or one poll of a future that is dropped if it is still pending.
      `OpBufRead(amt)` is a client of `BufRead`: `fill_buf`, then `consume` of at most what was shown.
      `OpDrainToString` is a later poll of `peek_to_string`, which does not check the peeked bytes again. */
  datatype Op =
    | OpRead(want: nat) | OpBufRead(amt: nat) | OpConsume(inPlace: bool)
    | OpPeek(want: nat) | OpPollPeek(want: nat) | OpPeekExact(total: nat)
    | OpPeekToEnd | OpPeekToString | OpDrainToString | OpFillBuf
    | OpFillPeekBuf(spare: nat) | OpPollFillPeekBuf(spare: nat)

  function Exec(op: Op, st: State): Step {
    match op
    case OpRead(want) => Read(st, want)
    case OpBufRead(amt) =>
      var shown := FillBuf(st);
      var used := if shown.result.Ready? then Min(amt, |shown.out|) else 0;
      Step(ConsumeBuf(shown.state, used), shown.result, shown.out[..used])
    case OpConsume(_) => Consume(st)
    case OpPeek(want) => Peek(st, want)
    case OpPollPeek(want) => PollPeek(st, want)
    case OpPeekExact(total) => PeekExact(st, total)
    case OpPeekToEnd => PeekToEnd(st)
    case OpPeekToString => PeekToString(st)
    case OpDrainToString => DrainToString(st)
    case OpFillBuf => FillBuf(st)
    case OpFillPeekBuf(spare) => FillPeekBuf(st, |st.buffer| + spare)
    case OpPollFillPeekBuf(spare) => PollFillPeekBuf(st, |st.buffer| + spare)
  }

  /** The operations that take bytes out of the stream. The others only look ahead. */
  predicate Takes(op: Op) { op.OpRead? || op.OpBufRead? || op.OpConsume? }

  function Taken(op: Op, st: State): seq<Byte> {
    if Takes(op) then Exec(op, st).out else []
  }

  /** `after` is `before` with some bytes moved from the reader to the end of the peek buffer. */
  ghost predicate LooksAhead(before: State, after: State) {
    && after.limit == before.limit
    && exists n: nat, plan: Plan :: n <= before.Avail() && after == before.Take(n, plan)
  }

  lemma LookingAheadKeepsStream(before: State, after: State)
    requires LooksAhead(before, after)
    ensures after.Unread() == before.Unread() && before.buffer <= after.buffer
  {
  }

  predicate IsLoop(op: Op) { op.OpPeekExact? || op.OpPeekToEnd? || op.OpPeekToString? || op.OpDrainToString? }

  lemma LoopsOnlyLookAhead(op: Op, st: State)
    requires IsLoop(op)
    ensures LooksAhead(st, Exec(op, st).state)
    ensures Exec(op, st).out <= Exec(op, st).state.buffer <= st.Unread()
  {
    hide Loop, Pumped, FromUtf8, ValidUpTo;
    assert st == st.Take(0, st.source.plan);
    var goal := if op.OpPeekExact? then Exactly(op.total) else ToEnd;
    assert Settle(st, goal) == st.Take(Pumped(st, goal).taken, Pumped(st, goal).plan);
  }

  lemma PeekLooksAhead(st: State, want: nat)
    ensures LooksAhead(st, Peek(st, want).state) && Peek(st, want).out <= Peek(st, want).state.buffer
    ensures PollPeek(st, want).state == Peek(st, want).state
    ensures PollPeek(st, want).out <= PollPeek(st, want).state.buffer
  {
    hide Count, Answer, Settled;
    assert st == st.Take(0, st.source.plan);
  }

  lemma FillLooksAhead(st: State, cap: nat)
    requires cap >= |st.buffer|
    ensures LooksAhead(st, FillPeekBuf(st, cap).state) && FillPeekBuf(st, cap).out == []
    ensures LooksAhead(st, PollFillPeekBuf(st, cap).state) && PollFillPeekBuf(st, cap).out == []
  {
    hide Count, Answer, Settled;
    assert st == st.Take(0, st.source.plan);
  }

  lemma ShowingLooksAhead(st: State)
    ensures LooksAhead(st, FillBuf(st).state)
  {
    hide Count, Answer, NoFalseEof;
    assert FillBuf(st).state == st.Take(0, if st.buffer == [] then Rest(st.source.plan) else st.source.plan);
  }

  lemma CallsOnlyLookAhead(op: Op, st: State)
    requires !Takes(op) && !IsLoop(op)
    ensures LooksAhead(st, Exec(op, st).state)
    ensures if op.OpFillBuf? then Exec(op, st).out <= st.Unread() else Exec(op, st).out <= Exec(op, st).state.buffer
  {
    hide Peek, PollPeek, FillPeekBuf, PollFillPeekBuf, FillBuf, LooksAhead, NoFalseEof;
    match op {
      case OpPeek(want) => PeekLooksAhead(st, want);
      case OpPollPeek(want) => PeekLooksAhead(st, want);
      case OpFillPeekBuf(spare) => FillLooksAhead(st, |st.buffer| + spare);
      case OpPollFillPeekBuf(spare) => FillLooksAhead(st, |st.buffer| + spare);
      case OpFillBuf => ShowingLooksAhead(st);
    }
  }

  /** No ghost bytes: after any peek, on every exit, the peek buffer is the old one followed by exactly the bytes
      that the reader gave up, and what the caller sees is a beginning of the unread stream. */
  lemma PeeksOnlyLookAhead(op: Op, st: State)
    requires !Takes(op)
    ensures LooksAhead(st, Exec(op, st).state)
    ensures Exec(op, st).out <= st.Unread()
    ensures !op.OpFillBuf? ==> Exec(op, st).out <= Exec(op, st).state.buffer
  {
    hide Exec, LooksAhead;
    if IsLoop(op) {
      LoopsOnlyLookAhead(op, st);
    } else {
      CallsOnlyLookAhead(op, st);
    }
    LookingAheadKeepsStream(st, Exec(op, st).state);
  }

  /** Consuming some of what `fill_buf` shows takes exactly those bytes, wherever they came from. */
  lemma ShownIsConsumed(st: State, used: nat)
    requires used <= |FillBuf(st).out|
    ensures used <= |FillBuf(st).state.Unread()|
    ensures FillBuf(st).out[..used] + ConsumeBuf(FillBuf(st).state, used).Unread() == st.Unread()
  {
    hide FillBuf, ConsumeBuf, NoFalseEof;
    assert FillBuf(st).out[..used] == st.Unread()[..used];
  }

  /** One operation: what it takes, and the unread stream after it, are the unread stream before it. */
  lemma OpIsTransparent(op: Op, st: State)
    ensures Taken(op, st) + Exec(op, st).state.Unread() == st.Unread()
    ensures Exec(op, st).state.limit == st.limit
  {
    hide Loop, FromUtf8, ValidUpTo, Settled, NoFalseEof;
    if !Takes(op) {
      hide Exec;
      PeeksOnlyLookAhead(op, st);
      LookingAheadKeepsStream(st, Exec(op, st).state);
    } else if op.OpBufRead? {
      var shown := FillBuf(st);
      ShownIsConsumed(st, if shown.result.Ready? then Min(op.amt, |shown.out|) else 0);
    }
  }

  function RunOps(ops: seq<Op>, st: State): State {
    if ops == [] then st else RunOps(ops[1..], Exec(ops[0], st).state)
  }

  /** The bytes delivered by reads and discarded by consumes, in order. */
  function TakenBy(ops: seq<Op>, st: State): seq<Byte> {
    if ops == [] then [] else Taken(ops[0], st) + TakenBy(ops[1..], Exec(ops[0], st).state)
  }

  /** Whole runs: consumed bytes, peek buffer and reader always add up to the original stream, so the consumed ones
      are a beginning of it. */
  lemma {:induction false} RunsAreTransparent(ops: seq<Op>, st: State)
    ensures TakenBy(ops, st) + RunOps(ops, st).Unread() == st.Unread()
    ensures TakenBy(ops, st) <= st.Unread()
  {
    if ops != [] {
      OpIsTransparent(ops[0], st);
      RunsAreTransparent(ops[1..], Exec(ops[0], st).state);
    }
  }

  lemma RunOfNone(st: State)
    ensures RunOps([], st) == st && TakenBy([], st) == []
  {
  }

  lemma RunFrom(ops: seq<Op>, st: State)
    requires ops != []
    ensures RunOps(ops, st) == RunOps(ops[1..], Exec(ops[0], st).state)
    ensures TakenBy(ops, st) == Taken(ops[0], st) + TakenBy(ops[1..], Exec(ops[0], st).state)
  {
    hide Exec, Taken;
  }

  /** A run in two parts. */
  lemma {:induction false} RunsAppend(first: seq<Op>, second: seq<Op>, st: State)
    ensures RunOps(first + second, st) == RunOps(second, RunOps(first, st))
    ensures TakenBy(first + second, st) == TakenBy(first, st) + TakenBy(second, RunOps(first, st))
  {
    hide Exec, Taken;
    if first == [] {
      assert first + second == second;
      RunOfNone(st);
      assert [] + TakenBy(second, st) == TakenBy(second, st);
    } else {
      var all := first + second;
      assert all[0] == first[0] && all[1..] == first[1..] + second;
      RunFrom(all, st);
      RunFrom(first, st);
      hide RunOps, TakenBy;
      RunsAppend(first[1..], second, Exec(first[0], st).state);
    }
  }

  /** A run, and one operation more. */
  lemma RunThen(ops: seq<Op>, op: Op, st: State)
    ensures RunOps(ops + [op], st) == Exec(op, RunOps(ops, st)).state
    ensures TakenBy(ops + [op], st) == TakenBy(ops, st) + Taken(op, RunOps(ops, st))
  {
    hide Exec, Taken;
    RunsAppend(ops, [op], st);
  }

  lemma {:induction false} PeekingTakesNothing(ops: seq<Op>, st: State)
    requires forall op | op in ops :: !Takes(op)
    ensures TakenBy(ops, st) == []
    ensures RunOps(ops, st).Unread() == st.Unread() && st.buffer <= RunOps(ops, st).buffer
  {
    if ops != [] {
      PeeksOnlyLookAhead(ops[0], st);
      LookingAheadKeepsStream(st, Exec(ops[0], st).state);
      PeekingTakesNothing(ops[1..], Exec(ops[0], st).state);
    }
  }

  /** What is seen is what is read: bytes at the front of the peek buffer, where every `peek` leaves what it shows, are
      what the next read of that size delivers, whatever other peeks come between, without a call of the reader. */
  lemma WhatIsSeenIsRead(seen: seq<Byte>, more: seq<Op>, st: State)
    requires seen != [] && seen <= st.buffer && forall op | op in more :: !Takes(op)
    ensures Read(RunOps(more, st), |seen|).out == seen
    ensures Read(RunOps(more, st), |seen|).state.source == RunOps(more, st).source
  {
    hide Exec, RunOps;
    PeekingTakesNothing(more, st);
  }

  /** Any two programs on the same stream agree on it, byte for byte, as far as both have read:
      inserting or removing peeks can change how much a read returns, never what. */
  lemma ProgramsAgree(ops1: seq<Op>, ops2: seq<Op>, st: State, i: nat)
    requires i < |TakenBy(ops1, st)| && i < |TakenBy(ops2, st)|
    ensures TakenBy(ops1, st)[i] == TakenBy(ops2, st)[i]
  {
    hide RunOps, TakenBy;
    RunsAreTransparent(ops1, st);
    RunsAreTransparent(ops2, st);
  }

  /** Reads `chunk` bytes at a time, retrying whatever fails or is pending, until a read returns nothing. */
  function ReadAll(st: State, chunk: nat): seq<Byte>
    requires chunk > 0
    decreases st.source.plan, |st.Unread()|
  {
    ReadMakesProgress(st, chunk);
    var step := Read(st, chunk);
    if step.result == Ready(0) then []
    else step.out + ReadAll(step.state, chunk)
  }

  /** A read that does not report the end uses up a planned answer, or delivers a byte. */
  lemma ReadMakesProgress(st: State, chunk: nat)
    requires chunk > 0
    ensures var step := Read(st, chunk);
            && (NoFalseEof(st.source.plan) ==> NoFalseEof(step.state.source.plan))
            && (step.result != Ready(0) ==>
                  || step.state.source.plan < st.source.plan
                  || (step.state.source.plan == st.source.plan && |step.state.Unread()| < |st.Unread()|))
  {
  }

  /** Reading on gives a beginning of the unread stream, and all of it if no end of file is a false one. */
  lemma {:induction false} ReadAllReadsAll(st: State, chunk: nat)
    requires chunk > 0
    ensures ReadAll(st, chunk) <= st.Unread()
    ensures NoFalseEof(st.source.plan) ==> ReadAll(st, chunk) == st.Unread()
    decreases st.source.plan, |st.Unread()|
  {
    hide Read;
    ReadMakesProgress(st, chunk);
    var step := Read(st, chunk);
    if step.result != Ready(0) {
      ReadAllReadsAll(step.state, chunk);
    }
  }

  lemma {:induction false} RunsKeepPromises(ops: seq<Op>, st: State)
    ensures Steady(st.source.plan) ==> Steady(RunOps(ops, st).source.plan)
    ensures NoFalseEof(st.source.plan) ==> NoFalseEof(RunOps(ops, st).source.plan)
  {
    hide Exec, Steady, NoFalseEof;
    if ops != [] {
      ExecKeepsPromises(ops[0], st);
      RunsKeepPromises(ops[1..], Exec(ops[0], st).state);
    }
  }

  lemma ExecKeepsPromises(op: Op, st: State)
    ensures Steady(st.source.plan) ==> Steady(Exec(op, st).state.source.plan)
    ensures NoFalseEof(st.source.plan) ==> NoFalseEof(Exec(op, st).state.source.plan)
  {
    hide Loop, Count, Answer, Settled, FromUtf8, ValidUpTo;
    SettledPlan(st.source.plan);
    var goal := if op.OpPeekExact? then Exactly(op.total) else ToEnd;
    LoopStops(st.Avail(), st.source.plan, |st.buffer|, goal, st.limit);
  }

  /** After the program `ops`, reading on in pieces of `chunk` bytes completes the original stream. */
  ghost predicate SeesAll(ops: seq<Op>, st: State, chunk: nat)
    requires chunk > 0
  {
    TakenBy(ops, st) + ReadAll(RunOps(ops, st), chunk) == st.Unread()
  }

  /** After any program at all, reading on in pieces of any size, retrying whatever fails or is pending, gives a
      beginning of the original stream; all of it, unless the reader has shown an end of file that was none. Every
      byte is seen exactly once, whatever was peeked before. */
  lemma EveryByteOnce(ops: seq<Op>, st: State, chunk: nat)
    requires chunk > 0
    ensures TakenBy(ops, st) + ReadAll(RunOps(ops, st), chunk) <= st.Unread()
    ensures NoFalseEof(st.source.plan) ==> SeesAll(ops, st, chunk)
  {
    hide RunOps, TakenBy, ReadAll, NoFalseEof;
    RunsKeepPromises(ops, st);
    RunsAreTransparent(ops, st);
    ReadAllReadsAll(RunOps(ops, st), chunk);
  }

  /** A false end of file, met by a reader of single bytes before the stream has ended, cuts it short. */
  lemma {:induction false} FalseEofCutsShort(remaining: seq<Byte>, plan: Plan, limit: Limit)
    requires !NoFalseEof(plan) && |remaining| > PlanLength(plan)
    ensures |ReadAll(State([], Source(remaining, plan), limit), 1)| < |remaining|
    decreases plan
  {
    var st := State([], Source(remaining, plan), limit);
    if plan.first != Deliver(0) {
      var step := Read(st, 1);
      FalseEofCutsShort(step.state.source.remaining, plan.rest, limit);
    }
  }

  /** Which readers let every program see every byte: exactly those without a false end of file. */
  lemma EveryByteOnceIff(plan: Plan)
    ensures NoFalseEof(plan)
       <==> forall ops: seq<Op>, buffer: seq<Byte>, remaining: seq<Byte>, limit: Limit, chunk: nat | chunk > 0 ::
              SeesAll(ops, State(buffer, Source(remaining, plan), limit), chunk)
  {
    if NoFalseEof(plan) {
      forall ops: seq<Op>, buffer: seq<Byte>, remaining: seq<Byte>, limit: Limit, chunk: nat | chunk > 0
        ensures SeesAll(ops, State(buffer, Source(remaining, plan), limit), chunk)
      {
        EveryByteOnce(ops, State(buffer, Source(remaining, plan), limit), chunk);
      }
    } else {
      var remaining := seq(PlanLength(plan) + 1, _ => 0);
      var st := State([], Source(remaining, plan), Unlimited);
      FalseEofCutsShort(remaining, plan, Unlimited);
      RunOfNone(st);
      assert !SeesAll([], State([], Source(remaining, plan), Unlimited), 1);
    }
  }
}
