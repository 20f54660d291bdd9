/** What each operation of a peekable does to its state: the peek buffer in front of the reader.
    Blocking calls and polls share these definitions; a blocking reader is one whose plan never stalls. */
module Machine {
  import opened Io
  import opened Growth
  import opened Pump
  import opened Utf8
  import opened Readers

  datatype State = State(buffer: seq<Byte>, source: Source, limit: Limit) {
    /** The stream as its next reader will see it. */
    function Unread(): seq<Byte> { buffer + source.remaining }

    function Avail(): nat { |source.remaining| }

    /** Moves `n` bytes from the reader into the peek buffer. */
    function Take(n: nat, plan: Plan): State
      requires n <= Avail()
    {
      State(buffer + source.remaining[..n], Advance(source, n, plan), limit)
    }

    /** Empties the peek buffer while the reader gives up `n` bytes past it. */
    function Skip(n: nat, plan: Plan): State
      requires n <= Avail()
    {
      State([], Advance(source, n, plan), limit)
    }
  }

  /** The outcome of one operation: the new state, what is reported, and the bytes the caller gets to see. */
  datatype Step = Step(state: State, result: Poll, out: seq<Byte>)

  /** `st` once the reader has been retried past its interruptions. */
  function Retried(st: State): State {
    st.(source := Source(st.source.remaining, Settled(st.source.plan)))
  }

  // ---- Reading ----

  /** `read` / `poll_read` into `want` bytes. It fails or is pending only if it has written nothing; what it
      writes is the beginning of the unread stream; it reports zero for a real request only if nothing is peeked
      and the reader itself reports its end. */
  function Read(st: State, want: nat): (step: Step)
    ensures step.out + step.state.Unread() == st.Unread() && |step.out| <= want
    ensures step.result.Ready? ==> step.result.value == |step.out|
    ensures !step.result.Ready? ==> step.out == [] && st.buffer == [] && step.state.buffer == []
    ensures want > 0 ==>
              (step.result == Ready(0) <==> st.buffer == [] && Answer(st.Avail(), st.source.plan, want) == Ready(0))
    ensures want > 0 && NoFalseEof(st.source.plan) && step.result == Ready(0) ==> st.Unread() == []
  {
    var have := |st.buffer|;
    var plan := st.source.plan;
    if have == 0 then
      var n := Count(st.Avail(), plan, want);
      Step(st.Skip(n, Rest(plan)), Answer(st.Avail(), plan, want), st.source.remaining[..n])
    else if want <= have then
      Step(st.(buffer := st.buffer[want..]), Ready(want), st.buffer[..want])
    else
      var n := Count(st.Avail(), plan, want - have);
      Step(st.Skip(n, Rest(plan)), Ready(have + n), st.buffer + st.source.remaining[..n])
  }

  /** The branches of `Read` that need only the peek buffer, or only the reader; the next lemma has the other. */
  lemma ReadBranches(st: State, want: nat)
    ensures st.buffer == [] ==>
              var n := Count(st.Avail(), st.source.plan, want);
              Read(st, want) == Step(st.Skip(n, Rest(st.source.plan)), Answer(st.Avail(), st.source.plan, want),
                                     st.source.remaining[..n])
    ensures 0 < |st.buffer| && want <= |st.buffer| ==>
              Read(st, want) == Step(st.(buffer := st.buffer[want..]), Ready(want), st.buffer[..want])
  {
    hide Answer, Count, NoFalseEof;
  }

  lemma ReadPastBranch(st: State, want: nat)
    requires 0 < |st.buffer| < want
    ensures var n := Count(st.Avail(), st.source.plan, want - |st.buffer|);
            Read(st, want) == Step(st.Skip(n, Rest(st.source.plan)), Ready(|st.buffer| + n),
                                   st.buffer + st.source.remaining[..n])
  {
    hide Answer, Count, NoFalseEof;
  }

  /** `fill_buf` / `poll_fill_buf`: the peeked bytes if there are any, else whatever the reader shows.
      Either way it is a beginning of the unread stream, and an empty one only if the reader reports its end. */
  function FillBuf(st: State): (step: Step)
    ensures step.out <= st.Unread() && step.state.Unread() == st.Unread() && step.state.buffer == st.buffer
    ensures step.result.Ready? ==> step.result.value == |step.out|
    ensures !step.result.Ready? ==> step.out == [] && st.buffer == []
    ensures NoFalseEof(st.source.plan) && step.result == Ready(0) ==> st.Unread() == []
  {
    var plan := st.source.plan;
    if st.buffer != [] then Step(st, Ready(|st.buffer|), st.buffer)
    else
      var n := Count(st.Avail(), plan, st.Avail());
      Step(st.Skip(0, Rest(plan)), Answer(st.Avail(), plan, st.Avail()), st.source.remaining[..n])
  }

  /** `BufRead::consume`: drops exactly the first `amt` unread bytes, peeked ones first. */
  function ConsumeBuf(st: State, amt: nat): (next: State)
    requires amt <= |st.Unread()|
    ensures next.Unread() == st.Unread()[amt..]
    ensures |next.buffer| == |st.buffer| - Min(amt, |st.buffer|)
  {
    var available := Min(amt, |st.buffer|);
    State(st.buffer[available..], Advance(st.source, amt - available, st.source.plan), st.limit)
  }

  /** `consume` and `consume_in_place`: the peek buffer is handed out, or dropped. */
  function Consume(st: State): Step {
    Step(st.Skip(0, st.source.plan), Ready(|st.buffer|), st.buffer)
  }

  // ---- Peeking once ----

  /** The blocking `peek` into `want` bytes: one call, retried while interrupted, for what the buffer lacks. */
  function Peek(st: State, want: nat): Step {
    var have := |st.buffer|;
    if want <= have then Step(st, Ready(want), st.buffer[..want])
    else if !st.limit.Admits(want) then Step(st, Failed(st.limit.refusal), [])
    else
      var plan := Settled(st.source.plan);
      var n := Count(st.Avail(), plan, want - have);
      var next := st.Take(n, Rest(plan));
      match Answer(st.Avail(), plan, want - have)
      case Ready(_) => Step(next, Ready(have + n), next.buffer)
      case failure => Step(next, failure, [])
  }

  /** The reader has nothing now: it stalled, or answered `WouldBlock`. */
  predicate NothingNow(answer: Poll) {
    answer.Pending? || answer == Failed(WouldBlock)
  }

  /** `poll_peek`: as `peek`, but when the reader has nothing now the peeked bytes are a partial answer,
      and only an empty peek buffer is pending. */
  function PollPeek(st: State, want: nat): Step {
    var once := Peek(st, want);
    if want <= |st.buffer| || !st.limit.Admits(want) || !NothingNow(once.result) then once
    else if st.buffer == [] then once.(result := Pending)
    else Step(once.state, Ready(|st.buffer|), st.buffer)
  }

  /** The peek buffer has been topped up towards `want` bytes: refused, or with the reader's first answer `r` that
      is not an interruption; `next` holds what arrived, and nothing else. */
  ghost predicate ToppedUp(st: State, want: nat, refused: bool, r: Poll, next: State)
    requires want >= |st.buffer|
  {
    if refused then !st.limit.Admits(want) && r == Failed(st.limit.refusal) && next == st
    else
      var plan := Settled(st.source.plan);
      var room := want - |st.buffer|;
      && st.limit.Admits(want) && r == Answer(st.Avail(), plan, room)
      && next == st.Take(Count(st.Avail(), plan, room), Rest(plan))
  }

  lemma ReadTopsUp(st: State, want: nat, grown: seq<Byte>, r: Poll, s: Source, after: seq<Byte>)
    requires |st.buffer| <= want == |grown| && st.limit.Admits(want) && st.buffer <= grown
    requires TailRead(Source(st.source.remaining, Settled(st.source.plan)), grown, |st.buffer|, r, s, after)
    ensures var kept := |st.buffer| + if r.Ready? then r.value else 0;
            kept <= |after| && ToppedUp(st, want, false, r, State(after[..kept], s, st.limit))
  {
    hide Answer, Count, Settled;
    TailIsTaken(Retried(st), grown, r, s, after);
  }

  /** What the peeks make of a top-up. */
  lemma PeekFromTopUp(st: State, want: nat, refused: bool, r: Poll, next: State)
    requires want > |st.buffer| && ToppedUp(st, want, refused, r, next)
    ensures |next.buffer| <= want && (!r.Ready? ==> next.buffer == st.buffer)
    ensures refused ==> r == Failed(st.limit.refusal)
    ensures r.Ready? ==> |next.buffer| == |st.buffer| + r.value
    ensures Peek(st, want) == if r.Ready? then Step(next, Ready(|next.buffer|), next.buffer) else Step(next, r, [])
    ensures PollPeek(st, want)
         == if r.Ready? then Step(next, Ready(|next.buffer|), next.buffer)
            else if refused || !NothingNow(r) then Step(next, r, [])
            else if st.buffer == [] then Step(next, Pending, [])
            else Step(next, Ready(|next.buffer|), next.buffer)
  {
    hide Answer, Count, Settled;
  }

  /** The blocking `fill_peek_buf` of a buffer with capacity `cap`: one call, retried while interrupted. */
  function FillPeekBuf(st: State, cap: nat): Step
    requires cap >= |st.buffer|
  {
    if !st.limit.Admits(cap) then Step(st, Failed(st.limit.refusal), [])
    else
      var plan := Settled(st.source.plan);
      var room := cap - |st.buffer|;
      Step(st.Take(Count(st.Avail(), plan, room), Rest(plan)), Answer(st.Avail(), plan, room), [])
  }

  /** One poll of the `FillPeekBuf` future: no call when full, and interruptions are reported. */
  function PollFillPeekBuf(st: State, cap: nat): Step
    requires cap >= |st.buffer|
  {
    var plan := st.source.plan;
    var room := cap - |st.buffer|;
    if room == 0 then Step(st, Ready(0), [])
    else if !st.limit.Admits(cap) then Step(st, Failed(st.limit.refusal), [])
    else Step(st.Take(Count(st.Avail(), plan, room), Rest(plan)), Answer(st.Avail(), plan, room), [])
  }

  // ---- Peeking in a loop ----

  function Pumped(st: State, goal: Goal): (r: Run)
    ensures r.taken <= st.Avail()
  {
    Loop(st.Avail(), st.source.plan, |st.buffer|, goal, st.limit)
  }

  function Settle(st: State, goal: Goal): State {
    st.Take(Pumped(st, goal).taken, Pumped(st, goal).plan)
  }

  function Report(stop: Stop, value: nat): Poll {
    match stop
    case Broken(e) => Failed(e)
    case Parked => Pending
    case _ => Ready(value)
  }

  /** `peek_to_end`: the caller's vector gains the whole final peek buffer, on every exit. */
  function PeekToEnd(st: State): Step {
    var next := Settle(st, ToEnd);
    Step(next, Report(Pumped(st, ToEnd).stop, |next.buffer|), next.buffer)
  }

  /** `peek_exact` of `total` bytes: the caller's slice starts with what was obtained, on every exit. */
  function PeekExact(st: State, total: nat): Step {
    var next := Settle(st, Exactly(total));
    var stop := Pumped(st, Exactly(total)).stop;
    Step(next, if stop == Eof then Failed(UnexpectedEof) else Report(stop, total),
         next.buffer[..Min(total, |next.buffer|)])
  }

  /** The end of `peek_to_string`, once the loop has stopped with `all` in the peek buffer. */
  function Conclude(stop: Stop, all: seq<Byte>): (Poll, seq<Byte>) {
    match stop
    case Broken(e) => (Failed(e), all[..ValidUpTo(all)])
    case Parked => (Pending, [])
    case _ => if FromUtf8(all).Good? then (Ready(|all|), all) else (Failed(InvalidData), [])
  }

  /** `peek_to_string` past its up-front check; `out` is the text that the caller's string gains. */
  function DrainToString(st: State): Step {
    var next := Settle(st, ToEnd);
    var (result, text) := Conclude(Pumped(st, ToEnd).stop, next.buffer);
    Step(next, result, text)
  }

  function PeekToString(st: State): Step {
    if Hopeless(st.buffer) then Step(st, Failed(InvalidData), []) else DrainToString(st)
  }

  // ---- The loop, round by round ----

  /** The loop towards `goal` that started in `st0` has come to `st`, with `calls` calls to the reader. */
  ghost predicate InLoop(st0: State, goal: Goal, calls: nat, st: State) {
    exists taken: nat ::
      && taken <= st0.Avail() && st == st0.Take(taken, st.source.plan)
      && Pumped(st0, goal) == Before(taken, calls, Pumped(st, goal))
  }

  lemma LoopStarts(st0: State, goal: Goal)
    ensures InLoop(st0, goal, 0, st0)
  {
    hide Loop;
    assert st0 == st0.Take(0, st0.source.plan);
  }

  lemma TakeTwice(st0: State, taken: nat, plan: Plan, n: nat, rest: Plan)
    requires taken + n <= st0.Avail()
    ensures st0.Take(taken, plan).Take(n, rest) == st0.Take(taken + n, rest)
  {
    assert st0.source.remaining[..taken + n] == st0.source.remaining[..taken] + st0.source.remaining[taken..][..n];
  }

  /** After one call into the grown buffer, cutting it to what arrived takes exactly that from the reader. */
  lemma TailIsTaken(st: State, grown: seq<Byte>, r: Poll, s: Source, after: seq<Byte>)
    requires st.buffer <= grown && TailRead(st.source, grown, |st.buffer|, r, s, after)
    ensures var n := Count(st.Avail(), st.source.plan, |grown| - |st.buffer|);
            && r == Answer(st.Avail(), st.source.plan, |grown| - |st.buffer|)
            && n == (if r.Ready? then r.value else 0) && |st.buffer| + n <= |after|
            && State(after[..|st.buffer| + n], s, st.limit) == st.Take(n, Rest(st.source.plan))
  {
  }

  /** One round towards `goal` from `st`: either the buffer refuses, or the reader answers `r` on exactly the
      room asked for; `next` holds what arrived, and nothing else. */
  ghost predicate Round(st: State, goal: Goal, refused: bool, r: Poll, next: State) {
    var d := Next(goal, st.limit, |st.buffer|);
    if refused then d.Refuse? && r == Failed(d.error) && next == st
    else
      && d.Ask? && r == Answer(st.Avail(), st.source.plan, d.room)
      && next == st.Take(Count(st.Avail(), st.source.plan, d.room), Rest(st.source.plan))
  }

  lemma ReadMakesRound(st: State, goal: Goal, grown: seq<Byte>, r: Poll, s: Source, after: seq<Byte>)
    requires st.buffer <= grown && Next(goal, st.limit, |st.buffer|) == Ask(|grown| - |st.buffer|)
    requires TailRead(st.source, grown, |st.buffer|, r, s, after)
    ensures var kept := |st.buffer| + if r.Ready? then r.value else 0;
            kept <= |after| && Round(st, goal, false, r, State(after[..kept], s, st.limit))
  {
    hide TailRead, Answer, Count, Next;
    TailIsTaken(st, grown, r, s, after);
  }

  /** What a round brings: the bytes that arrived, at the end of the buffer. */
  lemma RoundAppends(st: State, goal: Goal, r: Poll, next: State)
    requires Round(st, goal, false, r, next)
    ensures st.buffer <= next.buffer && next.limit == st.limit && next.source.plan == Rest(st.source.plan)
    ensures |next.buffer| == |st.buffer| + (if r.Ready? then r.value else 0)
    ensures !r.Ready? || r.value == 0 ==> next.buffer == st.buffer
    ensures |next.source.remaining| == |st.source.remaining| - (if r.Ready? then r.value else 0)
    ensures goal.Exactly? ==> |st.buffer| < goal.total && |next.buffer| <= goal.total
    ensures st.source.plan.Greedy? && GoesOn(r) ==> |next.source.remaining| < |st.source.remaining|
  {
  }

  /** The same round, seen by the `FillPeekBuf` future. */
  lemma FillFromRound(st: State, cap: nat, refused: bool, r: Poll, next: State)
    requires |st.buffer| < cap && Round(st, Exactly(cap), refused, r, next)
    ensures PollFillPeekBuf(st, cap) == Step(next, r, [])
    ensures !r.Ready? ==> next.buffer == st.buffer
  {
    hide Answer, Count;
  }

  /** Some rounds after `mid`. */
  lemma InLoopExtends(st0: State, goal: Goal, calls: nat, mid: State, n: nat, more: nat, next: State)
    requires InLoop(st0, goal, calls, mid) && n <= mid.Avail() && next == mid.Take(n, next.source.plan)
    requires Pumped(mid, goal) == Before(n, more, Pumped(next, goal))
    ensures InLoop(st0, goal, calls + more, next)
  {
    hide Loop, Pumped;
    var taken: nat :| taken <= st0.Avail() && mid == st0.Take(taken, mid.source.plan)
                      && Pumped(st0, goal) == Before(taken, calls, Pumped(mid, goal));
    TakeTwice(st0, taken, mid.source.plan, n, next.source.plan);
    assert taken + n <= st0.Avail() && next == st0.Take(taken + n, next.source.plan);
    assert Pumped(st0, goal) == Before(taken + n, calls + more, Pumped(next, goal));
  }

  /** The loop ends where it would have ended from any of its states. */
  lemma InLoopEnds(st0: State, goal: Goal, calls: nat, mid: State)
    requires InLoop(st0, goal, calls, mid)
    ensures Settle(st0, goal) == Settle(mid, goal)
    ensures Pumped(st0, goal).stop == Pumped(mid, goal).stop
    ensures Pumped(st0, goal).calls == calls + Pumped(mid, goal).calls
  {
    hide Loop;
    var taken: nat :| taken <= st0.Avail() && mid == st0.Take(taken, mid.source.plan)
                      && Pumped(st0, goal) == Before(taken, calls, Pumped(mid, goal));
    TakeTwice(st0, taken, mid.source.plan, Pumped(mid, goal).taken, Pumped(mid, goal).plan);
  }

  /** What a round does to the loop: it stops refused, goes on, or stops for the reader's answer. */
  lemma LoopRound(st0: State, goal: Goal, calls: nat, st: State, refused: bool, r: Poll, next: State)
    requires InLoop(st0, goal, calls, st) && Round(st, goal, refused, r, next)
    ensures if refused then
              && next == st == Settle(st0, goal) && r.Failed?
              && Pumped(st0, goal).stop == Broken(r.error) && Pumped(st0, goal).calls == calls
            else if GoesOn(r) then
              InLoop(st0, goal, calls + 1, next)
            else
              && next == Settle(st0, goal)
              && Pumped(st0, goal).stop == StopAt(r) && Pumped(st0, goal).calls == calls + 1
  {
    hide Loop, Next, InLoop;
    Unfold(st.Avail(), st.source.plan, |st.buffer|, goal, st.limit);
    if !refused && GoesOn(r) {
      var n := Count(st.Avail(), st.source.plan, Next(goal, st.limit, |st.buffer|).room);
      InLoopExtends(st0, goal, calls, st, n, 1, next);
    } else {
      InLoopEnds(st0, goal, calls, st);
    }
  }

  /** A top-up is a round of the exact loop, of the reader past its interruptions. */
  lemma TopUpIsRound(st: State, total: nat, refused: bool, r: Poll, next: State)
    requires |st.buffer| < total && ToppedUp(st, total, refused, r, next)
    ensures Round(if refused then st else Retried(st), Exactly(total), refused, r, next)
    ensures !refused ==> Next(Exactly(total), st.limit, |st.buffer|).Ask?
  {
    hide Answer, Count, Settled;
  }

  /** Retrying while interrupted, without growing again, is as many rounds of the loop. */
  lemma {:induction false} LoopSettles(st0: State, goal: Goal, calls: nat, st: State) returns (more: nat)
    requires InLoop(st0, goal, calls, st) && Next(goal, st.limit, |st.buffer|).Ask?
    ensures InLoop(st0, goal, more, Retried(st)) && more == calls + Interruptions(st.source.plan)
    decreases st.source.plan
  {
    hide InLoop, Next, Loop;
    more := calls;
    if st.source.plan.Do? && st.source.plan.first == Fail(Interrupted) {
      assert Round(st, goal, false, Failed(Interrupted), st.Take(0, st.source.plan.rest));
      LoopRound(st0, goal, calls, st, false, Failed(Interrupted), st.Take(0, st.source.plan.rest));
      assert st.Take(0, st.source.plan.rest) == st.(source := Source(st.source.remaining, st.source.plan.rest));
      more := LoopSettles(st0, goal, calls + 1, st.Take(0, st.source.plan.rest));
    }
  }

  /** An exact loop stops when it has enough. */
  lemma LoopIsFull(st0: State, goal: Goal, calls: nat, st: State)
    requires InLoop(st0, goal, calls, st) && goal.Exactly? && goal.total <= |st.buffer|
    ensures st == Settle(st0, goal) && Pumped(st0, goal).stop == Full && Pumped(st0, goal).calls == calls
  {
    hide Loop;
    Unfold(st.Avail(), st.source.plan, |st.buffer|, goal, st.limit);
  }

  // ---- Erasing the pending answers ----

  /** The same state over a reader that waits instead of stalling. */
  function EraseState(st: State): State {
    st.(source := Source(st.source.remaining, Erase(st.source.plan)))
  }

  /** One poll of a loop that, seen without stalls, started in `st0`: a poll that parks leaves it under way,
      and uses up exactly one stall; a poll that does not ends it as the blocking loop ends. */
  lemma PollErases(st0: State, goal: Goal, calls: nat, st: State) returns (more: nat)
    requires InLoop(st0, goal, calls, EraseState(st))
    ensures var run := Pumped(st, goal); var next := Settle(st, goal);
            if run.stop.Parked? then
              && InLoop(st0, goal, more, EraseState(next)) && calls + run.calls == more + 1
              && Stalls(next.source.plan) + 1 == Stalls(st.source.plan)
            else
              && EraseState(next) == Settle(st0, goal) && run.stop == Pumped(st0, goal).stop
              && calls + run.calls == Pumped(st0, goal).calls
              && Stalls(next.source.plan) == Stalls(st.source.plan)
  {
    hide Loop, Erase, InLoop;
    var run := Pumped(st, goal);
    var next := Settle(st, goal);
    more := calls;
    LoopErase(st.Avail(), st.source.plan, |st.buffer|, goal, st.limit);
    if run.stop.Parked? {
      InLoopExtends(st0, goal, calls, EraseState(st), run.taken, run.calls - 1, EraseState(next));
      more := calls + run.calls - 1;
    } else {
      InLoopEnds(st0, goal, calls, EraseState(st));
    }
  }

  /** A poll of `FillPeekBuf` that is pending has used up one stall and nothing else; any other is the same poll
      on the blocking reader. */
  lemma PollFillErases(st: State, cap: nat)
    requires cap >= |st.buffer|
    ensures var step := PollFillPeekBuf(st, cap);
            if step.result.Pending? then
              EraseState(step.state) == EraseState(st) && Stalls(step.state.source.plan) + 1 == Stalls(st.source.plan)
            else
              && PollFillPeekBuf(EraseState(st), cap) == step.(state := EraseState(step.state))
              && Stalls(step.state.source.plan) == Stalls(st.source.plan)
  {
    var plan := st.source.plan;
    if plan.Greedy? || plan.first != Stall {
      EraseCall(st.Avail(), plan, cap - |st.buffer|);
    }
  }

  /** The same state over a reader without lulls. */
  function QuietState(st: State): State {
    st.(source := Source(st.source.remaining, Quiet(st.source.plan)))
  }

  lemma QuietAnswer(avail: nat, plan: Plan, room: nat)
    requires plan.Do? ==> !IsLull(plan.first)
    ensures Answer(avail, Quiet(plan), room) == Answer(avail, plan, room) && !NothingNow(Answer(avail, plan, room))
    ensures Count(avail, Quiet(plan), room) == Count(avail, plan, room)
  {
  }

  /** A poll of `poll_peek` is pending only if nothing is peeked; it has used up one lull then, and the blocking peek
      on the reader without lulls is as before. Any other poll from an empty peek buffer is that blocking peek. */
  lemma PollPeekQuiets(st: State, want: nat)
    ensures var step := PollPeek(st, want); var next := step.state;
            && (step.result.Pending? ==>
                  && st.buffer == next.buffer == [] && step.out == []
                  && Peek(QuietState(next), want) == Peek(QuietState(st), want)
                  && Lulls(next.source.plan) + 1 == Lulls(st.source.plan))
            && (!step.result.Pending? && st.buffer == [] ==>
                  && Peek(QuietState(st), want) == step.(state := QuietState(next))
                  && Lulls(next.source.plan) == Lulls(st.source.plan))
  {
    hide Settled, Quiet, Lulls;
    var plan := Settled(st.source.plan);
    SettledQuiet(st.source.plan);
    if want > |st.buffer| && (plan.Do? ==> !IsLull(plan.first)) {
      QuietAnswer(st.Avail(), plan, want - |st.buffer|);
    }
  }
}
