/** Polling a future, or `poll_peek`, until it is ready is the blocking call on a reader that waits instead of
    stalling. */
module Executor {
  import opened Io
  import opened Pump
  import opened Utf8
  import opened Readers
  import opened Futures
  import M = Machine

  method DrivePeekToEnd(f: PeekToEnd) returns (r: Poll, polls: nat)
    requires f.Valid() && !f.prefixCopied
    modifies f, f.buf, f.peekable.reader, f.peekable.buffer, f.peekable.buffer.data
    ensures f.Valid() && fresh(f.peekable.Repr() - old(f.peekable.Repr()))
    ensures var blocking := M.PeekToEnd(M.EraseState(old(f.peekable.View())));
            && blocking == M.Step(M.EraseState(f.peekable.View()), r, blocking.out)
            && f.buf.bytes == old(f.buf.bytes) + blocking.out
    ensures !r.Pending? && polls + Stalls(f.peekable.reader.plan) == 1 + Stalls(old(f.peekable.reader.plan))
    ensures f.peekable.reader.calls + 1
         == old(f.peekable.reader.calls) + polls
            + M.Pumped(M.EraseState(old(f.peekable.View())), ToEnd).calls
  {
    hide M.InLoop, M.Pumped, M.Settle, Stalls, Erase;
    ghost var e0, calls := M.EraseState(f.peekable.View()), 0;
    M.LoopStarts(e0, ToEnd);
    polls := 0;
    while true
      invariant f.Valid() && fresh(f.peekable.Repr() - old(f.peekable.Repr()))
      invariant M.InLoop(e0, ToEnd, calls, M.EraseState(f.peekable.View()))
      invariant polls + Stalls(f.peekable.reader.plan) == Stalls(old(f.peekable.reader.plan))
      invariant f.peekable.reader.calls == old(f.peekable.reader.calls) + calls + polls
      decreases Stalls(f.peekable.reader.plan)
    {
      ghost var st := f.peekable.View();
      r := f.Poll();
      polls := polls + 1;
      calls := M.PollErases(e0, ToEnd, calls, st);
      if !r.Pending? {
        return;
      }
    }
  }

  method DrivePeekExact(f: PeekExact) returns (r: Poll, polls: nat)
    requires f.Valid() && f.filled == 0
    modifies f, f.buf, f.peekable.reader, f.peekable.buffer, f.peekable.buffer.data
    ensures f.Valid() && fresh(f.peekable.Repr() - old(f.peekable.Repr()))
    ensures var blocking := M.PeekExact(M.EraseState(old(f.peekable.View())), f.buf.Length);
            && blocking == M.Step(M.EraseState(f.peekable.View()), r, blocking.out)
            && f.buf[..] == Overwrite(f.original, 0, blocking.out)
    ensures !r.Pending? && polls + Stalls(f.peekable.reader.plan) == 1 + Stalls(old(f.peekable.reader.plan))
    ensures f.peekable.reader.calls + 1
         == old(f.peekable.reader.calls) + polls
            + M.Pumped(M.EraseState(old(f.peekable.View())), Exactly(f.buf.Length)).calls
  {
    hide M.InLoop, M.Pumped, M.Settle, Stalls, Erase, Overwrite;
    ghost var goal := Exactly(f.buf.Length);
    ghost var e0, calls := M.EraseState(f.peekable.View()), 0;
    M.LoopStarts(e0, goal);
    polls := 0;
    while true
      invariant f.Valid() && fresh(f.peekable.Repr() - old(f.peekable.Repr()))
      invariant M.InLoop(e0, goal, calls, M.EraseState(f.peekable.View()))
      invariant polls + Stalls(f.peekable.reader.plan) == Stalls(old(f.peekable.reader.plan))
      invariant f.peekable.reader.calls == old(f.peekable.reader.calls) + calls + polls
      decreases Stalls(f.peekable.reader.plan)
    {
      ghost var st := f.peekable.View();
      r := f.Poll();
      polls := polls + 1;
      calls := M.PollErases(e0, goal, calls, st);
      if !r.Pending? {
        return;
      }
    }
  }

  method DrivePeekToString(f: PeekToString) returns (r: Poll, polls: nat)
    requires f.Valid() && !f.started
    modifies f, f.text, f.peekable.reader, f.peekable.buffer, f.peekable.buffer.data
    ensures f.Valid() && fresh(f.peekable.Repr() - old(f.peekable.Repr()))
    ensures var blocking := M.PeekToString(M.EraseState(old(f.peekable.View())));
            && blocking == M.Step(M.EraseState(f.peekable.View()), r, blocking.out)
            && f.text.bytes == old(f.text.bytes) + blocking.out
    ensures !r.Pending? && polls + Stalls(f.peekable.reader.plan) == 1 + Stalls(old(f.peekable.reader.plan))
    ensures f.peekable.reader.calls + 1
         == old(f.peekable.reader.calls) + polls
            + if Hopeless(old(f.peekable.buffer.bytes)) then 0
              else M.Pumped(M.EraseState(old(f.peekable.View())), ToEnd).calls
  {
    hide M.InLoop, M.Pumped, M.Settle, Stalls, Erase, FromUtf8, ValidUpTo;
    ghost var e0, calls := M.EraseState(f.peekable.View()), 0;
    ghost var hopeless := Hopeless(f.peekable.buffer.bytes);
    M.LoopStarts(e0, ToEnd);
    polls := 0;
    while true
      invariant f.Valid() && fresh(f.peekable.Repr() - old(f.peekable.Repr()))
      invariant f.text.bytes == old(f.text.bytes)
      invariant if f.started then !hopeless
                else && calls == 0 && M.EraseState(f.peekable.View()) == e0
                     && hopeless == Hopeless(f.peekable.buffer.bytes)
      invariant M.InLoop(e0, ToEnd, calls, M.EraseState(f.peekable.View()))
      invariant polls + Stalls(f.peekable.reader.plan) == Stalls(old(f.peekable.reader.plan))
      invariant f.peekable.reader.calls == old(f.peekable.reader.calls) + calls + polls
      decreases Stalls(f.peekable.reader.plan)
    {
      ghost var st := f.peekable.View();
      ghost var first := !f.started;
      r := f.Poll();
      polls := polls + 1;
      if !first || !hopeless {
        calls := M.PollErases(e0, ToEnd, calls, st);
      }
      if !r.Pending? {
        return;
      }
    }
  }

  /** The `FillPeekBuf` future has no loop of its own: interruptions end it too. */
  method DriveFillPeekBuf(f: FillPeekBuf) returns (r: Poll, polls: nat)
    requires f.Valid()
    modifies f.peekable.reader, f.peekable.buffer, f.peekable.buffer.data
    ensures f.peekable.Valid() && fresh(f.peekable.Repr() - old(f.peekable.Repr()))
    ensures M.Step(M.EraseState(f.peekable.View()), r, [])
         == M.PollFillPeekBuf(M.EraseState(old(f.peekable.View())), f.cap)
    ensures !r.Pending? && polls + Stalls(f.peekable.reader.plan) == 1 + Stalls(old(f.peekable.reader.plan))
  {
    polls := 0;
    while true
      invariant f.Valid() && fresh(f.peekable.Repr() - old(f.peekable.Repr()))
      invariant M.EraseState(f.peekable.View()) == M.EraseState(old(f.peekable.View()))
      invariant polls + Stalls(f.peekable.reader.plan) == Stalls(old(f.peekable.reader.plan))
      decreases Stalls(f.peekable.reader.plan)
    {
      ghost var st := f.peekable.View();
      r := f.Poll();
      polls := polls + 1;
      M.PollFillErases(st, f.cap);
      if !r.Pending? {
        return;
      }
    }
  }

  // ---- poll_peek ----

  /** From an empty peek buffer: the blocking peek on the reader without stalls and without `WouldBlock`, in one poll
      more than it had of those. Peeked bytes are an answer, whatever the reader has now, so that one poll will do. */
  method DrivePollPeek(p: AsyncPeekable, buf: array<Byte>) returns (r: Poll, polls: nat)
    requires p.Valid() && buf !in p.Repr()
    modifies p.reader, p.buffer, p.buffer.data, buf
    ensures p.Valid() && fresh(p.Repr() - old(p.Repr()))
    ensures var st := old(p.View());
            if st.buffer == [] then
              var blocking := M.Peek(M.QuietState(st), buf.Length);
              && blocking == M.Step(M.QuietState(p.View()), r, blocking.out)
              && buf[..] == Overwrite(old(buf[..]), 0, blocking.out)
              && polls + Lulls(p.reader.plan) == 1 + Lulls(st.source.plan)
            else
              var step := M.PollPeek(st, buf.Length);
              && step == M.Step(p.View(), r, step.out)
              && buf[..] == Overwrite(old(buf[..]), 0, step.out) && polls == 1
    ensures !r.Pending?
  {
    hide M.PollPeek, M.Peek, Overwrite, Lulls, Quiet;
    ghost var st0 := p.View();
    polls := 0;
    while true
      invariant p.Valid() && fresh(p.Repr() - old(p.Repr())) && buf !in p.Repr() && buf[..] == old(buf[..])
      invariant if polls == 0 then p.View() == st0 else p.View().buffer == st0.buffer == []
      invariant M.Peek(M.QuietState(p.View()), buf.Length) == M.Peek(M.QuietState(st0), buf.Length)
      invariant polls + Lulls(p.reader.plan) == Lulls(st0.source.plan)
      decreases Lulls(p.reader.plan)
    {
      ghost var st := p.View();
      r := p.PollPeek(buf);
      polls := polls + 1;
      M.PollPeekQuiets(st, buf.Length);
      OverwriteNothing(old(buf[..]));
      if !r.Pending? {
        return;
      }
    }
  }

  /** The same for the merged form, which appends to a `ReadBuf`. */
  method DrivePollPeekBuf(p: AsyncPeekable, buf: ReadBuf) returns (r: PollUnit, polls: nat)
    requires p.Valid() && buf.Valid() && buf.data !in p.Repr()
    modifies p.reader, p.buffer, p.buffer.data, buf, buf.data
    ensures p.Valid() && buf.Valid() && fresh(p.Repr() - old(p.Repr()))
    ensures var st := old(p.View()); var want := old(buf.Remaining());
            if st.buffer == [] then
              var blocking := M.Peek(M.QuietState(st), want);
              && M.QuietState(p.View()) == blocking.state && r == WithoutCount(blocking.result)
              && buf.Filled() == old(buf.Filled()) + blocking.out
              && polls + Lulls(p.reader.plan) == 1 + Lulls(st.source.plan)
            else
              var step := M.PollPeek(st, want);
              && p.View() == step.state && r == WithoutCount(step.result)
              && buf.Filled() == old(buf.Filled()) + step.out && polls == 1
    ensures !r.Waiting?
  {
    hide M.PollPeek, M.Peek, Lulls, Quiet;
    ghost var st0, want := p.View(), buf.Remaining();
    polls := 0;
    while true
      invariant p.Valid() && fresh(p.Repr() - old(p.Repr()))
      invariant buf.Valid() && buf.data !in p.Repr() && buf.Filled() == old(buf.Filled()) && buf.Remaining() == want
      invariant if polls == 0 then p.View() == st0 else p.View().buffer == st0.buffer == []
      invariant M.Peek(M.QuietState(p.View()), want) == M.Peek(M.QuietState(st0), want)
      invariant polls + Lulls(p.reader.plan) == Lulls(st0.source.plan)
      decreases Lulls(p.reader.plan)
    {
      ghost var st := p.View();
      r := p.PollPeekBuf(buf);
      polls := polls + 1;
      M.PollPeekQuiets(st, want);
      if !r.Waiting? {
        return;
      }
    }
  }
}
