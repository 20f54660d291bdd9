/** `AsyncPeekable` over a `futures` or a `tokio` reader, and the resumable futures that it hands out. The two
    crates' futures run the same loops; they differ in how they hand the reader the tail of the peek buffer. */
module Futures {
  import opened Io
  import opened Pump
  import opened Utf8
  import opened Readers
  import opened Buffers
  import opened Rounds
  import M = Machine

  class AsyncPeekable {
    const reader: Reader
    const buffer: Buffer
    const style: Style

    ghost function Repr(): set<object>
      reads buffer
    {
      {reader, buffer, buffer.data}
    }

    ghost predicate Valid()
      reads buffer, buffer.data
    {
      buffer.Valid()
    }

    ghost function View(): M.State
      reads reader, buffer
    {
      StateOf(reader, buffer)
    }

    constructor (reader: Reader, buffer: Buffer, style: Style)
      requires buffer.Valid()
      ensures this.reader == reader && this.buffer == buffer && this.style == style
    {
      this.reader := reader;
      this.buffer := buffer;
      this.style := style;
    }

    // ---- futures ----

    method PollRead(buf: array<Byte>) returns (r: Poll)
      requires Valid() && buf !in Repr()
      modifies reader, buffer, buffer.data, buf
      ensures Valid() && Repr() == old(Repr())
      ensures var step := M.Read(old(View()), buf.Length);
              step == M.Step(View(), r, step.out) && buf[..] == Overwrite(old(buf[..]), 0, step.out)
    {
      hide Overwrite, NoFalseEof, Answer, Count, M.Read;
      M.ReadBranches(View(), buf.Length);
      var want := buf.Length;
      var have := buffer.len;
      if have > 0 {
        if want < have {
          CopyFromSlice(buf, 0, buffer.AsSlice()[..want]);
          buffer.Consume(want);
          r := Ready(want);
        } else if want == have {
          assert buffer.bytes[..want] == buffer.bytes;
          CopyFromSlice(buf, 0, buffer.AsSlice());
          buffer.Clear();
          r := Ready(want);
        } else {
          r := PollReadPastBuffer(buf);
        }
      } else {
        r := reader.PollRead(buf, 0, want);
      }
    }

    /** The peeked bytes, topped up from the reader: neither its error nor its stall is reported now. */
    method PollReadPastBuffer(buf: array<Byte>) returns (r: Poll)
      requires Valid() && buf !in Repr() && 0 < buffer.len < buf.Length
      modifies reader, buffer, buf
      ensures Valid() && Repr() == old(Repr())
      ensures var step := M.Read(old(View()), buf.Length);
              step == M.Step(View(), r, step.out) && buf[..] == Overwrite(old(buf[..]), 0, step.out)
    {
      hide Overwrite, NoFalseEof, Answer, Count, M.Read;
      M.ReadPastBranch(View(), buf.Length);
      ghost var st := View();
      var have := buffer.len;
      CopyFromSlice(buf, 0, buffer.AsSlice());
      var result := reader.PollRead(buf, have, buf.Length);
      ghost var n := Count(st.Avail(), st.source.plan, buf.Length - have);
      OverwriteTwice(old(buf[..]), 0, st.buffer, st.source.remaining[..n]);
      buffer.Clear();
      match result
      case Ready(more) => r := Ready(more + have);
      case Failed(_) => r := Ready(have);
      case Pending => r := Ready(have);
    }

    method PollFillBuf() returns (r: Poll, shown: seq<Byte>)
      requires Valid()
      modifies reader
      ensures Valid() && M.Step(View(), r, shown) == M.FillBuf(old(View()))
    {
      if buffer.len > 0 {
        return Ready(buffer.len), buffer.AsSlice();
      } else {
        r, shown := reader.PollFillBuf();
      }
    }

    /** `AsyncBufRead::consume`. */
    method ConsumeBuf(amt: nat)
      requires Valid() && amt <= |View().Unread()|
      modifies reader, buffer, buffer.data
      ensures Valid() && Repr() == old(Repr())
      ensures View() == M.ConsumeBuf(old(View()), amt)
    {
      var rest := amt;
      if buffer.len > 0 {
        var available := Min(amt, buffer.len);
        buffer.Consume(available);
        rest := rest - available;
      }
      reader.Consume(rest);
    }

    method ConsumeInPlace()
      requires Valid()
      modifies buffer
      ensures Valid() && Repr() == old(Repr()) && buffer.Capacity() == old(buffer.Capacity())
      ensures View() == M.Consume(old(View())).state
    {
      buffer.Clear();
    }

    /** The split form: one branch tops up peeked bytes, the other starts from none. */
    method PollPeek(buf: array<Byte>) returns (r: Poll)
      requires Valid() && buf !in Repr()
      modifies reader, buffer, buffer.data, buf
      ensures Valid() && fresh(Repr() - old(Repr()))
      ensures var step := M.PollPeek(old(View()), buf.Length);
              step == M.Step(View(), r, step.out) && buf[..] == Overwrite(old(buf[..]), 0, step.out)
    {
      var want := buf.Length;
      if buffer.len > 0 {
        if want <= buffer.len {
          CopyFromSlice(buf, 0, buffer.AsSlice()[..want]);
          r := Ready(want);
        } else {
          r := PollPeekTopUp(buf);
        }
      } else if want == 0 {
        r := Ready(0);
      } else {
        r := PollPeekUnbuffered(buf);
      }
    }

    method PollPeekTopUp(buf: array<Byte>) returns (r: Poll)
      requires Valid() && buf !in Repr() && 0 < buffer.len < buf.Length
      modifies reader, buffer, buffer.data, buf
      ensures Valid() && fresh(Repr() - old(Repr()))
      ensures var step := M.PollPeek(old(View()), buf.Length);
              step == M.Step(View(), r, step.out) && buf[..] == Overwrite(old(buf[..]), 0, step.out)
    {
      hide M.PollPeek, M.ToppedUp, Overwrite;
      ghost var st := View();
      var refused;
      refused, r := TopUp(reader, buffer, buf.Length, PlainSlice);
      M.PeekFromTopUp(st, buf.Length, refused, r, View());
      OverwriteNothing(buf[..]);
      if refused {
        return;
      }
      match r
      case Ready(n) =>
        CopyFromSlice(buf, 0, buffer.AsSlice());
        r := Ready(buffer.len);
      case Failed(e) =>
        if e == WouldBlock {
          CopyFromSlice(buf, 0, buffer.AsSlice());
          r := Ready(buffer.len);
        }
      case Pending =>
        CopyFromSlice(buf, 0, buffer.AsSlice());
        r := Ready(buffer.len);
    }

    method PollPeekUnbuffered(buf: array<Byte>) returns (r: Poll)
      requires Valid() && buf !in Repr() && 0 == buffer.len < buf.Length
      modifies reader, buffer, buffer.data, buf
      ensures Valid() && fresh(Repr() - old(Repr()))
      ensures var step := M.PollPeek(old(View()), buf.Length);
              step == M.Step(View(), r, step.out) && buf[..] == Overwrite(old(buf[..]), 0, step.out)
    {
      hide M.PollPeek, M.ToppedUp, Overwrite;
      ghost var st := View();
      var refused;
      refused, r := TopUp(reader, buffer, buf.Length, PlainSlice);
      M.PeekFromTopUp(st, buf.Length, refused, r, View());
      OverwriteNothing(buf[..]);
      if refused {
        return;
      }
      match r
      case Ready(n) =>
        CopyFromSlice(buf, 0, buffer.AsSlice());
      case Failed(e) =>
        if e == WouldBlock {
          r := Pending;
        }
      case Pending =>
    }

    // ---- tokio ----

    method PollReadBuf(buf: ReadBuf) returns (r: PollUnit)
      requires Valid() && buf.Valid() && buf.data !in Repr()
      modifies reader, buffer, buffer.data, buf, buf.data
      ensures Valid() && buf.Valid() && Repr() == old(Repr())
      ensures var step := M.Read(old(View()), old(buf.Remaining()));
              View() == step.state && r == WithoutCount(step.result) && buf.Filled() == old(buf.Filled()) + step.out
    {
      hide Overwrite, NoFalseEof, Answer, Count, M.Read;
      M.ReadBranches(View(), buf.Remaining());
      var available := buf.Remaining();
      var have := buffer.len;
      if have > 0 {
        if available < have {
          buf.PutSlice(buffer.AsSlice()[..available]);
          buffer.Consume(available);
          r := Done;
        } else if available == have {
          assert buffer.bytes[..available] == buffer.bytes;
          buf.PutSlice(buffer.AsSlice());
          buffer.Clear();
          r := Done;
        } else {
          r := PollReadBufPastBuffer(buf);
        }
      } else {
        r := reader.PollReadBuf(buf);
      }
    }

    method PollReadBufPastBuffer(buf: ReadBuf) returns (r: PollUnit)
      requires Valid() && buf.Valid() && buf.data !in Repr() && 0 < buffer.len < buf.Remaining()
      modifies reader, buffer, buf, buf.data
      ensures Valid() && buf.Valid() && Repr() == old(Repr())
      ensures var step := M.Read(old(View()), old(buf.Remaining()));
              View() == step.state && r == WithoutCount(step.result) && buf.Filled() == old(buf.Filled()) + step.out
    {
      hide Overwrite, NoFalseEof, Answer, Count, M.Read;
      M.ReadPastBranch(View(), buf.Remaining());
      buf.PutSlice(buffer.AsSlice());
      var result := reader.PollReadBuf(buf);
      buffer.Clear();
      match result
      case Done => r := Done;
      case Erred(_) => r := Done;
      case Waiting => r := Done;
    }

    /** The merged form: one top-up for what the peek buffer lacks, whether or not anything is peeked. */
    method PollPeekBuf(buf: ReadBuf) returns (r: PollUnit)
      requires Valid() && buf.Valid() && buf.data !in Repr()
      modifies reader, buffer, buffer.data, buf, buf.data
      ensures Valid() && buf.Valid() && fresh(Repr() - old(Repr()))
      ensures var step := M.PollPeek(old(View()), old(buf.Remaining()));
              View() == step.state && r == WithoutCount(step.result) && buf.Filled() == old(buf.Filled()) + step.out
    {
      var available := buf.Remaining();
      if available == 0 {
        return Done;
      }
      if buffer.len >= available {
        buf.PutSlice(buffer.AsSlice()[..available]);
        return Done;
      }
      r := PollPeekBufTopUp(buf);
    }

    method PollPeekBufTopUp(buf: ReadBuf) returns (r: PollUnit)
      requires Valid() && buf.Valid() && buf.data !in Repr() && buffer.len < buf.Remaining()
      modifies reader, buffer, buffer.data, buf, buf.data
      ensures Valid() && buf.Valid() && fresh(Repr() - old(Repr()))
      ensures var step := M.PollPeek(old(View()), old(buf.Remaining()));
              View() == step.state && r == WithoutCount(step.result) && buf.Filled() == old(buf.Filled()) + step.out
    {
      var available := buf.Remaining();
      ghost var st := View();
      hide M.PollPeek, M.ToppedUp;
      var refused, result := TopUp(reader, buffer, available, WrappedSlice);
      M.PeekFromTopUp(st, available, refused, result, View());
      assert buf.Valid() && buf.Remaining() == available && buf.Filled() == old(buf.Filled());
      if refused {
        assert buf.Filled() + [] == buf.Filled();
        r := Erred(buffer.limit.refusal);
      } else {
        r := ShowPeeked(buf, result);
      }
    }

    /** Answers a peek after a top-up that ended in `result`. */
    method ShowPeeked(buf: ReadBuf, result: Poll) returns (r: PollUnit)
      requires Valid() && buf.Valid() && buf.data !in Repr() && buffer.len <= buf.Remaining()
      modifies buf, buf.data
      ensures buf.Valid()
      ensures var shown := result.Ready? || (M.NothingNow(result) && buffer.bytes != []);
              && buf.Filled() == old(buf.Filled()) + (if shown then buffer.bytes else [])
              && r == (if shown then Done else if M.NothingNow(result) then Waiting else WithoutCount(result))
    {
      match result
      case Ready(n) =>
        buf.PutSlice(buffer.AsSlice());
        r := Done;
      case Failed(e) =>
        if e != WouldBlock {
          r := Erred(e);
        } else if buffer.len > 0 {
          buf.PutSlice(buffer.AsSlice());
          r := Done;
        } else {
          r := Waiting;
        }
      case Pending =>
        if buffer.len > 0 {
          buf.PutSlice(buffer.AsSlice());
          r := Done;
        } else {
          r := Waiting;
        }
    }
  }

  /** Future of `peek_to_end`. */
  class PeekToEnd {
    const peekable: AsyncPeekable
    const buf: ByteVec
    var prefixCopied: bool
    ghost const original: seq<Byte>  // what the caller's vector held at first

    /** From the first poll on, the caller's vector holds the whole peek buffer once. */
    ghost predicate Valid()
      reads this, buf, peekable.buffer, peekable.buffer.data
    {
      peekable.Valid() && buf.bytes == original + if prefixCopied then peekable.buffer.bytes else []
    }

    constructor (peekable: AsyncPeekable, buf: ByteVec)
      requires peekable.Valid()
      ensures Valid() && !prefixCopied && this.peekable == peekable && this.buf == buf && original == buf.bytes
    {
      this.peekable := peekable;
      this.buf := buf;
      prefixCopied := false;
      original := buf.bytes;
    }

    method Poll() returns (r: Poll)
      requires Valid()
      modifies this, buf, peekable.reader, peekable.buffer, peekable.buffer.data
      ensures Valid() && prefixCopied && fresh(peekable.Repr() - old(peekable.Repr()))
      ensures var step := M.PeekToEnd(old(peekable.View()));
              step == M.Step(peekable.View(), r, step.out) && buf.bytes == original + step.out
      ensures peekable.reader.calls == old(peekable.reader.calls) + M.Pumped(old(peekable.View()), ToEnd).calls
    {
      hide M.InLoop, M.Round, M.Pumped, M.Settle;
      ghost var st0, calls := peekable.View(), 0;
      M.LoopStarts(st0, ToEnd);
      if !prefixCopied {
        buf.ExtendFromSlice(peekable.buffer.AsSlice());
        prefixCopied := true;
      }
      while true
        invariant Valid() && prefixCopied && fresh(peekable.Repr() - old(peekable.Repr()))
        invariant M.InLoop(st0, ToEnd, calls, peekable.View())
        invariant peekable.reader.calls == old(peekable.reader.calls) + calls
        decreases peekable.reader.plan, |peekable.reader.remaining|
      {
        ghost var st := peekable.View();
        var oldLen := peekable.buffer.len;
        var refused;
        refused, r := GrowAndRead(peekable.reader, peekable.buffer, peekable.style);
        M.LoopRound(st0, ToEnd, calls, st, refused, r, peekable.View());
        if refused {
          return;
        }
        M.RoundAppends(st, ToEnd, r, peekable.View());
        match r {
        case Ready(n) =>
          if n == 0 {
            return Ready(peekable.buffer.len);
          }
          AppendArrived(oldLen);
        case Failed(e) =>
          if e != Interrupted {
            return;
          }
        case Pending =>
          return;
        }
        calls := calls + 1;
      }
    }

    /** Appends the bytes that have arrived behind the first `oldLen`. */
    method AppendArrived(oldLen: nat)
      requires peekable.Valid() && oldLen <= peekable.buffer.len
      requires prefixCopied && buf.bytes == original + peekable.buffer.bytes[..oldLen]
      modifies buf
      ensures Valid()
    {
      buf.ExtendFromSlice(peekable.buffer.AsSlice()[oldLen..]);
    }
  }

  /** Future of `peek_exact`. */
  class PeekExact {
    const peekable: AsyncPeekable
    const buf: array<Byte>
    var filled: nat
    ghost const original: seq<Byte>  // what the caller's slice held at first

    /** The caller's slice starts with the first `filled` peeked bytes; while it is neither untouched nor full,
        those are all of them. */
    ghost predicate Valid()
      reads this, buf, peekable.buffer, peekable.buffer.data
    {
      && peekable.Valid() && buf !in peekable.Repr()
      && |original| == buf.Length && filled <= buf.Length && filled <= |peekable.buffer.bytes|
      && (0 < filled < buf.Length ==> filled == |peekable.buffer.bytes|)
      && buf[..] == Overwrite(original, 0, peekable.buffer.bytes[..filled])
    }

    constructor (peekable: AsyncPeekable, buf: array<Byte>)
      requires peekable.Valid() && buf !in peekable.Repr()
      ensures Valid() && filled == 0 && this.peekable == peekable && this.buf == buf && original == buf[..]
    {
      this.peekable := peekable;
      this.buf := buf;
      filled := 0;
      original := buf[..];
    }

    method Poll() returns (r: Poll)
      requires Valid()
      modifies this, buf, peekable.reader, peekable.buffer, peekable.buffer.data
      ensures Valid() && fresh(peekable.Repr() - old(peekable.Repr()))
      ensures var step := M.PeekExact(old(peekable.View()), buf.Length);
              step == M.Step(peekable.View(), r, step.out) && buf[..] == Overwrite(original, 0, step.out)
      ensures peekable.reader.calls
           == old(peekable.reader.calls) + M.Pumped(old(peekable.View()), Exactly(buf.Length)).calls
    {
      hide M.InLoop, M.Round, M.Pumped, M.Settle, Overwrite;
      var total := buf.Length;
      ghost var st0, goal, calls := peekable.View(), Exactly(total), 0;
      M.LoopStarts(st0, goal);
      if filled == 0 {
        CopyPeeked();
        if filled == total {
          M.LoopIsFull(st0, goal, 0, st0);
          return Ready(total);
        }
      }
      while filled < total
        invariant Valid() && fresh(peekable.Repr() - old(peekable.Repr()))
        invariant filled < total ==> filled == peekable.buffer.len
        invariant M.InLoop(st0, goal, calls, peekable.View())
        invariant peekable.reader.calls == old(peekable.reader.calls) + calls
        decreases peekable.reader.plan, |peekable.reader.remaining|
      {
        ghost var st := peekable.View();
        var refused;
        refused, r := ResizeAndRead(peekable.reader, peekable.buffer,
                                    peekable.buffer.len + (total - filled), peekable.style);
        M.LoopRound(st0, goal, calls, st, refused, r, peekable.View());
        assert peekable.buffer.bytes[..|peekable.buffer.bytes|] == peekable.buffer.bytes;
        assert st.buffer[..|st.buffer|] == st.buffer;
        if refused {
          return;
        }
        M.RoundAppends(st, goal, r, peekable.View());
        match r {
        case Ready(n) =>
          if n == 0 {
            return Failed(UnexpectedEof);
          }
          CopyArrived(st.buffer);
        case Failed(e) =>
          if e != Interrupted {
            return;
          }
        case Pending =>
          return;
        }
        calls := calls + 1;
      }
      M.LoopIsFull(st0, goal, calls, peekable.View());
      r := Ready(total);
    }

    /** Copies what the peek buffer already has. */
    method CopyPeeked()
      requires Valid() && filled == 0
      modifies this, buf
      ensures Valid() && filled == Min(peekable.buffer.len, buf.Length)
    {
      hide Overwrite;
      OverwriteNothing(original);
      var fromPeek := Min(peekable.buffer.len, buf.Length);
      CopyFromSlice(buf, 0, peekable.buffer.AsSlice()[..fromPeek]);
      filled := fromPeek;
    }

    /** Copies the bytes that have just arrived behind the first `filled`. */
    method CopyArrived(ghost before: seq<Byte>)
      requires peekable.Valid() && buf !in peekable.Repr() && |original| == buf.Length
      requires filled == |before| <= peekable.buffer.len <= buf.Length && before <= peekable.buffer.bytes
      requires buf[..] == Overwrite(original, 0, before)
      modifies this, buf
      ensures Valid() && filled == peekable.buffer.len
    {
      hide Overwrite;
      var arrived := peekable.buffer.AsSlice()[filled..];
      CopyFromSlice(buf, filled, arrived);
      OverwriteTwice(original, 0, before, arrived);
      assert before + arrived == peekable.buffer.bytes;
      filled := filled + |arrived|;
      assert peekable.buffer.bytes[..filled] == peekable.buffer.bytes;
    }
  }

  /** Future of `peek_to_string`. */
  class PeekToString {
    const peekable: AsyncPeekable
    const text: Text
    var started: bool

    ghost predicate Valid()
      reads this, text, peekable.buffer, peekable.buffer.data
    {
      peekable.Valid() && text.Valid()
    }

    constructor (peekable: AsyncPeekable, text: Text)
      requires peekable.Valid() && text.Valid()
      ensures Valid() && !started && this.peekable == peekable && this.text == text
    {
      this.peekable := peekable;
      this.text := text;
      started := false;
    }

    /** The up-front check is made by the first poll only, and the string is untouched while pending. */
    method Poll() returns (r: Poll)
      requires Valid()
      modifies this, text, peekable.reader, peekable.buffer, peekable.buffer.data
      ensures Valid() && fresh(peekable.Repr() - old(peekable.Repr()))
      ensures var st := old(peekable.View());
              var step := if old(started) then M.DrainToString(st) else M.PeekToString(st);
              step == M.Step(peekable.View(), r, step.out) && text.bytes == old(text.bytes) + step.out
      ensures r.Pending? ==> started && text.bytes == old(text.bytes)
      ensures peekable.reader.calls
           == old(peekable.reader.calls) + if !old(started) && Hopeless(old(peekable.buffer.bytes)) then 0
                                           else M.Pumped(old(peekable.View()), ToEnd).calls
    {
      hide M.DrainToString, M.Pumped, FromUtf8, ValidUtf8;
      if !started {
        var verdict := FromUtf8(peekable.buffer.AsSlice());
        if verdict.Bad? && verdict.errorLen.Some? {
          return Failed(InvalidData);
        }
        started := true;
      }
      r := Drain();
    }

    /** The part of a poll behind the check. */
    method Drain() returns (r: Poll)
      requires Valid() && started
      modifies text, peekable.reader, peekable.buffer, peekable.buffer.data
      ensures Valid() && fresh(peekable.Repr() - old(peekable.Repr()))
      ensures var step := M.DrainToString(old(peekable.View()));
              step == M.Step(peekable.View(), r, step.out) && text.bytes == old(text.bytes) + step.out
      ensures r.Pending? ==> text.bytes == old(text.bytes)
      ensures peekable.reader.calls == old(peekable.reader.calls) + M.Pumped(old(peekable.View()), ToEnd).calls
    {
      hide M.InLoop, M.Round, M.Pumped, M.Settle, FromUtf8, ValidUtf8;
      ghost var st0, calls := peekable.View(), 0;
      M.LoopStarts(st0, ToEnd);
      var failure := None;
      while true
        invariant Valid() && fresh(peekable.Repr() - old(peekable.Repr()))
        invariant M.InLoop(st0, ToEnd, calls, peekable.View()) && text.bytes == old(text.bytes)
        invariant peekable.reader.calls == old(peekable.reader.calls) + calls
        decreases peekable.reader.plan, |peekable.reader.remaining|
      {
        ghost var st := peekable.View();
        var refused;
        refused, r := GrowAndRead(peekable.reader, peekable.buffer, peekable.style);
        M.LoopRound(st0, ToEnd, calls, st, refused, r, peekable.View());
        if refused {
          failure := Some(r.error);
          break;
        }
        M.RoundAppends(st, ToEnd, r, peekable.View());
        match r {
        case Ready(n) =>
          if n == 0 {
            break;
          }
        case Failed(e) =>
          if e != Interrupted {
            failure := Some(e);
            break;
          }
        case Pending =>
          return;
        }
        calls := calls + 1;
      }
      r := FinishString(failure, peekable.buffer, text);
    }
  }

  /** Future of `fill_peek_buf`. */
  class FillPeekBuf {
    const peekable: AsyncPeekable
    const original: nat
    const cap: nat

    /** The captured length and capacity are still those of the peek buffer. */
    ghost predicate Valid()
      reads this, peekable.buffer, peekable.buffer.data
    {
      peekable.Valid() && original == peekable.buffer.len && cap == peekable.buffer.Capacity()
    }

    constructor (peekable: AsyncPeekable)
      requires peekable.Valid()
      ensures Valid() && this.peekable == peekable
      ensures cap == peekable.buffer.Capacity() && original == peekable.buffer.len
    {
      this.peekable := peekable;
      cap := peekable.buffer.Capacity();
      original := peekable.buffer.len;
    }

    /** Unless bytes have arrived, the peek buffer is as it was and the future can be polled again. */
    method Poll() returns (r: Poll)
      requires Valid()
      modifies peekable.reader, peekable.buffer, peekable.buffer.data
      ensures peekable.Valid() && fresh(peekable.Repr() - old(peekable.Repr()))
      ensures M.Step(peekable.View(), r, []) == M.PollFillPeekBuf(old(peekable.View()), cap)
      ensures !r.Ready? ==> Valid() && peekable.buffer.bytes == old(peekable.buffer.bytes)
      ensures peekable.buffer.Capacity() == cap
    {
      if cap == original {
        return Ready(0);
      }
      hide M.Round, M.PollFillPeekBuf;
      ghost var st := peekable.View();
      var refused;
      refused, r := ResizeAndRead(peekable.reader, peekable.buffer, cap, peekable.style);
      M.FillFromRound(st, cap, refused, r, peekable.View());
    }
  }
}
