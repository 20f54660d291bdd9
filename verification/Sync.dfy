/** `Peekable`, the blocking peekable reader. */
module Sync {
  import opened Io
  import opened Growth
  import opened Pump
  import opened Utf8
  import opened Readers
  import opened Buffers
  import opened Rounds
  import M = Machine

  class Peekable {
    const reader: Reader
    var buffer: Buffer
    const bufCap: Option<nat>

    ghost function Repr(): set<object>
      reads this, buffer
    {
      {this, reader, buffer, buffer.data}
    }

    /** The reader is a `std::io::Read`, which never answers `Pending`. */
    ghost predicate Valid()
      reads this, buffer, buffer.data, reader
    {
      buffer.Valid() && Blocking(reader.plan)
    }

    ghost function View(): M.State
      reads this, reader, buffer
    {
      StateOf(reader, buffer)
    }

    constructor (reader: Reader, limit: Limit, capacity: Option<nat>)
      requires Blocking(reader.plan)
      ensures Valid() && fresh(Repr() - {reader})
      ensures this.reader == reader && bufCap == capacity && View() == M.State([], reader.Position(), limit)
      ensures buffer.Capacity() == if limit.AtMost? then limit.max else if capacity.Some? then capacity.value else 0
    {
      this.reader := reader;
      bufCap := capacity;
      buffer := new Buffer(limit, if capacity.Some? then capacity.value else 0);
    }

    method Read(buf: array<Byte>) returns (r: Poll)
      requires Valid() && buf !in Repr()
      modifies this, reader, buffer, buffer.data, buf
      ensures Valid() && fresh(Repr() - old(Repr()))
      ensures var step := M.Read(old(View()), buf.Length);
              step == M.Step(View(), r, step.out) && !r.Pending? && buf[..] == Overwrite(old(buf[..]), 0, step.out)
    {
      hide Overwrite, NoFalseEof, Answer, Count, M.Read;
      M.ReadBranches(View(), buf.Length);
      var want := buf.Length;
      var have := buffer.len;
      if have > 0 {
        if want < have {
          CopyFromSlice(buf, 0, buffer.AsSlice()[..want]);
          buffer.Consume(want);
          r := Ready(want);
        } else if want == have {
          assert buffer.bytes[..want] == buffer.bytes;
          CopyFromSlice(buf, 0, buffer.AsSlice());
          buffer.Clear();
          r := Ready(want);
        } else {
          r := ReadPastBuffer(buf);
        }
      } else {
        r := reader.PollRead(buf, 0, want);
      }
    }

    /** The peeked bytes, topped up from the reader; an error of the reader is not reported now, since bytes
        have been written. */
    method ReadPastBuffer(buf: array<Byte>) returns (r: Poll)
      requires Valid() && buf !in Repr() && 0 < buffer.len < buf.Length
      modifies reader, buffer, buf
      ensures Valid() && Repr() == old(Repr())
      ensures var step := M.Read(old(View()), buf.Length);
              step == M.Step(View(), r, step.out) && r.Ready? && buf[..] == Overwrite(old(buf[..]), 0, step.out)
    {
      hide Overwrite, NoFalseEof, Answer, Count, M.Read;
      M.ReadPastBranch(View(), buf.Length);
      ghost var st := View();
      var have := buffer.len;
      CopyFromSlice(buf, 0, buffer.AsSlice());
      var result := reader.PollRead(buf, have, buf.Length);
      ghost var n := Count(st.Avail(), st.source.plan, buf.Length - have);
      OverwriteTwice(old(buf[..]), 0, st.buffer, st.source.remaining[..n]);
      buffer.Clear();
      r := Ready(if result.Ready? then result.value + have else have);
    }

    method FillBuf() returns (r: Poll, shown: seq<Byte>)
      requires Valid()
      modifies reader
      ensures Valid() && buffer == old(buffer)
      ensures M.Step(View(), r, shown) == M.FillBuf(old(View()))
    {
      if buffer.len > 0 {
        return Ready(buffer.len), buffer.AsSlice();
      } else {
        r, shown := reader.PollFillBuf();
      }
    }

    /** `BufRead::consume`. */
    method ConsumeBuf(amt: nat)
      requires Valid() && amt <= |View().Unread()|
      modifies this, reader, buffer, buffer.data
      ensures Valid() && fresh(Repr() - old(Repr()))
      ensures View() == M.ConsumeBuf(old(View()), amt)
    {
      var rest := amt;
      if buffer.len > 0 {
        var available := Min(amt, buffer.len);
        buffer.Consume(available);
        rest := rest - available;
      }
      reader.Consume(rest);
    }

    /** Hands out the peek buffer and starts a new one. */
    method Consume() returns (taken: Buffer)
      requires Valid()
      modifies this
      ensures Valid() && fresh(Repr() - old(Repr()))
      ensures View() == M.Consume(old(View())).state
      ensures taken == old(buffer) && taken.Valid() && taken.bytes == M.Consume(old(View())).out
      ensures buffer.Capacity()
           == if buffer.limit.AtMost? then buffer.limit.max else if bufCap.Some? then bufCap.value else 0
    {
      taken := buffer;
      buffer := new Buffer(buffer.limit, if bufCap.Some? then bufCap.value else 0);
    }

    method ConsumeInPlace()
      requires Valid()
      modifies buffer
      ensures Valid() && Repr() == old(Repr()) && buffer.Capacity() == old(buffer.Capacity())
      ensures View() == M.Consume(old(View())).state
    {
      buffer.Clear();
    }

    method Peek(buf: array<Byte>) returns (r: Poll)
      requires Valid() && buf !in Repr()
      modifies this, reader, buffer, buffer.data, buf
      ensures Valid() && fresh(Repr() - old(Repr()))
      ensures var step := M.Peek(old(View()), buf.Length);
              step == M.Step(View(), r, step.out) && !r.Pending? && buf[..] == Overwrite(old(buf[..]), 0, step.out)
    {
      var want := buf.Length;
      if buffer.len > 0 {
        if want <= buffer.len {
          CopyFromSlice(buf, 0, buffer.AsSlice()[..want]);
          return Ready(want);
        }
      } else if want == 0 {
        return Ready(0);
      }
      hide M.Peek, M.ToppedUp;
      ghost var st := View();
      var refused;
      refused, r := TopUp(reader, buffer, want, PlainSlice);
      M.PeekFromTopUp(st, want, refused, r, View());
      if r.Ready? {
        CopyFromSlice(buf, 0, buffer.AsSlice());
        r := Ready(buffer.len);
      }
    }

    /** Peeks exactly as many bytes as `buf` holds. */
    method PeekExact(buf: array<Byte>) returns (r: Poll)
      requires Valid() && buf !in Repr()
      modifies this, reader, buffer, buffer.data, buf
      ensures Valid() && fresh(Repr() - old(Repr()))
      ensures var step := M.PeekExact(old(View()), buf.Length);
              step == M.Step(View(), r, step.out) && !r.Pending? && buf[..] == Overwrite(old(buf[..]), 0, step.out)
      ensures reader.calls == old(reader.calls) + M.Pumped(old(View()), Exactly(buf.Length)).calls
    {
      hide M.InLoop, M.Round, M.Pumped, M.Settle, Settled, Interruptions, Overwrite;
      var total := buf.Length;
      ghost var st0, goal, calls := View(), Exactly(buf.Length), 0;
      M.LoopStarts(st0, goal);
      if total <= buffer.len {
        CopyFromSlice(buf, 0, buffer.AsSlice()[..total]);
        M.LoopIsFull(st0, goal, 0, st0);
        return Ready(total);
      }
      CopyFromSlice(buf, 0, buffer.AsSlice());
      var filled := buffer.len;
      while filled < total
        invariant Valid() && fresh(Repr() - old(Repr())) && buf !in Repr() && buffer == old(buffer)
        invariant filled == buffer.len <= total
        invariant M.InLoop(st0, goal, calls, View()) && reader.calls == old(reader.calls) + calls
        invariant buf[..] == Overwrite(old(buf[..]), 0, buffer.bytes)
      {
        ghost var st := View();
        var refused;
        refused, r := TopUp(reader, buffer, total, PlainSlice);
        M.TopUpIsRound(st, total, refused, r, View());
        if !refused {
          calls := M.LoopSettles(st0, goal, calls, st);
          st := M.Retried(st);
        }
        M.LoopRound(st0, goal, calls, st, refused, r, View());
        assert buffer.bytes[..|buffer.bytes|] == buffer.bytes;
        if refused {
          return;
        }
        M.RoundAppends(st, goal, r, View());
        if r.Failed? {
          return;
        }
        if r.value == 0 {
          return Failed(UnexpectedEof);
        }
        calls := calls + 1;
        CopyArrived(buf, filled, old(buf[..]), st.buffer);
        filled := filled + r.value;
      }
      M.LoopIsFull(st0, goal, calls, View());
      assert buffer.bytes[..total] == buffer.bytes;
      r := Ready(total);
    }

    /** Copies the bytes that have arrived behind the first `filled`. */
    method CopyArrived(buf: array<Byte>, filled: nat, ghost original: seq<Byte>, ghost before: seq<Byte>)
      requires buffer.Valid() && buf !in Repr() && |original| == buf.Length
      requires filled == |before| <= buffer.len <= buf.Length && before <= buffer.bytes
      requires buf[..] == Overwrite(original, 0, before)
      modifies buf
      ensures buf[..] == Overwrite(original, 0, buffer.bytes)
    {
      hide Overwrite;
      var arrived := buffer.AsSlice()[filled..];
      CopyFromSlice(buf, filled, arrived);
      OverwriteTwice(original, 0, before, arrived);
      assert before + arrived == buffer.bytes;
    }

    /** Peeks everything up to the end of the stream, appending it to `buf`. */
    method PeekToEnd(buf: ByteVec) returns (r: Poll)
      requires Valid()
      modifies reader, buffer, buffer.data, buf
      ensures Valid() && fresh(Repr() - old(Repr()))
      ensures var step := M.PeekToEnd(old(View()));
              step == M.Step(View(), r, step.out) && !r.Pending? && buf.bytes == old(buf.bytes) + step.out
      ensures reader.calls == old(reader.calls) + M.Pumped(old(View()), ToEnd).calls
    {
      hide M.InLoop, M.Round, M.Pumped, M.Settle;
      ghost var st0, calls := View(), 0;
      M.LoopStarts(st0, ToEnd);
      buf.ExtendFromSlice(buffer.AsSlice());
      while true
        invariant Valid() && fresh(Repr() - old(Repr()))
        invariant M.InLoop(st0, ToEnd, calls, View()) && reader.calls == old(reader.calls) + calls
        invariant buf.bytes == old(buf.bytes) + buffer.bytes
        decreases reader.plan, |reader.remaining|
      {
        ghost var st := View();
        var oldLen := buffer.len;
        var refused;
        refused, r := GrowAndRead(reader, buffer, PlainSlice);
        M.LoopRound(st0, ToEnd, calls, st, refused, r, View());
        if refused {
          return;
        }
        M.RoundAppends(st, ToEnd, r, View());
        if r.Ready? {
          if r.value == 0 {
            return Ready(buffer.len);
          }
          buf.ExtendFromSlice(buffer.AsSlice()[oldLen..]);
        } else if r.error != Interrupted {
          return;
        }
        calls := calls + 1;
      }
    }

    /** Peeks everything up to the end of the stream, appending it to `text` if all of it is valid UTF-8. */
    method PeekToString(text: Text) returns (r: Poll)
      requires Valid() && text.Valid()
      modifies reader, buffer, buffer.data, text
      ensures Valid() && text.Valid() && fresh(Repr() - old(Repr()))
      ensures var step := M.PeekToString(old(View()));
              step == M.Step(View(), r, step.out) && !r.Pending? && text.bytes == old(text.bytes) + step.out
      ensures reader.calls == old(reader.calls)
                            + if Hopeless(old(buffer.bytes)) then 0 else M.Pumped(old(View()), ToEnd).calls
    {
      hide M.InLoop, M.Round, M.Pumped, M.Settle, M.Conclude, FromUtf8, ValidUtf8;
      ghost var st0, calls := View(), 0;
      var verdict := FromUtf8(buffer.AsSlice());
      if verdict.Bad? && verdict.errorLen.Some? {
        return Failed(InvalidData);
      }
      M.LoopStarts(st0, ToEnd);
      var failure := None;
      while true
        invariant Valid() && text.Valid() && fresh(Repr() - old(Repr()))
        invariant M.InLoop(st0, ToEnd, calls, View()) && reader.calls == old(reader.calls) + calls
        invariant text.bytes == old(text.bytes)
        decreases reader.plan, |reader.remaining|
      {
        ghost var st := View();
        var refused;
        refused, r := GrowAndRead(reader, buffer, PlainSlice);
        M.LoopRound(st0, ToEnd, calls, st, refused, r, View());
        if refused {
          failure := Some(r.error);
          break;
        }
        M.RoundAppends(st, ToEnd, r, View());
        if r == Ready(0) {
          break;
        } else if r.Failed? && r.error != Interrupted {
          failure := Some(r.error);
          break;
        }
        calls := calls + 1;
      }
      r := FinishString(failure, buffer, text);
    }

    /** Tops the peek buffer up to its capacity; retried while interrupted, and rolled back on failure. */
    method FillPeekBuf() returns (r: Poll)
      requires Valid()
      modifies reader, buffer, buffer.data
      ensures Valid() && fresh(Repr() - old(Repr()))
      ensures M.Step(View(), r, []) == M.FillPeekBuf(old(View()), old(buffer.Capacity())) && !r.Pending?
      ensures buffer == old(buffer) && buffer.Capacity() == old(buffer.Capacity())
    {
      ghost var st := View();
      var refused;
      refused, r := TopUp(reader, buffer, buffer.Capacity(), PlainSlice);
    }
  }
}
