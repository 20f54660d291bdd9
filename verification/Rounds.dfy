/** The steps that every peeking loop repeats on the reader and the peek buffer. */
module Rounds {
  import opened Io
  import opened Pump
  import opened Utf8
  import opened Readers
  import opened Buffers
  import M = Machine

  ghost function StateOf(reader: Reader, buffer: Buffer): M.State
    reads reader, buffer
  {
    M.State(buffer.bytes, reader.Position(), buffer.limit)
  }

  /** Reads into the tail of the peek buffer, again and again while interrupted. */
  method ReadRetrying(reader: Reader, buffer: Buffer, from: nat, style: Style) returns (r: Poll)
    requires buffer.Valid() && from <= buffer.len
    modifies reader, buffer, buffer.data
    ensures buffer.Valid() && buffer.data == old(buffer.data) && r != Failed(Interrupted)
    ensures buffer.Capacity() == old(buffer.Capacity())
    ensures TailRead(Source(old(reader.remaining), Settled(old(reader.plan))), old(buffer.bytes), from,
                     r, reader.Position(), buffer.bytes)
    ensures Blocking(old(reader.plan)) ==> !r.Pending? && Blocking(reader.plan)
    ensures reader.calls == old(reader.calls) + Interruptions(old(reader.plan)) + 1
  {
    hide TailRead;
    ghost var s, bytes := reader.Position(), buffer.bytes;
    r := buffer.ReadIntoTail(reader, from, style);
    while r == Failed(Interrupted)
      invariant buffer.Valid() && buffer.data == old(buffer.data) && |bytes| == |buffer.bytes|
      invariant buffer.Capacity() == old(buffer.Capacity())
      invariant s.remaining == old(reader.remaining) && Settled(s.plan) == Settled(old(reader.plan))
      invariant TailRead(s, bytes, from, r, reader.Position(), buffer.bytes)
      invariant Blocking(old(reader.plan)) ==> !r.Pending? && Blocking(reader.plan)
      invariant reader.calls + Interruptions(s.plan) == old(reader.calls) + Interruptions(old(reader.plan)) + 1
      decreases s.plan
    {
      ghost var s1, b1 := reader.Position(), buffer.bytes;
      r := buffer.ReadIntoTail(reader, from, style);
      RetryTailRead(s, bytes, from, s1, b1, r, reader.Position(), buffer.bytes);
      s := s1;
    }
    AnsweredIsSettled(s, bytes, from, r, reader.Position(), buffer.bytes);
  }

  /** Tops the peek buffer up towards `want` bytes: grow once, read again and again while interrupted, cut to what
      arrived. */
  method TopUp(reader: Reader, buffer: Buffer, want: nat, style: Style) returns (refused: bool, r: Poll)
    requires buffer.Valid() && buffer.len <= want
    modifies reader, buffer, buffer.data
    ensures buffer.Valid() && (buffer.data == old(buffer.data) || fresh(buffer.data))
    ensures buffer.Capacity() == if refused || buffer.limit.AtMost? then old(buffer.Capacity())
                                 else Max(old(buffer.Capacity()), want)
    ensures M.ToppedUp(old(StateOf(reader, buffer)), want, refused, r, StateOf(reader, buffer))
    ensures !refused ==> r != Failed(Interrupted)
    ensures Blocking(old(reader.plan)) ==> !r.Pending? && Blocking(reader.plan)
    ensures reader.calls == old(reader.calls) + if refused then 0 else Interruptions(old(reader.plan)) + 1
  {
    hide TailRead, Settled;
    ghost var st := StateOf(reader, buffer);
    var have := buffer.len;
    var ok := buffer.Resize(want);
    if !ok {
      return true, Failed(buffer.limit.refusal);
    }
    ghost var grown := buffer.bytes;
    r := ReadRetrying(reader, buffer, have, style);
    M.ReadTopsUp(st, want, grown, r, reader.Position(), buffer.bytes);
    buffer.Truncate(if r.Ready? then have + r.value else have);
    refused := false;
  }

  /** One round of an unbounded peek: grow, let the reader write into the growth, cut to what arrived. */
  method GrowAndRead(reader: Reader, buffer: Buffer, style: Style) returns (refused: bool, r: Poll)
    requires buffer.Valid()
    modifies reader, buffer, buffer.data
    ensures buffer.Valid() && (buffer.data == old(buffer.data) || fresh(buffer.data))
    ensures M.Round(old(StateOf(reader, buffer)), ToEnd, refused, r, StateOf(reader, buffer))
    ensures Blocking(old(reader.plan)) ==> !r.Pending? && Blocking(reader.plan)
    ensures reader.calls == old(reader.calls) + if refused then 0 else 1
  {
    hide TailRead;
    ghost var st := StateOf(reader, buffer);
    var oldLen := buffer.len;
    var growth, _ := GrowPeekBuffer(buffer);
    if growth.None? {
      return true, Failed(buffer.limit.refusal);
    }
    ghost var grown := buffer.bytes;
    r := buffer.ReadIntoTail(reader, oldLen, style);
    M.ReadMakesRound(st, ToEnd, grown, r, reader.Position(), buffer.bytes);
    buffer.Truncate(if r.Ready? then oldLen + r.value else oldLen);
    refused := false;
  }

  /** One round of an exact peek of `total` bytes. */
  method ResizeAndRead(reader: Reader, buffer: Buffer, total: nat, style: Style) returns (refused: bool, r: Poll)
    requires buffer.Valid() && buffer.len < total
    modifies reader, buffer, buffer.data
    ensures buffer.Valid() && (buffer.data == old(buffer.data) || fresh(buffer.data))
    ensures buffer.Capacity() == if refused || buffer.limit.AtMost? then old(buffer.Capacity())
                                 else Max(old(buffer.Capacity()), total)
    ensures M.Round(old(StateOf(reader, buffer)), Exactly(total), refused, r, StateOf(reader, buffer))
    ensures reader.calls == old(reader.calls) + if refused then 0 else 1
  {
    hide TailRead;
    ghost var st := StateOf(reader, buffer);
    var oldLen := buffer.len;
    var ok := buffer.Resize(total);
    if !ok {
      return true, Failed(buffer.limit.refusal);
    }
    ghost var grown := buffer.bytes;
    r := buffer.ReadIntoTail(reader, oldLen, style);
    M.ReadMakesRound(st, Exactly(total), grown, r, reader.Position(), buffer.bytes);
    buffer.Truncate(if r.Ready? then oldLen + r.value else oldLen);
    refused := false;
  }

  /** The end of `peek_to_string`: the loop has ended at the end of the stream, or with an error. */
  method FinishString(failure: Option<Error>, buffer: Buffer, text: Text) returns (r: Poll)
    requires buffer.Valid() && text.Valid()
    modifies text
    ensures text.Valid() && !r.Pending?
    ensures var (result, gained) := M.Conclude(if failure.None? then Eof else Broken(failure.value), buffer.bytes);
            r == result && text.bytes == old(text.bytes) + gained
  {
    hide FromUtf8, ValidUtf8;
    var all := buffer.AsSlice();
    FromUtf8IsGrammar(all);
    ValidUpToIsLongest(all);
    var verdict := FromUtf8(all);
    if verdict.Good? {
      text.PushStr(all);
      assert all[..|all|] == all;
      r := if failure.None? then Ready(buffer.len) else Failed(failure.value);
    } else if failure.None? {
      r := Failed(InvalidData);
    } else {
      if verdict.validUpTo != 0 {
        text.PushStr(all[..verdict.validUpTo]);
      }
      r := Failed(failure.value);
    }
  }
}
