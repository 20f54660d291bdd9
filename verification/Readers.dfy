/** The wrapped reader, and the growable sinks that callers pass to the unbounded peeks. */
module Readers {
  import opened Io
  import opened Utf8

  /** What a `tokio` read reports: the byte count is left in the `ReadBuf`. */
  datatype PollUnit = Done | Erred(error: Error) | Waiting

  function WithoutCount(r: Poll): PollUnit {
    match r
    case Ready(_) => Done
    case Failed(e) => Erred(e)
    case Pending => Waiting
  }

  /** `tokio::io::ReadBuf` over `data[start..end]`: appending, with the first `filled` bytes written. */
  class ReadBuf {
    const data: array<Byte>
    const start: nat
    const end: nat
    var filled: nat

    ghost predicate Valid()
      reads this
    {
      start + filled <= end <= data.Length
    }

    constructor (data: array<Byte>, start: nat, end: nat)
      requires start <= end <= data.Length
      ensures Valid() && filled == 0 && this.data == data && this.start == start && this.end == end
    {
      this.data := data;
      this.start := start;
      this.end := end;
      filled := 0;
    }

    function Filled(): seq<Byte>
      requires Valid()
      reads this, data
    {
      data[start..start + filled]
    }

    function Remaining(): nat
      requires Valid()
      reads this
    {
      end - start - filled
    }

    method PutSlice(src: seq<Byte>)
      requires Valid() && |src| <= Remaining()
      modifies this, data
      ensures Valid() && Filled() == old(Filled()) + src
    {
      CopyFromSlice(data, start + filled, src);
      filled := filled + |src|;
    }
  }

  /** A scripted reader: it gives up the bytes of `remaining` in order, and answers call by call as planned.
      It never writes past the slice, and does not advance when it fails or stalls. */
  class Reader {
    var remaining: seq<Byte>
    var plan: Plan
    ghost var calls: nat  // how often it has been read from

    constructor (stream: seq<Byte>, plan: Plan)
      ensures remaining == stream && this.plan == plan && calls == 0
    {
      remaining := stream;
      this.plan := plan;
      calls := 0;
    }

    function Position(): Source
      reads this
    {
      Source(remaining, plan)
    }

    /** Reads into `dst[lo..hi]`. */
    method PollRead(dst: array<Byte>, lo: nat, hi: nat) returns (r: Poll)
      requires lo <= hi <= dst.Length
      modifies this, dst
      ensures r == Answer(|old(remaining)|, old(plan), hi - lo)
      ensures var n := Count(|old(remaining)|, old(plan), hi - lo);
              && Position() == Advance(old(Position()), n, Rest(old(plan)))
              && dst[..] == Overwrite(old(dst[..]), lo, old(remaining)[..n])
      ensures Blocking(old(plan)) ==> !r.Pending? && Blocking(plan)
      ensures calls == old(calls) + 1
    {
      var n := Count(|remaining|, plan, hi - lo);
      r := Answer(|remaining|, plan, hi - lo);
      forall i | 0 <= i < n { dst[lo + i] := remaining[i]; }
      remaining := remaining[n..];
      plan := Rest(plan);
      calls := calls + 1;
    }

    /** The `tokio` form: appends to `dst`. */
    method PollReadBuf(dst: ReadBuf) returns (r: PollUnit)
      requires dst.Valid()
      modifies this, dst, dst.data
      ensures dst.Valid()
      ensures var room := old(dst.Remaining()); var n := Count(|old(remaining)|, old(plan), room);
              && r == WithoutCount(Answer(|old(remaining)|, old(plan), room))
              && Position() == Advance(old(Position()), n, Rest(old(plan)))
              && dst.filled == old(dst.filled) + n && dst.Filled() == old(dst.Filled()) + old(remaining)[..n]
              && dst.data[..] == Overwrite(old(dst.data[..]), dst.start + old(dst.filled), old(remaining)[..n])
      ensures calls == old(calls) + 1
    {
      var result := PollRead(dst.data, dst.start + dst.filled, dst.end);
      match result
      case Ready(n) =>
        dst.filled := dst.filled + n;
        r := Done;
      case Failed(e) => r := Erred(e);
      case Pending => r := Waiting;
    }

    /** The reader's own `fill_buf`: shows bytes without giving them up. */
    method PollFillBuf() returns (r: Poll, shown: seq<Byte>)
      modifies this`plan
      ensures r == Answer(|remaining|, old(plan), |remaining|) && plan == Rest(old(plan))
      ensures Blocking(old(plan)) ==> !r.Pending? && Blocking(plan)
      ensures shown == remaining[..Count(|remaining|, old(plan), |remaining|)]
    {
      shown := remaining[..Count(|remaining|, plan, |remaining|)];
      r := Answer(|remaining|, plan, |remaining|);
      plan := Rest(plan);
    }

    method Consume(amt: nat)
      requires amt <= |remaining|
      modifies this`remaining
      ensures remaining == old(remaining)[amt..]
    {
      remaining := remaining[amt..];
    }
  }

  /** What one call does when the reader `s` writes into a buffer holding `before`, from `from` to its end:
      it answers `r`, becomes `s'`, and the buffer holds `after`. */
  ghost predicate TailRead(s: Source, before: seq<Byte>, from: nat, r: Poll, s': Source, after: seq<Byte>)
    requires from <= |before|
  {
    var room := |before| - from;
    var n := Count(|s.remaining|, s.plan, room);
    && r == Answer(|s.remaining|, s.plan, room)
    && s' == Advance(s, n, Rest(s.plan))
    && |after| == |before|
    && after[..from + n] == before[..from] + s.remaining[..n]
  }

  /** Writing into a slice of the backing array, seen on its first `len` bytes. */
  lemma WriteIsTailRead(s: Source, before: seq<Byte>, len: nat, from: nat, r: Poll, s': Source, after: seq<Byte>)
    requires from <= len <= |before|
    requires r == Answer(|s.remaining|, s.plan, len - from)
    requires var n := Count(|s.remaining|, s.plan, len - from);
             s' == Advance(s, n, Rest(s.plan)) && after == Overwrite(before, from, s.remaining[..n])
    ensures TailRead(s, before[..len], from, r, s', after[..len])
  {
  }

  lemma TailReadKeepsFront(s: Source, before: seq<Byte>, from: nat, r: Poll, s': Source, after: seq<Byte>)
    requires from <= |before| && TailRead(s, before, from, r, s', after)
    ensures |after| == |before| && after[..from] == before[..from]
  {
    var n := Count(|s.remaining|, s.plan, |before| - from);
    assert after[..from + n][..from] == after[..from];
  }

  /** An interrupted call, and the call that retries it, amount to the second one alone. */
  lemma RetryTailRead(s: Source, b0: seq<Byte>, from: nat, s1: Source, b1: seq<Byte>,
                      r: Poll, s2: Source, b2: seq<Byte>)
    requires from <= |b0| == |b1|
    requires TailRead(s, b0, from, Failed(Interrupted), s1, b1) && TailRead(s1, b1, from, r, s2, b2)
    ensures s.plan.Do? && s.plan.first == Fail(Interrupted) && s1 == Source(s.remaining, s.plan.rest)
    ensures TailRead(s1, b0, from, r, s2, b2)
  {
    TailReadKeepsFront(s, b0, from, Failed(Interrupted), s1, b1);
  }

  lemma AnsweredIsSettled(s: Source, before: seq<Byte>, from: nat, r: Poll, s': Source, after: seq<Byte>)
    requires from <= |before| && TailRead(s, before, from, r, s', after) && r != Failed(Interrupted)
    ensures Settled(s.plan) == s.plan && Interruptions(s.plan) == 0
  {
  }

  /** `dst[at..].copy_from_slice(src)` on a slice of the right length. */
  method CopyFromSlice(dst: array<Byte>, at: nat, src: seq<Byte>)
    requires at + |src| <= dst.Length
    modifies dst
    ensures dst[..] == Overwrite(old(dst[..]), at, src)
  {
    forall i | 0 <= i < |src| { dst[at + i] := src[i]; }
  }

  /** The caller's `Vec<u8>`. */
  class ByteVec {
    var bytes: seq<Byte>

    constructor (bytes: seq<Byte>)
      ensures this.bytes == bytes
    {
      this.bytes := bytes;
    }

    method ExtendFromSlice(more: seq<Byte>)
      modifies this
      ensures bytes == old(bytes) + more
    {
      bytes := bytes + more;
    }
  }

  /** The caller's `String`: it only ever holds valid UTF-8, so only valid text may be pushed. */
  class Text {
    var bytes: seq<Byte>

    ghost predicate Valid()
      reads this
    {
      ValidUtf8(bytes)
    }

    constructor (bytes: seq<Byte>)
      requires ValidUtf8(bytes)
      ensures Valid() && this.bytes == bytes
    {
      this.bytes := bytes;
    }

    method PushStr(s: seq<Byte>)
      requires Valid() && ValidUtf8(s)
      modifies this
      ensures Valid() && bytes == old(bytes) + s
    {
      ConcatValid(bytes, s);
      bytes := bytes + s;
    }
  }
}
