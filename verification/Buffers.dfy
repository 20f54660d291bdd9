/** The peek buffer: a growable byte array that may refuse to grow. */
module Buffers {
  import opened Io
  import opened Growth
  import opened Readers

  /** How the reader is handed a slice to write into: as it is (`std`, `futures`), or wrapped (`tokio`). */
  datatype Style = PlainSlice | WrappedSlice

  class Buffer {
    ghost var bytes: seq<Byte>  // what `as_slice` shows
    var data: array<Byte>
    var len: nat
    const limit: Limit

    ghost predicate Valid()
      reads this, data
    {
      len <= data.Length && limit.Admits(len) && bytes == data[..len]
    }

    /** An empty buffer with room for `capacity` bytes; a bound of its type may be smaller than that. */
    constructor (limit: Limit, capacity: nat)
      ensures Valid() && bytes == [] && this.limit == limit
      ensures fresh(data) && Capacity() == if limit.AtMost? then limit.max else capacity
    {
      this.limit := limit;
      len := 0;
      data := new Byte[capacity](_ => 0);
      bytes := [];
    }

    function AsSlice(): (s: seq<Byte>)
      requires Valid()
      reads this, data
      ensures s == bytes
    {
      data[..len]
    }

    /** A bounded buffer reports its bound, the others what they have allocated. */
    function Capacity(): (cap: nat)
      requires Valid()
      reads this, data
      ensures cap >= len && limit.Admits(cap)
    {
      if limit.AtMost? then limit.max else data.Length
    }

    /** Grows with zeros or shrinks; a refused growth changes nothing. */
    method Resize(n: nat) returns (ok: bool)
      requires Valid()
      modifies this, data
      ensures Valid() && (data == old(data) || fresh(data))
      ensures ok <==> limit.Admits(n)
      ensures bytes == if !ok then old(bytes)
                       else if n <= |old(bytes)| then old(bytes)[..n]
                       else old(bytes) + Zeros(n - |old(bytes)|)
      ensures Capacity() == if limit.AtMost? then limit.max else if ok then Max(old(Capacity()), n) else old(Capacity())
    {
      if !limit.Admits(n) {
        return false;
      }
      if n > data.Length {
        var larger := new Byte[n](_ => 0);
        forall i | 0 <= i < len { larger[i] := data[i]; }
        data := larger;
      } else {
        forall i | len <= i < n { data[i] := 0; }
      }
      len := n;
      bytes := data[..len];
      return true;
    }

    method Truncate(n: nat)
      requires Valid()
      modifies this
      ensures Valid() && data == old(data) && bytes == old(bytes)[..Min(n, |old(bytes)|)]
      ensures Capacity() == old(Capacity())
    {
      if n < len {
        len := n;
        bytes := bytes[..n];
      }
    }

    method Clear()
      requires Valid()
      modifies this
      ensures Valid() && data == old(data) && bytes == [] && Capacity() == old(Capacity())
    {
      len := 0;
      bytes := [];
    }

    /** Drops the first `n` bytes, shifting the others to the front. */
    method Consume(n: nat)
      requires Valid() && n <= len
      modifies this, data
      ensures Valid() && data == old(data) && bytes == old(bytes)[n..]
      ensures Capacity() == old(Capacity())
    {
      var rest := len - n;
      for i := 0 to rest
        invariant len == old(len) && data == old(data) && bytes == old(bytes)
        invariant forall j :: 0 <= j < i ==> data[j] == old(data[n + j])
        invariant forall j :: i <= j < data.Length ==> data[j] == old(data[j])
      {
        data[i] := data[n + i];
      }
      len := rest;
      bytes := bytes[n..];
    }

    /** Lets the reader write into the tail of the buffer, from `from` to its end. */
    method ReadIntoTail(reader: Reader, from: nat, style: Style) returns (r: Poll)
      requires Valid() && from <= len
      modifies reader, this, data
      ensures Valid() && data == old(data) && len == old(len) && Capacity() == old(Capacity())
      ensures TailRead(old(reader.Position()), old(bytes), from, r, reader.Position(), bytes)
      ensures Blocking(old(reader.plan)) ==> !r.Pending? && Blocking(reader.plan)
      ensures reader.calls == old(reader.calls) + 1
    {
      hide TailRead, Overwrite, Answer, Count, Advance, Rest, Blocking;
      ghost var s, before := reader.Position(), data[..];
      r := HandTail(reader, from, style);
      WriteIsTailRead(s, before, len, from, r, reader.Position(), data[..]);
      bytes := data[..len];
      assert before[..len] == old(bytes) && data[..][..len] == bytes;
    }

    /** Hands the reader the tail, in the form that it takes. */
    method HandTail(reader: Reader, from: nat, style: Style) returns (r: Poll)
      requires from <= len <= data.Length
      modifies reader, data
      ensures r == Answer(|old(reader.remaining)|, old(reader.plan), len - from)
      ensures var n := Count(|old(reader.remaining)|, old(reader.plan), len - from);
              && reader.Position() == Advance(old(reader.Position()), n, Rest(old(reader.plan)))
              && data[..] == Overwrite(old(data[..]), from, old(reader.remaining)[..n])
      ensures Blocking(old(reader.plan)) ==> !r.Pending? && Blocking(reader.plan)
      ensures reader.calls == old(reader.calls) + 1
    {
      hide Overwrite;
      match style {
        case PlainSlice =>
          r := reader.PollRead(data, from, len);
        case WrappedSlice =>
          var tail := new ReadBuf(data, from, len);
          var done := reader.PollReadBuf(tail);
          match done {
            case Done => r := Ready(tail.filled);
            case Erred(e) => r := Failed(e);
            case Waiting => r := Pending;
          }
      }
    }
  }

  function Zeros(n: nat): (z: seq<Byte>)
    ensures |z| == n
  {
    seq(n, _ => 0)
  }

  /** Tries to grow by READ_CHUNK, halving the growth on each refusal, down to one byte. */
  method GrowPeekBuffer(buffer: Buffer) returns (growth: Option<nat>, ghost attempts: nat)
    requires buffer.Valid()
    modifies buffer, buffer.data
    ensures buffer.Valid() && (buffer.data == old(buffer.data) || fresh(buffer.data))
    ensures growth == GrowthFor(buffer.limit, |old(buffer.bytes)|)
    ensures buffer.bytes == old(buffer.bytes) + (if growth.Some? then Zeros(growth.value) else [])
    ensures 1 <= attempts <= 11 && (growth.Some? ==> growth.value == Pow2(11 - attempts))
    ensures growth.None? ==> attempts == 11
  {
    var oldLen := buffer.len;
    var g := READ_CHUNK;
    attempts := 0;
    Pow2Ten();
    while true
      invariant buffer.Valid() && (buffer.data == old(buffer.data) || fresh(buffer.data))
      invariant buffer.bytes == old(buffer.bytes) && buffer.len == oldLen
      invariant g >= 1 && attempts <= 10 && g == Pow2(10 - attempts)
      invariant FirstFit(buffer.limit, oldLen, g) == GrowthFor(buffer.limit, oldLen)
      decreases g
    {
      attempts := attempts + 1;
      var ok := buffer.Resize(oldLen + g);
      if ok {
        return Some(g), attempts;
      } else if g > 1 {
        g := g / 2;
      } else {
        return None, attempts;
      }
    }
  }
}
