/** A client that makes any calls it likes on a `Peekable` object. */
module Client {
  import opened Io
  import opened Utf8
  import opened Readers
  import opened Sync
  import opened Transparency
  import opened Laws
  import M = Machine

  /** The calls that a blocking peekable offers. */
  predicate Offered(op: Op) { !op.OpPollPeek? && !op.OpDrainToString? && !op.OpPollFillPeekBuf? }

  /** How far `fill_peek_buf` goes is not for the caller to say. */
  predicate SameCall(op: Op, made: Op) { made == op || (op.OpFillPeekBuf? && made.OpFillPeekBuf?) }

  /** Makes one call, and returns the bytes it took out of the stream. */
  method Perform(p: Peekable, op: Op) returns (taken: seq<Byte>, ghost made: Op)
    requires p.Valid() && Offered(op)
    modifies p, p.reader, p.buffer, p.buffer.data
    ensures p.Valid() && fresh(p.Repr() - old(p.Repr()))
    ensures SameCall(op, made)
    ensures p.View() == Exec(made, old(p.View())).state && taken == Taken(made, old(p.View()))
  {
    hide Exec, M.Read, M.FillBuf, M.ConsumeBuf;
    made := op;
    if op.OpRead? {
      taken := PerformRead(p, op.want);
    } else if op.OpBufRead? {
      taken := PerformBufRead(p, op.amt);
    } else if op.OpConsume? {
      taken := PerformConsume(p, op.inPlace);
    } else {
      made := PerformPeek(p, op);
      taken := [];
    }
  }

  method PerformRead(p: Peekable, want: nat) returns (taken: seq<Byte>)
    requires p.Valid()
    modifies p, p.reader, p.buffer, p.buffer.data
    ensures p.Valid() && fresh(p.Repr() - old(p.Repr()))
    ensures p.View() == Exec(OpRead(want), old(p.View())).state && taken == Taken(OpRead(want), old(p.View()))
  {
    hide Answer, Count;
    var buf := new Byte[want](_ => 0);
    ghost var st := p.View();
    var r := p.Read(buf);
    taken := if r.Ready? then buf[..r.value] else [];
    assert taken == M.Read(st, want).out;
  }

  /** `fill_buf`, then `consume` of at most what it showed. */
  method PerformBufRead(p: Peekable, amt: nat) returns (taken: seq<Byte>)
    requires p.Valid()
    modifies p, p.reader, p.buffer, p.buffer.data
    ensures p.Valid() && fresh(p.Repr() - old(p.Repr()))
    ensures p.View() == Exec(OpBufRead(amt), old(p.View())).state && taken == Taken(OpBufRead(amt), old(p.View()))
  {
    ghost var st := p.View();
    var r, shown := p.FillBuf();
    var used := if r.Ready? then Min(amt, |shown|) else 0;
    taken := shown[..used];
    hide M.FillBuf, M.ConsumeBuf;
    ShownIsConsumed(st, used);
    p.ConsumeBuf(used);
  }

  method PerformConsume(p: Peekable, inPlace: bool) returns (taken: seq<Byte>)
    requires p.Valid()
    modifies p, p.buffer
    ensures p.Valid() && fresh(p.Repr() - old(p.Repr()))
    ensures p.View() == Exec(OpConsume(inPlace), old(p.View())).state
    ensures taken == Taken(OpConsume(inPlace), old(p.View()))
  {
    if inPlace {
      taken := p.buffer.AsSlice();
      p.ConsumeInPlace();
    } else {
      var handed := p.Consume();
      taken := handed.AsSlice();
    }
  }

  /** Makes one call that only looks ahead. */
  method PerformPeek(p: Peekable, op: Op) returns (ghost made: Op)
    requires p.Valid() && Offered(op) && !Takes(op)
    modifies p, p.reader, p.buffer, p.buffer.data
    ensures p.Valid() && fresh(p.Repr() - old(p.Repr()))
    ensures SameCall(op, made) && p.View() == Exec(made, old(p.View())).state
    ensures p.View().Unread() == old(p.View()).Unread() && old(p.View()).buffer <= p.View().buffer
  {
    hide M.Peek, M.PeekExact, M.FillBuf, LooksAhead;
    ghost var st := p.View();
    made := op;
    if op.OpPeek? {
      var buf := new Byte[op.want](_ => 0);
      var _ := p.Peek(buf);
    } else if op.OpPeekExact? {
      var buf := new Byte[op.total](_ => 0);
      var _ := p.PeekExact(buf);
    } else if op.OpFillBuf? {
      var _, _ := p.FillBuf();
    } else {
      made := PerformUnboundedPeek(p, op);
    }
    PeeksOnlyLookAhead(made, st);
    LookingAheadKeepsStream(st, p.View());
  }

  method PerformUnboundedPeek(p: Peekable, op: Op) returns (ghost made: Op)
    requires p.Valid() && (op.OpPeekToEnd? || op.OpPeekToString? || op.OpFillPeekBuf?)
    modifies p, p.reader, p.buffer, p.buffer.data
    ensures p.Valid() && fresh(p.Repr() - old(p.Repr()))
    ensures SameCall(op, made) && p.View() == Exec(made, old(p.View())).state
  {
    hide M.PeekToEnd, M.PeekToString, M.FillPeekBuf, M.Pumped, ValidUtf8, FromUtf8;
    made := op;
    match op {
      case OpPeekToEnd =>
        var vec := new ByteVec([]);
        var _ := p.PeekToEnd(vec);
      case OpPeekToString =>
        FromUtf8IsGrammar([]);
        NothingIsGood();
        var text := new Text([]);
        var _ := p.PeekToString(text);
      case OpFillPeekBuf(_) =>
        made := OpFillPeekBuf(p.buffer.Capacity() - p.buffer.len);
        var _ := p.FillPeekBuf();
    }
  }

  /** Any number of any calls: the object ends where the run of these operations ends, so that the bytes taken, in
      order, and the bytes still unread are the original stream. */
  method PerformAll(p: Peekable, ops: seq<Op>) returns (taken: seq<Byte>, ghost made: seq<Op>)
    requires p.Valid() && forall op | op in ops :: Offered(op)
    modifies p, p.reader, p.buffer, p.buffer.data
    ensures p.Valid() && fresh(p.Repr() - old(p.Repr()))
    ensures |made| == |ops| && forall i | 0 <= i < |ops| :: SameCall(ops[i], made[i])
    ensures p.View() == RunOps(made, old(p.View())) && taken == TakenBy(made, old(p.View()))
    ensures taken + p.View().Unread() == old(p.View()).Unread()
  {
    hide Exec, Taken, RunOps, TakenBy;
    ghost var st := p.View();
    taken, made := [], [];
    RunOfNone(st);
    for i := 0 to |ops|
      invariant p.Valid() && fresh(p.Repr() - old(p.Repr()))
      invariant |made| == i && forall j | 0 <= j < i :: SameCall(ops[j], made[j])
      invariant p.View() == RunOps(made, st) && taken == TakenBy(made, st)
    {
      ghost var op;
      var more;
      more, op := Perform(p, ops[i]);
      RunThen(made, op, st);
      taken, made := taken + more, made + [op];
    }
    RunsAreTransparent(made, st);
  }
}
