/** A client that makes any calls it likes on an `AsyncPeekable` object, of either crate, and polls the futures it is
    handed as often as it likes before it drops them. */
module AsyncClient {
  import opened Io
  import opened Utf8
  import opened Readers
  import opened Transparency
  import opened Laws
  import F = Futures
  import M = Machine

  /** A call of a `poll_` function; or the future of `op`, polled while it is pending, but at most `polls` times,
      and then dropped. */
  datatype Task = Call(op: Op) | Future(op: Op, polls: nat)

  predicate Offered(task: Task) {
    match task
    case Call(op) => op.OpRead? || op.OpBufRead? || op == OpConsume(true) || op.OpPollPeek? || op.OpFillBuf?
    case Future(op, _) => op.OpPeekExact? || op.OpPeekToEnd? || op.OpPeekToString? || op.OpPollFillPeekBuf?
  }

  /** How far `fill_peek_buf` goes is not for the caller to say. */
  predicate SameFuture(op: Op, made: Op) { made == op || (op.OpPollFillPeekBuf? && made.OpPollFillPeekBuf?) }

  /** What the `i`-th poll of the future of `op` does: `peek_to_string` makes its check in the first one only. */
  function PollOf(op: Op, i: nat): Op {
    if op.OpPeekToString? && i > 0 then OpDrainToString else op
  }

  function PollsOf(op: Op, n: nat): (polls: seq<Op>)
    ensures |polls| == n
  {
    seq(n, i requires 0 <= i => PollOf(op, i))
  }

  /** The operations `made` are what becomes of `task`. */
  ghost predicate Carries(task: Task, made: seq<Op>) {
    match task
    case Call(op) => made == [op]
    case Future(op, polls) =>
      |made| <= polls && (polls > 0 ==> made != []) && exists op' :: SameFuture(op, op') && made == PollsOf(op', |made|)
  }

  /** The operations `made` are what becomes of `tasks`, one after the other. */
  ghost predicate CarriesAll(tasks: seq<Task>, made: seq<Op>) {
    if tasks == [] then made == []
    else
      var last := |tasks| - 1;
      exists k | 0 <= k <= |made| :: CarriesAll(tasks[..last], made[..k]) && Carries(tasks[last], made[k..])
  }

  // ---- Calls ----

  method PerformRead(p: F.AsyncPeekable, want: nat) returns (taken: seq<Byte>)
    requires p.Valid()
    modifies p.reader, p.buffer, p.buffer.data
    ensures p.Valid() && p.Repr() == old(p.Repr())
    ensures p.View() == Exec(OpRead(want), old(p.View())).state && taken == Taken(OpRead(want), old(p.View()))
  {
    hide Answer, Count, M.Read;
    ghost var st := p.View();
    var buf := new Byte[want](_ => 0);
    match p.style {
      case PlainSlice =>
        var r := p.PollRead(buf);
        taken := if r.Ready? then buf[..r.value] else [];
      case WrappedSlice =>
        var readBuf := new ReadBuf(buf, 0, want);
        var _ := p.PollReadBuf(readBuf);
        taken := readBuf.Filled();
    }
    assert taken == M.Read(st, want).out;
  }

  /** `poll_fill_buf`, then `consume` of at most what it showed. */
  method PerformBufRead(p: F.AsyncPeekable, amt: nat) returns (taken: seq<Byte>)
    requires p.Valid()
    modifies p.reader, p.buffer, p.buffer.data
    ensures p.Valid() && p.Repr() == old(p.Repr())
    ensures p.View() == Exec(OpBufRead(amt), old(p.View())).state && taken == Taken(OpBufRead(amt), old(p.View()))
  {
    ghost var st := p.View();
    var r, shown := p.PollFillBuf();
    var used := if r.Ready? then Min(amt, |shown|) else 0;
    taken := shown[..used];
    hide M.FillBuf, M.ConsumeBuf;
    ShownIsConsumed(st, used);
    p.ConsumeBuf(used);
  }

  method PerformPollPeek(p: F.AsyncPeekable, want: nat)
    requires p.Valid()
    modifies p.reader, p.buffer, p.buffer.data
    ensures p.Valid() && fresh(p.Repr() - old(p.Repr()))
    ensures p.View() == Exec(OpPollPeek(want), old(p.View())).state
  {
    hide M.PollPeek;
    var buf := new Byte[want](_ => 0);
    match p.style {
      case PlainSlice =>
        var _ := p.PollPeek(buf);
      case WrappedSlice =>
        var readBuf := new ReadBuf(buf, 0, want);
        var _ := p.PollPeekBuf(readBuf);
    }
  }

  method PerformCall(p: F.AsyncPeekable, op: Op) returns (taken: seq<Byte>)
    requires p.Valid() && Offered(Call(op))
    modifies p.reader, p.buffer, p.buffer.data
    ensures p.Valid() && fresh(p.Repr() - old(p.Repr()))
    ensures p.View() == Exec(op, old(p.View())).state && taken == Taken(op, old(p.View()))
  {
    hide M.Read, M.PollPeek, M.FillBuf, M.ConsumeBuf;
    taken := [];
    if op.OpRead? {
      taken := PerformRead(p, op.want);
    } else if op.OpBufRead? {
      taken := PerformBufRead(p, op.amt);
    } else if op.OpConsume? {
      taken := p.buffer.AsSlice();
      p.ConsumeInPlace();
    } else if op.OpPollPeek? {
      PerformPollPeek(p, op.want);
    } else {
      var _, _ := p.PollFillBuf();
    }
  }

  // ---- Futures ----

  lemma NoPolls(op: Op, st: M.State)
    ensures RunOps(PollsOf(op, 0), st) == st
  {
  }

  lemma PolledOnceMore(op: Op, n: nat, st: M.State)
    ensures RunOps(PollsOf(op, n + 1), st) == Exec(PollOf(op, n), RunOps(PollsOf(op, n), st)).state
  {
    hide Exec, RunOps;
    assert PollsOf(op, n + 1) == PollsOf(op, n) + [PollOf(op, n)];
    RunThen(PollsOf(op, n), PollOf(op, n), st);
  }

  method PollExact(p: F.AsyncPeekable, total: nat, polls: nat) returns (ghost n: nat)
    requires p.Valid()
    modifies p.reader, p.buffer, p.buffer.data
    ensures p.Valid() && fresh(p.Repr() - old(p.Repr())) && n <= polls && (polls > 0 ==> n > 0)
    ensures p.View() == RunOps(PollsOf(OpPeekExact(total), n), old(p.View()))
  {
    hide RunOps, PollsOf, M.PeekExact, M.Pumped, Overwrite;
    ghost var st, op := p.View(), OpPeekExact(total);
    var buf := new Byte[total](_ => 0);
    var f := new F.PeekExact(p, buf);
    n := 0;
    NoPolls(op, st);
    for i := 0 to polls
      invariant f.Valid() && fresh(p.Repr() - old(p.Repr()))
      invariant n == i && p.View() == RunOps(PollsOf(op, n), st)
    {
      var r := f.Poll();
      PolledOnceMore(op, n, st);
      n := n + 1;
      if !r.Pending? {
        break;
      }
    }
  }

  method PollToEnd(p: F.AsyncPeekable, polls: nat) returns (ghost n: nat)
    requires p.Valid()
    modifies p.reader, p.buffer, p.buffer.data
    ensures p.Valid() && fresh(p.Repr() - old(p.Repr())) && n <= polls && (polls > 0 ==> n > 0)
    ensures p.View() == RunOps(PollsOf(OpPeekToEnd, n), old(p.View()))
  {
    hide RunOps, PollsOf, M.PeekToEnd, M.Pumped;
    ghost var st := p.View();
    var vec := new ByteVec([]);
    var f := new F.PeekToEnd(p, vec);
    n := 0;
    NoPolls(OpPeekToEnd, st);
    for i := 0 to polls
      invariant f.Valid() && fresh(p.Repr() - old(p.Repr()))
      invariant n == i && p.View() == RunOps(PollsOf(OpPeekToEnd, n), st)
    {
      var r := f.Poll();
      PolledOnceMore(OpPeekToEnd, n, st);
      n := n + 1;
      if !r.Pending? {
        break;
      }
    }
  }

  method PollToString(p: F.AsyncPeekable, polls: nat) returns (ghost n: nat)
    requires p.Valid()
    modifies p.reader, p.buffer, p.buffer.data
    ensures p.Valid() && fresh(p.Repr() - old(p.Repr())) && n <= polls && (polls > 0 ==> n > 0)
    ensures p.View() == RunOps(PollsOf(OpPeekToString, n), old(p.View()))
  {
    hide RunOps, PollsOf, M.PeekToString, M.DrainToString, M.Pumped, FromUtf8, ValidUtf8;
    ghost var st := p.View();
    FromUtf8IsGrammar([]);
    NothingIsGood();
    var text := new Text([]);
    var f := new F.PeekToString(p, text);
    n := 0;
    NoPolls(OpPeekToString, st);
    for i := 0 to polls
      invariant f.Valid() && fresh(p.Repr() - old(p.Repr())) && f.started == (i > 0)
      invariant n == i && p.View() == RunOps(PollsOf(OpPeekToString, n), st)
    {
      var r := f.Poll();
      PolledOnceMore(OpPeekToString, n, st);
      n := n + 1;
      if !r.Pending? {
        break;
      }
    }
  }

  method PollFill(p: F.AsyncPeekable, polls: nat) returns (ghost n: nat, ghost spare: nat)
    requires p.Valid()
    modifies p.reader, p.buffer, p.buffer.data
    ensures p.Valid() && fresh(p.Repr() - old(p.Repr())) && n <= polls && (polls > 0 ==> n > 0)
    ensures p.View() == RunOps(PollsOf(OpPollFillPeekBuf(spare), n), old(p.View()))
  {
    hide RunOps, PollsOf, M.PollFillPeekBuf;
    ghost var st := p.View();
    var f := new F.FillPeekBuf(p);
    n, spare := 0, f.cap - f.original;
    ghost var op := OpPollFillPeekBuf(spare);
    NoPolls(op, st);
    for i := 0 to polls
      invariant f.Valid() && fresh(p.Repr() - old(p.Repr()))
      invariant n == i && p.View() == RunOps(PollsOf(op, n), st)
    {
      var r := f.Poll();
      PolledOnceMore(op, n, st);
      n := n + 1;
      if !r.Pending? {
        break;
      }
    }
  }

  /** Futures only peek, so that nothing is taken, however often they are polled. */
  lemma PollsTakeNothing(op: Op, n: nat, st: M.State)
    requires !Takes(op)
    ensures TakenBy(PollsOf(op, n), st) == []
  {
    PeekingTakesNothing(PollsOf(op, n), st);
  }

  method PerformFuture(p: F.AsyncPeekable, op: Op, polls: nat) returns (ghost made: seq<Op>)
    requires p.Valid() && Offered(Future(op, polls))
    modifies p.reader, p.buffer, p.buffer.data
    ensures p.Valid() && fresh(p.Repr() - old(p.Repr()))
    ensures Carries(Future(op, polls), made)
    ensures p.View() == RunOps(made, old(p.View())) && TakenBy(made, old(p.View())) == []
  {
    hide RunOps, TakenBy, PollsOf;
    ghost var st, n, op' := p.View(), 0, op;
    if op.OpPeekExact? {
      n := PollExact(p, op.total, polls);
    } else if op.OpPeekToEnd? {
      n := PollToEnd(p, polls);
    } else if op.OpPeekToString? {
      n := PollToString(p, polls);
    } else {
      ghost var spare;
      n, spare := PollFill(p, polls);
      op' := OpPollFillPeekBuf(spare);
    }
    made := PollsOf(op', n);
    PollsTakeNothing(op', n, st);
    assert SameFuture(op, op');
  }

  // ---- Whole runs ----

  method Perform(p: F.AsyncPeekable, task: Task) returns (taken: seq<Byte>, ghost made: seq<Op>)
    requires p.Valid() && Offered(task)
    modifies p.reader, p.buffer, p.buffer.data
    ensures p.Valid() && fresh(p.Repr() - old(p.Repr()))
    ensures Carries(task, made)
    ensures p.View() == RunOps(made, old(p.View())) && taken == TakenBy(made, old(p.View()))
  {
    hide Exec, Taken, RunOps, TakenBy;
    ghost var st := p.View();
    match task {
      case Call(op) =>
        made := [op];
        taken := PerformCall(p, op);
        RunOfNone(st);
        RunThen([], op, st);
        assert [] + [op] == [op] && [] + taken == taken;
      case Future(op, polls) =>
        made := PerformFuture(p, op, polls);
        taken := [];
    }
  }

  lemma CarriesOneMore(tasks: seq<Task>, made: seq<Op>, task: Task, more: seq<Op>)
    requires CarriesAll(tasks, made) && Carries(task, more)
    ensures CarriesAll(tasks + [task], made + more)
  {
    hide Carries;
    var all := tasks + [task];
    assert all[..|all| - 1] == tasks;
    assert (made + more)[..|made|] == made && (made + more)[|made|..] == more;
  }

  /** Any tasks, one after the other, with futures dropped at any point: the object ends where the run of the
      operations they amount to ends, so that the bytes taken, in order, and the bytes still unread are the
      original stream. */
  method PerformAll(p: F.AsyncPeekable, tasks: seq<Task>) returns (taken: seq<Byte>, ghost made: seq<Op>)
    requires p.Valid() && forall task | task in tasks :: Offered(task)
    modifies p.reader, p.buffer, p.buffer.data
    ensures p.Valid() && fresh(p.Repr() - old(p.Repr()))
    ensures CarriesAll(tasks, made)
    ensures p.View() == RunOps(made, old(p.View())) && taken == TakenBy(made, old(p.View()))
    ensures taken + p.View().Unread() == old(p.View()).Unread()
  {
    hide RunOps, TakenBy, Carries, CarriesAll;
    ghost var st := p.View();
    taken, made := [], [];
    RunOfNone(st);
    NoTasks();
    for i := 0 to |tasks|
      invariant p.Valid() && fresh(p.Repr() - old(p.Repr()))
      invariant CarriesAll(tasks[..i], made)
      invariant p.View() == RunOps(made, st) && taken == TakenBy(made, st)
    {
      ghost var ops;
      var more;
      more, ops := Perform(p, tasks[i]);
      RunsAppend(made, ops, st);
      CarriesOneMore(tasks[..i], made, tasks[i], ops);
      assert tasks[..i] + [tasks[i]] == tasks[..i + 1];
      taken, made := taken + more, made + ops;
    }
    assert tasks[..|tasks|] == tasks;
    RunsAreTransparent(made, st);
  }

  lemma NoTasks()
    ensures CarriesAll([], [])
  {
  }
}
