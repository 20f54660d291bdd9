/** Bytes, I/O outcomes, and the behaviour of the unreliable reader that a peekable wraps. */
module Io {
  type Byte = x: int | 0 <= x < 256

  datatype Option<+T> = None | Some(value: T)

  datatype Error = Interrupted | WouldBlock | UnexpectedEof | InvalidData | OutOfMemory | Other(code: int)

  /** What a call reports: `Result` for the blocking calls (never `Pending`), `Poll<Result>` for the others. */
  datatype Poll = Ready(value: nat) | Failed(error: Error) | Pending

  /** What the reader does on one call. `Deliver(0)` is an end of file that may go away later. */
  datatype Action = Deliver(most: nat) | Fail(error: Error) | Stall

  /** How the reader answers its next calls. At the end of the plan it always fills the slice it is handed. */
  datatype Plan = Greedy | Do(first: Action, rest: Plan)

  /** A reader: the bytes it has not given up yet, and its plan. */
  datatype Source = Source(remaining: seq<Byte>, plan: Plan)

  function Min(a: nat, b: nat): nat { if a <= b then a else b }

  function Max(a: nat, b: nat): nat { if a <= b then b else a }

  /** The number of bytes the next call moves into a slice of `room` bytes, with `avail` bytes unread. */
  function Count(avail: nat, plan: Plan, room: nat): (n: nat)
    ensures n <= room && n <= avail
  {
    match plan
    case Greedy => Min(room, avail)
    case Do(Deliver(most), _) => Min(most, Min(room, avail))
    case Do(_, _) => 0
  }

  function Answer(avail: nat, plan: Plan, room: nat): (r: Poll)
    ensures Count(avail, plan, room) == if r.Ready? then r.value else 0
  {
    match plan
    case Do(Fail(e), _) => Failed(e)
    case Do(Stall, _) => Pending
    case _ => Ready(Count(avail, plan, room))
  }

  function Rest(plan: Plan): Plan {
    if plan.Greedy? then plan else plan.rest
  }

  /** The reader after it has given up `n` bytes and is about to follow `plan`. */
  function Advance(s: Source, n: nat, plan: Plan): Source
    requires n <= |s.remaining|
  {
    Source(s.remaining[n..], plan)
  }

  /** The plan once the reader has been retried past every leading interruption. */
  function Settled(plan: Plan): Plan {
    if plan.Do? && plan.first == Fail(Interrupted) then Settled(plan.rest) else plan
  }

  /** How often the reader is interrupted before it answers something else. */
  function Interruptions(plan: Plan): nat {
    if plan.Do? && plan.first == Fail(Interrupted) then 1 + Interruptions(plan.rest) else 0
  }

  /** A `std::io::Read` never answers `Pending`. */
  ghost predicate Blocking(plan: Plan) {
    plan.Do? ==> plan.first != Stall && Blocking(plan.rest)
  }

  /** A reader without errors: every call is interrupted or delivers at least one byte while there is one. */
  ghost predicate Steady(plan: Plan) {
    plan.Do? ==>
      && (plan.first == Fail(Interrupted) || (plan.first.Deliver? && plan.first.most >= 1))
      && Steady(plan.rest)
  }

  /** No end of file goes away later: while there are bytes, a call that delivers gives up at least one of them.
      Errors, stalls and interruptions may come at any time. */
  ghost predicate NoFalseEof(plan: Plan) {
    plan.Do? ==> (plan.first.Deliver? ==> plan.first.most >= 1) && NoFalseEof(plan.rest)
  }

  /** After the retries the reader is as well-behaved as before, and its next answer is not an interruption. */
  lemma {:induction false} SettledPlan(plan: Plan)
    ensures Settled(plan).Do? ==> Settled(plan).first != Fail(Interrupted)
    ensures Blocking(plan) ==> Blocking(Settled(plan)) && Blocking(Rest(Settled(plan)))
    ensures Steady(plan) ==> Steady(Settled(plan)) && Steady(Rest(Settled(plan)))
    ensures NoFalseEof(plan) ==> NoFalseEof(Settled(plan)) && NoFalseEof(Rest(Settled(plan)))
  {
    if plan.Do? { SettledPlan(plan.rest); }
  }

  /** A steady reader is the special case without errors and stalls. */
  lemma {:induction false} SteadyHasNoFalseEof(plan: Plan)
    requires Steady(plan)
    ensures NoFalseEof(plan)
  {
    if plan.Do? { SteadyHasNoFalseEof(plan.rest); }
  }

  ghost predicate Mentions(plan: Plan, action: Action) {
    plan.Do? && (plan.first == action || Mentions(plan.rest, action))
  }

  /** `dst` with `src` written over it from position `at` on. */
  function Overwrite(dst: seq<Byte>, at: nat, src: seq<Byte>): (r: seq<Byte>)
    requires at + |src| <= |dst|
    ensures |r| == |dst|
  {
    dst[..at] + src + dst[at + |src|..]
  }

  lemma OverwriteTwice(dst: seq<Byte>, at: nat, a: seq<Byte>, b: seq<Byte>)
    requires at + |a| + |b| <= |dst|
    ensures Overwrite(Overwrite(dst, at, a), at + |a|, b) == Overwrite(dst, at, a + b)
  {
  }

  lemma OverwriteNothing(dst: seq<Byte>)
    ensures Overwrite(dst, 0, []) == dst
  {
  }
}
