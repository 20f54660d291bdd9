/** The loop behind `peek_to_end`, `peek_to_string` and `peek_exact`: make room in the peek buffer,
    let the reader write into it, keep what arrived, until there is a reason to stop.
    What it does depends on how many bytes there are, never on what they are.
    Its laws hold for the blocking calls and for the polled futures alike. */
module Pump {
  import opened Io
  import opened Growth

  datatype Goal = ToEnd | Exactly(total: nat)

  /** What the loop does with `have` bytes in the peek buffer. */
  datatype Demand = Enough | Ask(room: nat) | Refuse(error: Error)

  /** Why the loop stopped. */
  datatype Stop = Full | Eof | Broken(error: Error) | Parked

  /** A finished loop: how many bytes it moved from the reader to the peek buffer, what is left of the
      reader's plan, why it stopped, and how often it called the reader. */
  datatype Run = Run(taken: nat, plan: Plan, stop: Stop, calls: nat)

  function Next(goal: Goal, limit: Limit, have: nat): (d: Demand)
    ensures d.Ask? ==> d.room >= 1 && limit.Admits(have + d.room)
  {
    match goal
    case ToEnd =>
      (match GrowthFor(limit, have)
       case Some(growth) => Ask(growth)
       case None => Refuse(limit.refusal))
    case Exactly(total) =>
      if total <= have then Enough
      else if limit.Admits(total) then Ask(total - have)
      else Refuse(limit.refusal)
  }

  /** The loop goes round again: bytes arrived, or the call was interrupted. */
  predicate GoesOn(answer: Poll) {
    answer == Failed(Interrupted) || (answer.Ready? && answer.value > 0)
  }

  function StopAt(answer: Poll): Stop
    requires !GoesOn(answer)
  {
    match answer
    case Ready(_) => Eof
    case Failed(e) => Broken(e)
    case Pending => Parked
  }

  function Loop(avail: nat, plan: Plan, have: nat, goal: Goal, limit: Limit): (r: Run)
    ensures r.taken <= avail
    decreases plan, avail
  {
    match Next(goal, limit, have)
    case Enough => Run(0, plan, Full, 0)
    case Refuse(e) => Run(0, plan, Broken(e), 0)
    case Ask(room) =>
      var answer := Answer(avail, plan, room);
      if GoesOn(answer) then
        var n := Count(avail, plan, room);
        Before(n, 1, Loop(avail - n, Rest(plan), have + n, goal, limit))
      else
        Run(0, Rest(plan), StopAt(answer), 1)
  }

  /** The run `r`, preceded by `calls` calls that brought in `taken` bytes. */
  function Before(taken: nat, calls: nat, r: Run): Run {
    r.(taken := taken + r.taken, calls := calls + r.calls)
  }

  /** One round of the loop; the proofs below unfold it only here. */
  lemma Unfold(avail: nat, plan: Plan, have: nat, goal: Goal, limit: Limit)
    ensures Loop(avail, plan, have, goal, limit)
         == match Next(goal, limit, have)
            case Enough => Run(0, plan, Full, 0)
            case Refuse(e) => Run(0, plan, Broken(e), 0)
            case Ask(room) =>
              var answer := Answer(avail, plan, room);
              var n := Count(avail, plan, room);
              if GoesOn(answer) then Before(n, 1, Loop(avail - n, Rest(plan), have + n, goal, limit))
              else Run(0, Rest(plan), StopAt(answer), 1)
  {
  }

  /** The loop stays within the limit and within an exact request, and is full exactly when the request is met. */
  lemma {:induction false} LoopBounds(avail: nat, plan: Plan, have: nat, goal: Goal, limit: Limit)
    ensures var r := Loop(avail, plan, have, goal, limit);
            && (limit.Admits(have) ==> limit.Admits(have + r.taken))
            && (goal.Exactly? ==> have + r.taken <= Max(have, goal.total))
            && (r.stop.Full? <==> goal.Exactly? && have + r.taken >= goal.total)
    decreases plan, avail
  {
    hide Loop, GrowthFor;
    Unfold(avail, plan, have, goal, limit);
    var d := Next(goal, limit, have);
    if d.Ask? && GoesOn(Answer(avail, plan, d.room)) {
      var n := Count(avail, plan, d.room);
      LoopBounds(avail - n, Rest(plan), have + n, goal, limit);
    }
  }

  /** The loop parks only on a stall of the reader, and breaks only with an error that the buffer refused with, or
      that the reader failed with and is not an interruption. */
  lemma {:induction false} LoopStops(avail: nat, plan: Plan, have: nat, goal: Goal, limit: Limit)
    ensures var r := Loop(avail, plan, have, goal, limit);
            && (Blocking(plan) ==> r.stop != Parked && Blocking(r.plan))
            && (Steady(plan) ==> Steady(r.plan))
            && (NoFalseEof(plan) ==> NoFalseEof(r.plan))
            && (r.stop == Parked ==> Mentions(plan, Stall))
            && (r.stop.Broken? ==>
                  || Next(goal, limit, have + r.taken) == Refuse(r.stop.error)
                  || (r.stop.error != Interrupted && Mentions(plan, Fail(r.stop.error))))
    decreases plan, avail
  {
    hide Loop, GrowthFor;
    Unfold(avail, plan, have, goal, limit);
    var d := Next(goal, limit, have);
    if d.Ask? && GoesOn(Answer(avail, plan, d.room)) {
      var n := Count(avail, plan, d.room);
      LoopStops(avail - n, Rest(plan), have + n, goal, limit);
    }
  }

  function PlanLength(plan: Plan): nat {
    if plan.Greedy? then 0 else 1 + PlanLength(plan.rest)
  }

  /** Every call uses up a planned answer or a byte, except the one that finds nothing more. */
  lemma {:induction false} LoopCallsAreBounded(avail: nat, plan: Plan, have: nat, goal: Goal, limit: Limit)
    ensures var r := Loop(avail, plan, have, goal, limit);
            r.calls + PlanLength(r.plan) <= PlanLength(plan) + r.taken + 1
    decreases plan, avail
  {
    hide Loop, Next;
    Unfold(avail, plan, have, goal, limit);
    var d := Next(goal, limit, have);
    if d.Ask? && GoesOn(Answer(avail, plan, d.room)) {
      var n := Count(avail, plan, d.room);
      LoopCallsAreBounded(avail - n, Rest(plan), have + n, goal, limit);
    }
  }

  // ---- Readers without errors ----

  /** With a reader that does not fail, the unbounded loop succeeds if and only if one byte of room is left
      after the whole stream; otherwise it stops exactly at the limit. */
  lemma {:induction false} SteadyToEnd(avail: nat, plan: Plan, have: nat, limit: Limit)
    requires Steady(plan) && limit.Admits(have)
    ensures var r := Loop(avail, plan, have, ToEnd, limit);
            if limit.Admits(have + avail + 1)
            then r.stop == Eof && r.taken == avail
            else r.stop == Broken(limit.refusal) && r.taken == limit.max - have
    decreases plan, avail
  {
    hide Loop;
    Unfold(avail, plan, have, ToEnd, limit);
    var d := Next(ToEnd, limit, have);
    if d.Ask? && GoesOn(Answer(avail, plan, d.room)) {
      var n := Count(avail, plan, d.room);
      SteadyToEnd(avail - n, Rest(plan), have + n, limit);
    }
  }

  /** With a reader that does not fail and a buffer that can hold the request, the exact loop succeeds
      if and only if the unread stream is long enough, and takes precisely the missing bytes. */
  lemma {:induction false} SteadyExactly(avail: nat, plan: Plan, have: nat, total: nat, limit: Limit)
    requires Steady(plan) && limit.Admits(Max(have, total))
    ensures var r := Loop(avail, plan, have, Exactly(total), limit);
            if total <= have + avail
            then r.stop == Full && r.taken == Max(have, total) - have
            else r.stop == Eof && r.taken == avail
    decreases plan, avail
  {
    hide Loop;
    Unfold(avail, plan, have, Exactly(total), limit);
    var d := Next(Exactly(total), limit, have);
    if d.Ask? && GoesOn(Answer(avail, plan, d.room)) {
      var n := Count(avail, plan, d.room);
      SteadyExactly(avail - n, Rest(plan), have + n, total, limit);
    }
  }

  /** Draining into a bounded buffer with `free` bytes of room, from a reader that always fills the slice
      and has at least that much: one call per full chunk and one per bit of what is left of the room. */
  lemma {:induction false} GreedyCallCount(avail: nat, have: nat, limit: Limit)
    requires limit.AtMost? && have <= limit.max <= have + avail
    ensures var free := limit.max - have;
            Loop(avail, Greedy, have, ToEnd, limit) == Run(free, Greedy, Broken(limit.refusal), DrainCalls(free))
    decreases avail
  {
    hide Loop, FirstFit, GrowthFor, DrainCalls;
    Unfold(avail, Greedy, have, ToEnd, limit);
    var free := limit.max - have;
    GrowthIsLargestPowerOfTwo(limit, have);
    if free == 0 {
      NoRoomNoCalls();
    } else {
      var g := GrowthFor(limit, have).value;
      GreedyCallCount(avail - g, have + g, limit);
      ChunkOrTopBit(free, g);
    }
  }

  // ---- The first trouble ----

  /** An answer that keeps the loop going, as long as there are bytes and room. */
  predicate Harmless(action: Action) {
    action == Fail(Interrupted) || (action.Deliver? && action.most > 0)
  }

  /** The plan from its first answer on that is not harmless. */
  function Trouble(plan: Plan): (t: Plan)
    ensures t.Do? ==> !Harmless(t.first)
  {
    if plan.Do? && Harmless(plan.first) then Trouble(plan.rest) else plan
  }

  /** How many bytes the reader is ready to deliver before that. */
  function Announced(plan: Plan): nat {
    if plan.Do? && Harmless(plan.first)
    then (if plan.first.Deliver? then plan.first.most else 0) + Announced(plan.rest)
    else 0
  }

  /** No delivery before the first trouble is larger than `size`. */
  ghost predicate Within(plan: Plan, size: nat) {
    plan.Do? && Harmless(plan.first) ==> (plan.first.Deliver? ==> plan.first.most <= size) && Within(plan.rest, size)
  }

  /** The first trouble of the reader is `action`. */
  predicate Meets(plan: Plan, action: Action) {
    Trouble(plan).Do? && Trouble(plan).first == action
  }

  /** How the loop stops for a first trouble. */
  function StopFor(trouble: Action): Stop {
    match trouble
    case Fail(e) => Broken(e)
    case Stall => Parked
    case Deliver(_) => Eof
  }

  lemma HarmlessCall(avail: nat, plan: Plan, room: nat)
    requires plan.Do? && room >= 1 && (plan.first.Deliver? ==> plan.first.most <= avail)
    ensures if Harmless(plan.first) then
              && GoesOn(Answer(avail, plan, room))
              && Count(avail, plan, room) == if plan.first.Deliver? then Min(plan.first.most, room) else 0
            else !GoesOn(Answer(avail, plan, room)) && StopAt(Answer(avail, plan, room)) == StopFor(plan.first)
  {
  }

  /** The loop breaks with the reader's first trouble, or with a refusal of the buffer; it parks only if the first
      trouble is a stall; and it ends before the stream only if the first trouble is a false end of file. */
  lemma {:induction false} LoopMeetsFirstTrouble(avail: nat, plan: Plan, have: nat, goal: Goal, limit: Limit)
    ensures var r := Loop(avail, plan, have, goal, limit);
            && (r.stop.Broken? ==>
                  || Next(goal, limit, have + r.taken) == Refuse(r.stop.error)
                  || (r.stop.error != Interrupted && Meets(plan, Fail(r.stop.error))))
            && (r.stop == Parked ==> Meets(plan, Stall))
            && (r.stop == Eof ==> r.taken == avail || Meets(plan, Deliver(0)))
            && (NoFalseEof(plan) ==> !Meets(plan, Deliver(0)))
    decreases plan, avail
  {
    hide Loop, GrowthFor;
    Unfold(avail, plan, have, goal, limit);
    if plan.Do? {
      LoopMeetsFirstTrouble(avail, plan.rest, have, goal, limit);
    }
    var d := Next(goal, limit, have);
    if d.Ask? && GoesOn(Answer(avail, plan, d.room)) {
      var n := Count(avail, plan, d.room);
      LoopMeetsFirstTrouble(avail - n, Rest(plan), have + n, goal, limit);
    }
  }

  /** An unbounded loop with enough bytes and room gets as far as the first trouble, and stops there. */
  lemma {:induction false} ToEndStopsAtTrouble(avail: nat, plan: Plan, have: nat, limit: Limit)
    requires Trouble(plan).Do? && Announced(plan) <= avail && limit.Admits(have + Announced(plan) + 1)
    ensures var r := Loop(avail, plan, have, ToEnd, limit);
            && r.stop == StopFor(Trouble(plan).first)
            && r.plan == Trouble(plan).rest && r.calls == PlanLength(plan) - PlanLength(r.plan)
            && r.taken <= Announced(plan)
            && (limit.Unlimited? && Within(plan, READ_CHUNK) ==> r.taken == Announced(plan))
    decreases plan
  {
    hide Loop, FirstFit, Answer, Count, GoesOn;
    Unfold(avail, plan, have, ToEnd, limit);
    GrowthIsLargestPowerOfTwo(limit, have);
    var room := GrowthFor(limit, have).value;
    HarmlessCall(avail, plan, room);
    if Harmless(plan.first) {
      var n := Count(avail, plan, room);
      ToEndStopsAtTrouble(avail - n, plan.rest, have + n, limit);
    }
  }

  /** So does an exact loop, unless that is enough; it has then taken precisely what was announced. */
  lemma {:induction false} ExactlyStopsAtTrouble(avail: nat, plan: Plan, have: nat, total: nat, limit: Limit)
    requires Trouble(plan).Do? && Announced(plan) <= avail && limit.Admits(Max(have, total))
    ensures var r := Loop(avail, plan, have, Exactly(total), limit);
            if total <= have + Announced(plan) then
              r.stop == Full && r.taken == Max(have, total) - have
            else
              && r.stop == StopFor(Trouble(plan).first)
              && r.plan == Trouble(plan).rest && r.calls == PlanLength(plan) - PlanLength(r.plan)
              && r.taken == Announced(plan)
    decreases plan
  {
    hide Loop, Answer, Count, GoesOn;
    Unfold(avail, plan, have, Exactly(total), limit);
    if have < total { HarmlessCall(avail, plan, total - have); }
    if have < total && Harmless(plan.first) {
      var n := Count(avail, plan, total - have);
      ExactlyFull(avail - n, plan.rest, have + n, total, limit);
      if have + n < total {
        ExactlyStopsAtTrouble(avail - n, plan.rest, have + n, total, limit);
      }
    }
  }

  lemma ExactlyFull(avail: nat, plan: Plan, have: nat, total: nat, limit: Limit)
    ensures total <= have ==> Loop(avail, plan, have, Exactly(total), limit) == Run(0, plan, Full, 0)
  {
    Unfold(avail, plan, have, Exactly(total), limit);
  }

  // ---- Erasing the pending answers ----

  /** The same reader, made blocking: it waits instead of answering `Pending`. */
  function Erase(plan: Plan): (r: Plan)
    ensures Blocking(r)
  {
    match plan
    case Greedy => Greedy
    case Do(Stall, rest) => Erase(rest)
    case Do(action, rest) => Do(action, Erase(rest))
  }

  function Stalls(plan: Plan): nat {
    if plan.Greedy? then 0 else (if plan.first == Stall then 1 else 0) + Stalls(plan.rest)
  }

  /** A call that does not stall is the same call on the blocking reader. */
  lemma EraseCall(avail: nat, plan: Plan, room: nat)
    requires plan.Do? ==> plan.first != Stall
    ensures Answer(avail, Erase(plan), room) == Answer(avail, plan, room) && !Answer(avail, plan, room).Pending?
    ensures Count(avail, Erase(plan), room) == Count(avail, plan, room)
    ensures Rest(Erase(plan)) == Erase(Rest(plan)) && Stalls(Rest(plan)) == Stalls(plan)
  {
  }

  /** One poll against the blocking reader: a poll that does not park is the whole blocking run, and one that
      parks is a beginning of it, to be continued from where it left the reader, minus the call that stalled. */
  lemma {:induction false} LoopErase(avail: nat, plan: Plan, have: nat, goal: Goal, limit: Limit)
    ensures var r := Loop(avail, plan, have, goal, limit);
            var e := Loop(avail, Erase(plan), have, goal, limit);
            if r.stop.Parked?
            then && Stalls(r.plan) + 1 == Stalls(plan) && r.calls >= 1
                 && e == Before(r.taken, r.calls - 1, Loop(avail - r.taken, Erase(r.plan), have + r.taken, goal, limit))
            else && Stalls(r.plan) == Stalls(plan)
                 && e == r.(plan := Erase(r.plan))
    decreases plan, avail
  {
    hide Loop, Next;
    Unfold(avail, plan, have, goal, limit);
    var d := Next(goal, limit, have);
    if !d.Ask? {
      Unfold(avail, Erase(plan), have, goal, limit);
    } else if plan.Greedy? || plan.first != Stall {
      Unfold(avail, Erase(plan), have, goal, limit);
      EraseCall(avail, plan, d.room);
      hide Answer, Count;
      if GoesOn(Answer(avail, plan, d.room)) {
        var n := Count(avail, plan, d.room);
        LoopErase(avail - n, Rest(plan), have + n, goal, limit);
      }
    }
  }

  // ---- Erasing every answer that there is nothing now ----

  /** The reader has nothing now: it stalls, or answers `WouldBlock`. */
  predicate IsLull(action: Action) { action == Stall || action == Fail(WouldBlock) }

  /** The same reader, without its lulls. */
  function Quiet(plan: Plan): Plan {
    if plan.Greedy? then Greedy
    else if IsLull(plan.first) then Quiet(plan.rest)
    else Do(plan.first, Quiet(plan.rest))
  }

  function Lulls(plan: Plan): nat {
    if plan.Greedy? then 0 else (if IsLull(plan.first) then 1 else 0) + Lulls(plan.rest)
  }

  /** Retrying past the interruptions reaches a lull that the quiet reader skips, or what the quiet reader answers
      after its own retries. */
  lemma {:induction false} SettledQuiet(plan: Plan)
    ensures var next := Settled(plan);
            if next.Do? && IsLull(next.first) then
              Settled(Quiet(plan)) == Settled(Quiet(next.rest)) && Lulls(plan) == 1 + Lulls(next.rest)
            else
              && Settled(Quiet(plan)) == Quiet(next) && Rest(Quiet(next)) == Quiet(Rest(next))
              && Lulls(plan) == Lulls(Rest(next))
  {
    if plan.Do? && plan.first == Fail(Interrupted) {
      SettledQuiet(plan.rest);
    }
  }
}
