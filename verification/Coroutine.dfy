/** The coroutine pool: a vector of slots, the queue of finished slot ids, and the
    running id. Ids start at 1; 0 means the main context. */
module Coroutine {
  datatype Slot = Slot(finished: bool, threw: bool)

  datatype Pool = Pool(slots: seq<Slot>, finished: seq<nat>, current: nat)

  const EMPTY := Pool([], [], 0)

  const LIVE_SLOT := Slot(false, false)

  predicate IsId(p: Pool, id: nat) { 1 <= id <= |p.slots| }

  predicate Live(p: Pool, id: nat) { IsId(p, id) && !p.slots[id - 1].finished }

  // ---- operations -------------------------------------------------------

  /** `create`: the oldest finished slot is reused, else a slot is added. */
  function CreateId(p: Pool): nat {
    if p.finished == [] then |p.slots| + 1 else p.finished[0]
  }

  function Create(p: Pool): Pool
    requires p.finished != [] ==> IsId(p, p.finished[0])
  {
    if p.finished == [] then p.(slots := p.slots + [LIVE_SLOT])
    else p.(slots := p.slots[p.finished[0] - 1 := LIVE_SLOT], finished := p.finished[1..])
  }

  /** Control goes to a routine, and comes back. */
  function Enter(p: Pool, id: nat): Pool { p.(current := id) }

  function Leave(p: Pool): Pool { p.(current := 0) }

  /** `entry` after the running routine's function is left. */
  function Finish(p: Pool, threw: bool): Pool
    requires IsId(p, p.current)
  {
    Pool(p.slots[p.current - 1 := Slot(true, threw)], p.finished + [p.current], 0)
  }

  /** How control comes back to the main context. */
  datatype Leg = Yields | Returns | Throws | SwapFails

  datatype Resumed = Resumed(pool: Pool, more: bool, rethrown: bool)

  /** `resume`, from the main context back to it. */
  function Resume(p: Pool, id: nat, leg: Leg): Resumed {
    if !Live(p, id) then Resumed.Resumed(p, false, false)
    else
      match leg
      case Yields => Resumed.Resumed(Leave(Enter(p, id)), true, false)
      case Returns => Resumed.Resumed(Finish(Enter(p, id), false), false, false)
      case Throws => Resumed.Resumed(Finish(Enter(p, id), true), false, true)
      case SwapFails => Resumed.Resumed(Leave(Enter(p, id)), false, false)
  }

  // ---- invariant --------------------------------------------------------

  ghost predicate NoDuplicates(q: seq<nat>) {
    forall i, j :: 0 <= i < j < |q| ==> q[i] != q[j]
  }

  function CountLive(slots: seq<Slot>): (n: nat)
    ensures n <= |slots|
  {
    if slots == [] then 0
    else CountLive(slots[..|slots| - 1]) + (if slots[|slots| - 1].finished then 0 else 1)
  }

  /** The queue lists exactly the finished slots, each once; no live slot holds an exception. */
  ghost predicate Consistent(p: Pool) {
    && (forall id :: id in p.finished ==> IsId(p, id) && p.slots[id - 1].finished)
    && (forall id :: IsId(p, id) && p.slots[id - 1].finished ==> id in p.finished)
    && NoDuplicates(p.finished)
    && CountLive(p.slots) + |p.finished| == |p.slots|
    && (p.current == 0 || Live(p, p.current))
    && (forall i :: 0 <= i < |p.slots| && p.slots[i].threw ==> p.slots[i].finished)
  }

  lemma {:induction false} CountLiveUpdate(slots: seq<Slot>, i: nat, s: Slot)
    requires i < |slots|
    ensures CountLive(slots[i := s])
            == CountLive(slots) - (if slots[i].finished then 0 else 1) + (if s.finished then 0 else 1)
  {
    var n := |slots|;
    if i == n - 1 {
      assert slots[i := s][..n - 1] == slots[..n - 1];
    } else {
      CountLiveUpdate(slots[..n - 1], i, s);
      assert slots[i := s][..n - 1] == slots[..n - 1][i := s];
    }
  }

  lemma CountLiveAppend(slots: seq<Slot>, s: Slot)
    ensures CountLive(slots + [s]) == CountLive(slots) + (if s.finished then 0 else 1)
  {
    assert (slots + [s])[..|slots|] == slots;
  }

  /** The tail of a queue without duplicates loses exactly its head. */
  lemma TailLosesHead(q: seq<nat>)
    requires q != [] && NoDuplicates(q)
    ensures NoDuplicates(q[1..])
    ensures forall x :: x in q[1..] <==> x in q && x != q[0]
  {
    assert q == [q[0]] + q[1..];
    assert forall j :: 0 < j < |q| ==> q[0] != q[j];
  }

  /** `create` never hands out a live id, and makes exactly that id live; a running routine
      goes on running. */
  lemma CreateKeeps(p: Pool)
    requires Consistent(p)
    ensures p.finished != [] ==> IsId(p, p.finished[0])
    ensures Consistent(Create(p)) && Create(p).current == p.current
    ensures !Live(p, CreateId(p))
    ensures forall id: nat :: Live(Create(p), id) <==> Live(p, id) || id == CreateId(p)
    ensures |Create(p).slots| == (if p.finished == [] then |p.slots| + 1 else |p.slots|)
  {
    hide CountLive, NoDuplicates;
    if p.finished == [] {
      CountLiveAppend(p.slots, LIVE_SLOT);
    } else {
      var id := p.finished[0];
      assert id in p.finished;
      TailLosesHead(p.finished);
      CountLiveUpdate(p.slots, id - 1, LIVE_SLOT);
    }
  }

  /** The running routine ends: its id alone is no longer live, and is queued last. */
  lemma FinishKeeps(p: Pool, threw: bool)
    requires Consistent(p) && p.current != 0
    ensures Live(p, p.current)
    ensures var q := Finish(p, threw);
            && Consistent(q) && q.current == 0 && |q.slots| == |p.slots|
            && (forall x: nat :: Live(q, x) <==> Live(p, x) && x != p.current)
  {
    hide CountLive;
    var id, q := p.current, Finish(p, threw);
    CountLiveUpdate(p.slots, id - 1, Slot(true, threw));
    assert id !in p.finished;
    assert forall x :: x in q.finished <==> x in p.finished || x == id;
  }

  /** A resume leaves the pool consistent and only its own slot can end. */
  lemma ResumeKeeps(p: Pool, id: nat, leg: Leg)
    requires Consistent(p) && p.current == 0
    ensures var r := Resume(p, id, leg);
            && Consistent(r.pool) && r.pool.current == 0 && |r.pool.slots| == |p.slots|
            && (forall x: nat :: Live(r.pool, x) <==> Live(p, x) && !(x == id && leg in {Returns, Throws}))
            && (r.more <==> Live(p, id) && leg == Yields) && (r.more ==> Live(r.pool, id))
            && (r.rethrown <==> Live(p, id) && leg == Throws)
  {
    hide CountLive, NoDuplicates;
    if Live(p, id) && leg in {Returns, Throws} {
      FinishKeeps(Enter(p, id), leg == Throws);
    }
  }

  // ---- runs -------------------------------------------------------------

  /** What the main context and the routines do, one call at a time. Both may create;
      only the main context enters a routine. */
  datatype Op = DoCreate | DoEnter(id: nat) | DoYield | DoEnd(threw: bool)

  /** Calls that cannot come now change nothing: entering what is not live, or from within
      a routine; yielding or ending outside one. */
  function Apply(p: Pool, op: Op): Pool {
    match op
    case DoCreate => if p.finished != [] && !IsId(p, p.finished[0]) then p else Create(p)
    case DoEnter(id) => if p.current == 0 && Live(p, id) then Enter(p, id) else p
    case DoYield => Leave(p)
    case DoEnd(threw) => if IsId(p, p.current) then Finish(p, threw) else p
  }

  function Run(ops: seq<Op>): Pool {
    if ops == [] then EMPTY else Apply(Run(ops[..|ops| - 1]), ops[|ops| - 1])
  }

  /** The largest number of simultaneously live slots so far. */
  function Peak(ops: seq<Op>): nat {
    var now := CountLive(Run(ops).slots);
    if ops == [] then now
    else
      var before := Peak(ops[..|ops| - 1]);
      if before < now then now else before
  }

  lemma ApplyKeeps(p: Pool, op: Op)
    requires Consistent(p)
    ensures var q := Apply(p, op);
            && Consistent(q)
            && |q.slots| == (if CountLive(q.slots) > |p.slots| then CountLive(q.slots) else |p.slots|)
  {
    hide CountLive, NoDuplicates;
    match op
    case DoCreate => CreateKeeps(p);
    case DoEnter(id) =>
    case DoYield =>
    case DoEnd(threw) => if p.current != 0 { FinishKeeps(p, threw); }
  }

  /** Over every run, whoever creates and whenever, the queue lists exactly the finished
      slots once each, the running routine is a live one, and there are as many slots as
      were ever live at once. */
  lemma {:induction false} RunSafe(ops: seq<Op>)
    ensures Consistent(Run(ops))
    ensures |Run(ops).slots| == Peak(ops)
  {
    if ops != [] {
      hide Consistent, CountLive, Apply;
      RunSafe(ops[..|ops| - 1]);
      ApplyKeeps(Run(ops[..|ops| - 1]), ops[|ops| - 1]);
    }
  }

  /** Call `i` of the run hands out `id`, or ends its routine. */
  predicate Creates(ops: seq<Op>, i: nat, id: nat)
    requires i < |ops|
  {
    ops[i].DoCreate? && CreateId(Run(ops[..i])) == id
  }

  predicate Ends(ops: seq<Op>, i: nat, id: nat)
    requires i < |ops|
  {
    ops[i].DoEnd? && id != 0 && Run(ops[..i]).current == id
  }

  /** `id` was handed out by call `i` and its routine has not ended since. */
  ghost predicate HeldSince(ops: seq<Op>, i: nat, id: nat) {
    i < |ops| && Creates(ops, i, id) && forall j :: i < j < |ops| ==> !Ends(ops, j, id)
  }

  lemma HeldOn(ops: seq<Op>, i: nat, id: nat)
    requires i < |ops| - 1
    ensures HeldSince(ops, i, id) <==> HeldSince(ops[..|ops| - 1], i, id) && !Ends(ops, |ops| - 1, id)
  {
    hide Run;
    var n := |ops| - 1;
    forall k | 0 <= k < n ensures ops[..n][..k] == ops[..k] {
    }
    forall k | 0 <= k < n
      ensures Creates(ops[..n], k, id) <==> Creates(ops, k, id)
      ensures Ends(ops[..n], k, id) <==> Ends(ops, k, id)
    {
      assert ops[..n][..k] == ops[..k];
    }
  }

  /** `id` was handed out and its routine has not ended since. */
  ghost predicate Held(ops: seq<Op>, id: nat) {
    exists i: nat :: HeldSince(ops, i, id)
  }

  /** On every run an id is live exactly when it was handed out and its routine has not
      ended since. */
  lemma {:induction false} LiveIffHeld(ops: seq<Op>, id: nat)
    ensures Live(Run(ops), id) <==> Held(ops, id)
    decreases |ops|
  {
    if ops == [] {
      assert forall i: nat :: !HeldSince(ops, i, id);
    } else {
      hide Run, Live, Consistent, Held, Creates, Ends;
      var before := ops[..|ops| - 1];
      LiveIffHeld(before, id);
      RunSafe(before);
      LastOp(ops, id);
      HeldLast(ops, id);
    }
  }

  /** No id is handed out while it is live. */
  lemma NeverTwice(ops: seq<Op>, i: nat, id: nat)
    requires i < |ops| && Creates(ops, i, id)
    ensures !Held(ops[..i], id)
    ensures Held(ops[..i + 1], id)
  {
    hide Run, Live, Consistent, Held, HeldSince;
    var before, upTo := ops[..i], ops[..i + 1];
    RunSafe(before);
    LiveIffHeld(before, id);
    LiveIffHeld(upTo, id);
    assert upTo[..i] == before;
    LastOp(upTo, id);
  }

  /** The last call so far that ended a routine with this id, -1 if there is none. */
  function LastEnd(ops: seq<Op>, id: nat): int
    decreases |ops|
  {
    if ops == [] then -1
    else if Ends(ops, |ops| - 1, id) then |ops| - 1
    else LastEnd(ops[..|ops| - 1], id)
  }

  lemma {:induction false} LastEndBound(ops: seq<Op>, id: nat)
    ensures -1 <= LastEnd(ops, id) < |ops|
    decreases |ops|
  {
    hide Ends;
    if ops != [] && !Ends(ops, |ops| - 1, id) {
      LastEndBound(ops[..|ops| - 1], id);
    }
  }

  ghost predicate InEndOrder(ops: seq<Op>, q: seq<nat>) {
    && (forall a :: 0 <= a < |q| ==> 0 <= LastEnd(ops, q[a]))
    && (forall a, b :: 0 <= a < b < |q| ==> LastEnd(ops, q[a]) < LastEnd(ops, q[b]))
  }

  lemma LastEndStep(ops: seq<Op>, before: seq<Op>, id: nat)
    requires ops != [] && before == ops[..|ops| - 1]
    ensures LastEnd(ops, id) == if Ends(ops, |before|, id) then |before| else LastEnd(before, id)
  {
  }

  /** What a call does to the queue. */
  lemma QueueStep(p: Pool, op: Op)
    requires Consistent(p)
    ensures var q := Apply(p, op).finished;
            if op.DoEnd? && p.current != 0 then q == p.finished + [p.current] && p.current !in p.finished
            else q == p.finished || (p.finished != [] && q == p.finished[1..])
  {
    hide CountLive, NoDuplicates;
  }

  lemma RunStep(ops: seq<Op>, before: seq<Op>)
    requires ops != [] && before == ops[..|ops| - 1]
    ensures Run(ops) == Apply(Run(before), ops[|before|])
  {
  }

  /** On every run the queue lists the finished ids in the order in which they ended. */
  lemma {:induction false} QueueInEndOrder(ops: seq<Op>)
    ensures InEndOrder(ops, Run(ops).finished)
    decreases |ops|
  {
    if ops != [] {
      hide Run, Apply, LastEnd, Consistent, InEndOrder;
      var before := ops[..|ops| - 1];
      var p, op := Run(before), ops[|before|];
      QueueInEndOrder(before);
      RunSafe(before);
      RunStep(ops, before);
      QueueStep(p, op);
      forall id: nat ensures LastEnd(ops, id) == if op.DoEnd? && id != 0 && p.current == id then |before|
                                                 else LastEnd(before, id)
      {
        LastEndStep(ops, before, id);
      }
      forall id: nat ensures LastEnd(before, id) < |before| {
        LastEndBound(before, id);
      }
      var q := p.finished;
      if op.DoEnd? && p.current != 0 {
        OrderExtended(before, ops, q, p.current);
      } else {
        OrderKept(before, ops, q, Apply(p, op).finished);
      }
    }
  }

  lemma OrderKept(before: seq<Op>, ops: seq<Op>, q: seq<nat>, q': seq<nat>)
    requires InEndOrder(before, q) && forall id :: id in q ==> LastEnd(ops, id) == LastEnd(before, id)
    requires q' == q || (q != [] && q' == q[1..])
    ensures InEndOrder(ops, q')
  {
    hide LastEnd;
    assert forall a :: 0 <= a < |q| ==> q[a] in q;
  }

  lemma OrderExtended(before: seq<Op>, ops: seq<Op>, q: seq<nat>, last: nat)
    requires InEndOrder(before, q) && forall id :: id in q ==> LastEnd(ops, id) == LastEnd(before, id)
    requires 0 <= LastEnd(ops, last) && forall id :: id in q ==> LastEnd(before, id) < LastEnd(ops, last)
    ensures InEndOrder(ops, q + [last])
  {
    hide LastEnd;
    assert forall a :: 0 <= a < |q| ==> q[a] in q;
  }

  /** The id that is reused is the one that ended longest ago. */
  lemma OldestReused(ops: seq<Op>, id: nat)
    requires Run(ops).finished != [] && IsId(Run(ops), id) && Run(ops).slots[id - 1].finished
    ensures 0 <= LastEnd(ops, CreateId(Run(ops))) <= LastEnd(ops, id)
  {
    hide Run, LastEnd;
    RunSafe(ops);
    QueueInEndOrder(ops);
    var q := Run(ops).finished;
    var a :| 0 <= a < |q| && q[a] == id;
  }

  lemma HeldLast(ops: seq<Op>, id: nat)
    requires ops != []
    ensures var n := |ops| - 1;
            Held(ops, id) <==> Creates(ops, n, id) || (Held(ops[..n], id) && !Ends(ops, n, id))
  {
    hide Creates, Ends;
    var n := |ops| - 1;
    if i: nat :| HeldSince(ops, i, id) {
      if i < n {
        HeldOn(ops, i, id);
      }
    }
    if i: nat :| HeldSince(ops[..n], i, id) {
      HeldOn(ops, i, id);
    }
    if Creates(ops, n, id) {
      assert HeldSince(ops, n, id);
    }
  }

  lemma LastOp(ops: seq<Op>, id: nat)
    requires ops != [] && Consistent(Run(ops[..|ops| - 1]))
    ensures var n := |ops| - 1;
            var p := Run(ops[..n]);
            && (Live(Run(ops), id) <==> Creates(ops, n, id) || (Live(p, id) && !Ends(ops, n, id)))
            && (Creates(ops, n, id) ==> !Live(p, id) && !Ends(ops, n, id))
  {
    hide CountLive, NoDuplicates;
    var n := |ops| - 1;
    var p := Run(ops[..n]);
    match ops[n]
    case DoCreate => CreateKeeps(p);
    case DoEnter(id) =>
    case DoYield =>
    case DoEnd(threw) => if p.current != 0 { FinishKeeps(p, threw); }
  }

  // ---- the thread's ordinator -------------------------------------------

  class Ordinator {
    var slots: seq<Slot>
    var finished: seq<nat>
    var current: nat

    ghost function Value(): Pool
      reads this
    {
      Pool(slots, finished, current)
    }

    constructor ()
      ensures Value() == EMPTY
    {
      slots, finished, current := [], [], 0;
    }

    method CreateRoutine() returns (id: nat)
      requires Consistent(Value())
      modifies this
      ensures id == CreateId(old(Value())) && !Live(old(Value()), id)
      ensures Value() == Create(old(Value())) && Consistent(Value())
    {
      CreateKeeps(Value());
      if finished == [] {
        slots := slots + [LIVE_SLOT];
        return |slots|;
      } else {
        id := finished[0];
        assert id in finished;
        finished := finished[1..];
        slots := slots[id - 1 := LIVE_SLOT];
      }
    }

    /** `resume`; `leg` is what the routine does while it has control. */
    method ResumeRoutine(id: nat, leg: Leg) returns (more: bool, rethrown: bool)
      requires Consistent(Value()) && current == 0
      modifies this
      ensures Value() == Resume(old(Value()), id, leg).pool && Consistent(Value()) && current == 0
      ensures more == Resume(old(Value()), id, leg).more
      ensures rethrown == Resume(old(Value()), id, leg).rethrown
    {
      ResumeKeeps(Value(), id, leg);
      if id == 0 || id > |slots| {
        return false, false;
      }
      if slots[id - 1].finished {
        return false, false;
      }
      current := id;
      if leg == SwapFails {
        current := 0;
        return false, false;
      }
      if leg == Yields {
        YieldRoutine();
      } else {
        EndEntry(leg == Throws);
      }
      if slots[id - 1].threw {
        return false, true;
      }
      return !slots[id - 1].finished, false;
    }

    method YieldRoutine()
      modifies this`current
      ensures current == 0
    {
      current := 0;
    }

    /** `entry` once the routine's function has returned or thrown. */
    method EndEntry(threw: bool)
      requires IsId(Value(), current)
      modifies this
      ensures Value() == Finish(old(Value()), threw)
    {
      var id := current;
      slots := slots[id - 1 := Slot(true, threw)];
      current := 0;
      finished := finished + [id];
    }
  }
}
