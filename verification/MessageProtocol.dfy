/** Message queues as threads see them: each section with interrupts disabled is one step, and the copying
    between two sections advances byte by byte while other threads run. */
module MessageProtocol {
  import opened Chains
  import opened Waiters

  type Slot = nat
  type Byte = x: nat | x < 256
  type Message = seq<Byte>

  datatype Config = Config(maxMsgs: nat, msgSize: nat, order: Order, prio: Tid -> nat)

  datatype Result = Ok | Full | TimedOut | Error | Received(bytes: Message)

  /** What a thread is doing.  `taken` records the whole message at the moment it left the queue. */
  datatype Phase =
    | Idle(last: Result)
    | Sending(msg: Message)                                          // suspended or resumed in rt_mq_send_wait
    | Receiving(size: nat)                                           // suspended or resumed in rt_mq_recv
    | Filling(slot: Slot, msg: Message, done: nat, urgent: bool)     // copying into a reserved slot
    | Emptying(slot: Slot, got: Message, len: nat, taken: Message)   // copying out of an unlinked slot

  datatype State = State(free: seq<Slot>, queue: seq<Slot>, data: seq<Message>,
                         senders: Side, receivers: Side, phase: map<Tid, Phase>)

  datatype Event =
    | Send(t: Tid, msg: Message, wait: bool)
    | Urgent(t: Tid, msg: Message)
    | Recv(t: Tid, size: nat, wait: bool)
    | Retry(t: Tid, wait: bool)     // a resumed thread runs its loop again
    | Copy(t: Tid)                  // one byte
    | Finish(t: Tid)                // the section after the copy
    | Expire(t: Tid)                // the thread timer of a suspended thread
    | Reset(t: Tid)

  function Held(p: Phase): set<Slot> {
    if p.Filling? || p.Emptying? then {p.slot} else {}
  }

  // ---- steps ----

  /** First section of a send: reserve a slot, or suspend, or give up. */
  function Reserve(c: Config, s: State, t: Tid, msg: Message, wait: bool, urgent: bool): State {
    if s.free != [] then
      s.(free := s.free[1..], senders := s.senders.Proceed(t),
        phase := s.phase[t := Filling(s.free[0], msg, 0, urgent)])
    else if wait then
      s.(senders := s.senders.Suspend(t, c.order, c.prio), phase := s.phase[t := Sending(msg)])
    else
      s.(senders := s.senders.Proceed(t), phase := s.phase[t := Idle(Full)])
  }

  /** First section of a receive. */
  function Take(c: Config, s: State, t: Tid, size: nat, wait: bool): State
    requires forall x :: x in s.queue ==> x < |s.data|
  {
    if s.queue != [] then
      assert s.queue[0] in s.queue;
      var len := if size > c.msgSize then c.msgSize else size;
      s.(queue := s.queue[1..], receivers := s.receivers.Proceed(t),
         phase := s.phase[t := Emptying(s.queue[0], [], len, s.data[s.queue[0]])])
    else if wait then
      s.(receivers := s.receivers.Suspend(t, c.order, c.prio), phase := s.phase[t := Receiving(size)])
    else
      s.(receivers := s.receivers.Proceed(t), phase := s.phase[t := Idle(TimedOut)])
  }

  predicate CanCopy(s: State, p: Phase) {
    match p
    case Filling(slot, msg, done, _) => slot < |s.data| && done < |msg| && done < |s.data[slot]|
    case Emptying(slot, got, len, _) => slot < |s.data| && |got| < len && |got| < |s.data[slot]|
    case _ => false
  }

  function CopyByte(s: State, t: Tid): State
    requires t in s.phase && CanCopy(s, s.phase[t])
  {
    match s.phase[t]
    case Filling(slot, msg, done, urgent) =>
      s.(data := s.data[slot := s.data[slot][done := msg[done]]],
        phase := s.phase[t := Filling(slot, msg, done + 1, urgent)])
    case Emptying(slot, got, len, taken) =>
      s.(phase := s.phase[t := Emptying(slot, got + [s.data[slot][|got|]], len, taken)])
  }

  /** Second section of a send: link the slot and resume a receiver. */
  function Link(s: State, t: Tid): State
    requires t in s.phase && s.phase[t].Filling?
  {
    var slot := s.phase[t].slot;
    s.(queue := if s.phase[t].urgent then [slot] + s.queue else s.queue + [slot],
       receivers := s.receivers.WakeFirst(), phase := s.phase[t := Idle(Ok)])
  }

  /** Second section of a receive: give the slot back and resume a sender. */
  function GiveBack(s: State, t: Tid): State
    requires t in s.phase && s.phase[t].Emptying?
  {
    s.(free := [s.phase[t].slot] + s.free, senders := s.senders.WakeFirst(),
       phase := s.phase[t := Idle(Received(s.phase[t].got))])
  }

  function TimeOut(s: State, t: Tid): State {
    s.(senders := s.senders.Drop(t), receivers := s.receivers.Drop(t), phase := s.phase[t := Idle(TimedOut)])
  }

  function Reversed(xs: seq<Slot>): seq<Slot> {
    if xs == [] then [] else Reversed(xs[1..]) + [xs[0]]
  }

  /** All suspended threads return an error, all queued slots become free. */
  function Clear(s: State): State {
    s.(free := Reversed(s.queue) + s.free, queue := [],
       senders := Side([], s.senders.woken), receivers := Side([], s.receivers.woken),
       phase := map t | t in s.phase ::
         if t in s.senders.waiting || t in s.receivers.waiting then Idle(Error) else s.phase[t])
  }

  predicate Enabled(c: Config, s: State, e: Event) {
    && e.t in s.phase
    && (forall x :: x in s.queue ==> x < |s.data|)
    && match e
       case Send(t, msg, _) => s.phase[t].Idle? && msg != []
       case Urgent(t, msg) => s.phase[t].Idle? && msg != []
       case Recv(t, size, _) => s.phase[t].Idle? && size > 0
       case Retry(t, _) => (t in s.senders.woken && s.phase[t].Sending?) ||
         (t in s.receivers.woken && s.phase[t].Receiving?)
       case Copy(t) => CanCopy(s, s.phase[t])
       case Finish(t) =>
         || (s.phase[t].Filling? && s.phase[t].done == |s.phase[t].msg|)
         || (s.phase[t].Emptying? && |s.phase[t].got| == s.phase[t].len)
       case Expire(t) => t in s.senders.waiting || t in s.receivers.waiting
       case Reset(t) => s.phase[t].Idle?
  }

  function Next(c: Config, s: State, e: Event): State
    requires Enabled(c, s, e)
  {
    match e
    case Send(t, msg, wait) =>
      if |msg| > c.msgSize then s.(phase := s.phase[t := Idle(Error)]) else Reserve(c, s, t, msg, wait, false)
    case Urgent(t, msg) =>
      if |msg| > c.msgSize then s.(phase := s.phase[t := Idle(Error)]) else Reserve(c, s, t, msg, false, true)
    case Recv(t, size, wait) => Take(c, s, t, size, wait)
    case Retry(t, wait) =>
      if s.phase[t].Sending? then Reserve(c, s, t, s.phase[t].msg, wait, false)
        else Take(c, s, t, s.phase[t].size, wait)
    case Copy(t) => CopyByte(s, t)
    case Finish(t) => if s.phase[t].Filling? then Link(s, t) else GiveBack(s, t)
    case Expire(t) => TimeOut(s, t)
    case Reset(t) => Clear(s)
  }

  // ---- the invariant ----

  ghost predicate Holds(phase: map<Tid, Phase>, t: Tid, x: Slot) {
    t in phase && x in Held(phase[t])
  }

  /** Every slot is in exactly one place: free, queued, or held by one copying thread. */
  ghost predicate SlotsOk(max: nat, free: seq<Slot>, queue: seq<Slot>, phase: map<Tid, Phase>) {
    && Distinct(free) && Distinct(queue)
    && (forall x :: x in free ==> x < max && x !in queue)
    && (forall x :: x in queue ==> x < max)
    && (forall t, x: Slot :: Holds(phase, t, x) ==> x < max && x !in free && x !in queue)
    && (forall t, u, x: Slot :: Holds(phase, t, x) && Holds(phase, u, x) ==> t == u)
    && forall x :: 0 <= x < max ==> x in free || x in queue || exists t :: Holds(phase, t, x)
  }

  ghost predicate PhaseOk(c: Config, data: seq<Message>, p: Phase) {
    match p
    case Idle(_) => true
    case Sending(msg) => 0 < |msg| <= c.msgSize
    case Receiving(size) => size > 0
    case Filling(slot, msg, done, _) =>
      slot < |data| && done <= |msg| <= |data[slot]| == c.msgSize && data[slot][..done] == msg[..done]
    case Emptying(slot, got, len, taken) =>
      slot < |data| && data[slot] == taken && |got| <= len <= |taken| && got == taken[..|got|]
  }

  ghost predicate DataOk(c: Config, data: seq<Message>, phase: map<Tid, Phase>) {
    && |data| == c.maxMsgs && (forall m :: m in data ==> |m| == c.msgSize)
    && forall t :: t in phase ==> PhaseOk(c, data, phase[t])
  }

  ghost predicate SidesOk(senders: Side, receivers: Side, phase: map<Tid, Phase>) {
    && senders.Ok() && receivers.Ok()
    && (forall t :: senders.Has(t) <==> t in phase && phase[t].Sending?)
    && forall t :: receivers.Has(t) <==> t in phase && phase[t].Receiving?
  }

  ghost predicate Inv(c: Config, s: State) {
    && SlotsOk(c.maxMsgs, s.free, s.queue, s.phase)
    && DataOk(c, s.data, s.phase)
    && SidesOk(s.senders, s.receivers, s.phase)
    && s.senders.Covers(|s.free|) && s.receivers.Covers(|s.queue|)
  }

  // ---- every step keeps it ----

  ghost predicate SameHolders(phase: map<Tid, Phase>, phase': map<Tid, Phase>) {
    forall u, y: Slot :: Holds(phase', u, y) <==> Holds(phase, u, y)
  }

  lemma SlotsSame(max: nat, free: seq<Slot>, queue: seq<Slot>, phase: map<Tid, Phase>, phase': map<Tid, Phase>)
    requires SlotsOk(max, free, queue, phase) && SameHolders(phase, phase')
    ensures SlotsOk(max, free, queue, phase')
  {
  }

  lemma SlotsSwap(max: nat, free: seq<Slot>, queue: seq<Slot>, phase: map<Tid, Phase>)
    requires SlotsOk(max, free, queue, phase)
    ensures SlotsOk(max, queue, free, phase)
  {
  }

  /** Thread `t` takes the first slot of a list. */
  lemma SlotTaken(max: nat, list: seq<Slot>, other: seq<Slot>, phase: map<Tid, Phase>, t: Tid, p: Phase)
    requires SlotsOk(max, list, other, phase) && list != [] && t in phase && Held(phase[t]) == {} &&
             Held(p) == {list[0]}
    ensures SlotsOk(max, list[1..], other, phase[t := p])
  {
    var x, phase' := list[0], phase[t := p];
    assert list == [x] + list[1..] && x in list && forall y :: y in list[1..] ==> y in list;
    assert Holds(phase', t, x) && x !in list[1..];
    assert forall u, y: Slot :: Holds(phase', u, y) <==> Holds(phase, u, y) || (u == t && y == x);
    forall y: Slot | y < max && y !in list[1..] && y !in other && y != x
      ensures exists u :: Holds(phase', u, y)
    {
      var u :| Holds(phase, u, y);
      assert Holds(phase', u, y);
    }
  }

  /** Thread `t` puts its slot at the front or the back of a list. */
  lemma SlotPut(max: nat, list: seq<Slot>, other: seq<Slot>, phase: map<Tid, Phase>, t: Tid, x: Slot, p: Phase)
    requires SlotsOk(max, list, other, phase) && t in phase && Held(phase[t]) == {x} && Held(p) == {}
    ensures SlotsOk(max, [x] + list, other, phase[t := p]) && SlotsOk(max, list + [x], other, phase[t := p])
  {
    var phase' := phase[t := p];
    assert Holds(phase, t, x);
    assert forall u, y: Slot :: Holds(phase', u, y) <==> Holds(phase, u, y) && u != t;
  }

  lemma SlotsClear(max: nat, free: seq<Slot>, queue: seq<Slot>, phase: map<Tid, Phase>)
    requires SlotsOk(max, free, queue, phase)
    ensures SlotsOk(max, Reversed(queue) + free, [], phase)
  {
    ReversedMembers(queue);
    var r := Reversed(queue);
    forall i, j | 0 <= i < j < |r + free|
      ensures (r + free)[i] != (r + free)[j]
    {
      if i < |r| <= j { assert r[i] in queue && free[j - |r|] in free; }
    }
  }

  lemma {:induction false} ReversedMembers(xs: seq<Slot>)
    requires Distinct(xs)
    ensures Distinct(Reversed(xs)) && |Reversed(xs)| == |xs| && forall x :: x in Reversed(xs) <==> x in xs
  {
    if xs != [] {
      assert xs == [xs[0]] + xs[1..];
      ReversedMembers(xs[1..]);
      assert xs[0] !in xs[1..];
    }
  }

  lemma DataChange(c: Config, data: seq<Message>, phase: map<Tid, Phase>, t: Tid, p: Phase)
    requires DataOk(c, data, phase) && PhaseOk(c, data, p)
    ensures DataOk(c, data, phase[t := p])
  {
  }

  /** The sides fit the phases again once `t` has joined or left the one that its new phase says. */
  lemma SidesChange(senders: Side, receivers: Side, phase: map<Tid, Phase>, senders': Side, receivers': Side, t: Tid,
                    p: Phase)
    requires SidesOk(senders, receivers, phase) && senders'.Ok() && receivers'.Ok()
    requires forall u :: senders'.Has(u) <==> if u == t then p.Sending? else senders.Has(u)
    requires forall u :: receivers'.Has(u) <==> if u == t then p.Receiving? else receivers.Has(u)
    ensures SidesOk(senders', receivers', phase[t := p])
  {
  }

  lemma ReserveKeeps(c: Config, s: State, t: Tid, msg: Message, wait: bool, urgent: bool)
    requires Inv(c, s) && t in s.phase && 0 < |msg| <= c.msgSize && Held(s.phase[t]) == {}
    requires t !in s.senders.waiting && !s.receivers.Has(t)
    ensures Inv(c, Reserve(c, s, t, msg, wait, urgent))
  {
    var s' := Reserve(c, s, t, msg, wait, urgent);
    var p := s'.phase[t];
    SlotBounds(c, s);
    assert PhaseOk(c, s.data, p) by {
      if s.free != [] { assert s.data[s.free[0]] in s.data; }
    }
    hide SlotsOk, DataOk, SidesOk, PhaseOk;
    DataChange(c, s.data, s.phase, t, p);
    if s.free != [] {
      SlotTaken(c.maxMsgs, s.free, s.queue, s.phase, t, p);
      ProceedOk(s.senders, t, |s.free| - 1);
    } else {
      SlotsSame(c.maxMsgs, s.free, s.queue, s.phase, s'.phase);
      if wait { SuspendOk(s.senders, t, c.order, c.prio); } else { LeaveOk(s.senders, t); }
    }
    SidesChange(s.senders, s.receivers, s.phase, s'.senders, s'.receivers, t, p);
  }

  lemma SlotBounds(c: Config, s: State)
    requires SlotsOk(c.maxMsgs, s.free, s.queue, s.phase) && DataOk(c, s.data, s.phase)
    ensures s.free != [] ==> s.free[0] < |s.data|
    ensures s.queue != [] ==> s.queue[0] < |s.data|
    ensures forall x :: x in s.queue ==> x < |s.data|
  {
    if s.free != [] { assert s.free[0] in s.free; }
    if s.queue != [] { assert s.queue[0] in s.queue; }
  }

  lemma TakeKeeps(c: Config, s: State, t: Tid, size: nat, wait: bool)
    requires Inv(c, s) && t in s.phase && size > 0 && Held(s.phase[t]) == {}
    requires t !in s.receivers.waiting && !s.senders.Has(t)
    requires forall x :: x in s.queue ==> x < |s.data|
    ensures Inv(c, Take(c, s, t, size, wait))
  {
    var s' := Take(c, s, t, size, wait);
    var p := s'.phase[t];
    SlotBounds(c, s);
    assert PhaseOk(c, s.data, p) by {
      if s.queue != [] { assert s.data[s.queue[0]] in s.data; }
    }
    hide SlotsOk, DataOk, SidesOk, PhaseOk;
    DataChange(c, s.data, s.phase, t, p);
    if s.queue != [] {
      SlotsSwap(c.maxMsgs, s.free, s.queue, s.phase);
      SlotTaken(c.maxMsgs, s.queue, s.free, s.phase, t, p);
      SlotsSwap(c.maxMsgs, s'.queue, s.free, s'.phase);
      ProceedOk(s.receivers, t, |s.queue| - 1);
    } else {
      SlotsSame(c.maxMsgs, s.free, s.queue, s.phase, s'.phase);
      if wait { SuspendOk(s.receivers, t, c.order, c.prio); } else { LeaveOk(s.receivers, t); }
    }
    SidesChange(s.senders, s.receivers, s.phase, s'.senders, s'.receivers, t, p);
  }

  /** A copying thread changes no slot but its own. */
  lemma CopyKeeps(c: Config, s: State, t: Tid)
    requires Inv(c, s) && t in s.phase && CanCopy(s, s.phase[t])
    ensures Inv(c, CopyByte(s, t))
    ensures forall x :: 0 <= x < |s.data| && x != s.phase[t].slot ==> CopyByte(s, t).data[x] == s.data[x]
  {
    var s' := CopyByte(s, t);
    var x := s.phase[t].slot;
    assert Holds(s.phase, t, x);
    SlotsSame(c.maxMsgs, s.free, s.queue, s.phase, s'.phase);
    forall u | u in s'.phase
      ensures PhaseOk(c, s'.data, s'.phase[u])
    {
      if u != t && Held(s.phase[u]) != {} {
        assert Holds(s.phase, u, s.phase[u].slot);
        assert s.phase[u].slot != x;
      }
    }
    hide SlotsOk;
  }

  lemma LinkKeeps(c: Config, s: State, t: Tid)
    requires Inv(c, s) && t in s.phase && s.phase[t].Filling?
    ensures Inv(c, Link(s, t))
  {
    var s' := Link(s, t);
    assert !s.senders.Has(t) && !s.receivers.Has(t);
    hide SlotsOk, DataOk, SidesOk;
    SlotsSwap(c.maxMsgs, s.free, s.queue, s.phase);
    SlotPut(c.maxMsgs, s.queue, s.free, s.phase, t, s.phase[t].slot, s'.phase[t]);
    SlotsSwap(c.maxMsgs, s'.queue, s.free, s'.phase);
    DataChange(c, s.data, s.phase, t, s'.phase[t]);
    WakeOk(s.receivers, |s.queue|);
    SidesChange(s.senders, s.receivers, s.phase, s'.senders, s'.receivers, t, s'.phase[t]);
  }

  lemma GiveBackKeeps(c: Config, s: State, t: Tid)
    requires Inv(c, s) && t in s.phase && s.phase[t].Emptying?
    ensures Inv(c, GiveBack(s, t))
  {
    var s' := GiveBack(s, t);
    assert !s.senders.Has(t) && !s.receivers.Has(t);
    hide SlotsOk, DataOk, SidesOk;
    SlotPut(c.maxMsgs, s.free, s.queue, s.phase, t, s.phase[t].slot, s'.phase[t]);
    DataChange(c, s.data, s.phase, t, s'.phase[t]);
    WakeOk(s.senders, |s.free|);
    SidesChange(s.senders, s.receivers, s.phase, s'.senders, s'.receivers, t, s'.phase[t]);
  }

  lemma TimeOutKeeps(c: Config, s: State, t: Tid)
    requires Inv(c, s) && (t in s.senders.waiting || t in s.receivers.waiting)
    ensures Inv(c, TimeOut(s, t))
  {
    var s' := TimeOut(s, t);
    assert s.senders.Has(t) || s.receivers.Has(t);
    SlotsSame(c.maxMsgs, s.free, s.queue, s.phase, s'.phase);
    hide SlotsOk;
    if t in s.senders.waiting {
      assert !s.receivers.Has(t);
      DropOk(s.senders, t, |s.free|);
    } else {
      assert !s.senders.Has(t);
      DropOk(s.receivers, t, |s.queue|);
    }
  }

  lemma SidesClear(senders: Side, receivers: Side, phase: map<Tid, Phase>, phase': map<Tid, Phase>)
    requires SidesOk(senders, receivers, phase) && phase'.Keys == phase.Keys
    requires forall u :: u in phase ==>
             phase'[u] == if u in senders.waiting || u in receivers.waiting then Idle(Error) else phase[u]
    ensures SidesOk(Side([], senders.woken), Side([], receivers.woken), phase')
    ensures SameHolders(phase, phase')
  {
    forall u
      ensures Side([], senders.woken).Has(u) <==> u in phase' && phase'[u].Sending?
      ensures Side([], receivers.woken).Has(u) <==> u in phase' && phase'[u].Receiving?
      ensures u in phase ==> Held(phase'[u]) == Held(phase[u])
    {
      assert senders.Has(u) <==> u in phase && phase[u].Sending?;
      assert receivers.Has(u) <==> u in phase && phase[u].Receiving?;
    }
  }

  lemma ClearKeeps(c: Config, s: State)
    requires Inv(c, s)
    ensures Inv(c, Clear(s))
  {
    var s' := Clear(s);
    SlotsClear(c.maxMsgs, s.free, s.queue, s.phase);
    SidesClear(s.senders, s.receivers, s.phase, s'.phase);
    hide SlotsOk, PhaseOk, SidesOk;
    SlotsSame(c.maxMsgs, s'.free, [], s.phase, s'.phase);
  }

  lemma IdleKeeps(c: Config, s: State, t: Tid, r: Result)
    requires Inv(c, s) && t in s.phase && s.phase[t].Idle?
    ensures Inv(c, s.(phase := s.phase[t := Idle(r)]))
  {
    SlotsSame(c.maxMsgs, s.free, s.queue, s.phase, s.phase[t := Idle(r)]);
    hide SlotsOk;
  }

  lemma StepKeeps(c: Config, s: State, e: Event)
    requires Inv(c, s) && Enabled(c, s, e)
    ensures Inv(c, Next(c, s, e))
  {
    var t := e.t;
    assert s.senders.Has(t) <==> s.phase[t].Sending?;
    assert s.receivers.Has(t) <==> s.phase[t].Receiving?;
    assert PhaseOk(c, s.data, s.phase[t]);
    hide SlotsOk, DataOk, PhaseOk;
    match e
    case Send(_, msg, wait) =>
      if |msg| > c.msgSize { IdleKeeps(c, s, t, Error); } else { ReserveKeeps(c, s, t, msg, wait, false); }
    case Urgent(_, msg) =>
      if |msg| > c.msgSize { IdleKeeps(c, s, t, Error); } else { ReserveKeeps(c, s, t, msg, false, true); }
    case Recv(_, size, wait) => TakeKeeps(c, s, t, size, wait);
    case Retry(_, wait) => RetryKeeps(c, s, t, wait);
    case Copy(_) => CopyKeeps(c, s, t);
    case Finish(_) => if s.phase[t].Filling? { LinkKeeps(c, s, t); } else { GiveBackKeeps(c, s, t); }
    case Expire(_) => TimeOutKeeps(c, s, t);
    case Reset(_) => ClearKeeps(c, s);
  }

  lemma RetryKeeps(c: Config, s: State, t: Tid, wait: bool)
    requires Inv(c, s) && Enabled(c, s, Retry(t, wait))
    ensures Inv(c, Next(c, s, Retry(t, wait)))
  {
    assert PhaseOk(c, s.data, s.phase[t]);
    assert s.senders.Has(t) <==> s.phase[t].Sending?;
    assert s.receivers.Has(t) <==> s.phase[t].Receiving?;
    hide SlotsOk, DataOk;
    if s.phase[t].Sending? {
      ReserveKeeps(c, s, t, s.phase[t].msg, wait, false);
    } else {
      TakeKeeps(c, s, t, s.phase[t].size, wait);
    }
  }

  // ---- whole runs ----

  function Initial(c: Config, threads: set<Tid>): State {
    State(seq(c.maxMsgs, i => c.maxMsgs - 1 - i), [], seq(c.maxMsgs, i => seq(c.msgSize, j => 0)),
          Side([], {}), Side([], {}), map t | t in threads :: Idle(Ok))
  }

  lemma InitialOk(c: Config, threads: set<Tid>)
    ensures Inv(c, Initial(c, threads))
  {
    var s := Initial(c, threads);
    forall x: Slot | x < c.maxMsgs
      ensures x in s.free
    {
      assert s.free[c.maxMsgs - 1 - x] == x;
    }
    assert SlotsOk(c.maxMsgs, s.free, s.queue, s.phase);
    hide SlotsOk;
    assert DataOk(c, s.data, s.phase);
    hide DataOk;
    assert SidesOk(s.senders, s.receivers, s.phase);
  }

  predicate Possible(c: Config, s: State, es: seq<Event>)
    decreases |es|
  {
    es == [] || (Enabled(c, s, es[0]) && Possible(c, Next(c, s, es[0]), es[1..]))
  }

  function After(c: Config, s: State, es: seq<Event>): State
    requires Possible(c, s, es)
    decreases |es|
  {
    if es == [] then s else After(c, Next(c, s, es[0]), es[1..])
  }

  lemma {:induction false} RunKeeps(c: Config, s: State, es: seq<Event>)
    requires Inv(c, s) && Possible(c, s, es)
    ensures Inv(c, After(c, s, es))
    decreases |es|
  {
    if es != [] {
      StepKeeps(c, s, es[0]);
      hide Inv, Next, Enabled;
      RunKeeps(c, Next(c, s, es[0]), es[1..]);
    }
  }

  /** After any run each slot is in exactly one place. */
  lemma SlotsConserved(c: Config, threads: set<Tid>, es: seq<Event>, x: Slot)
    requires Possible(c, Initial(c, threads), es) && x < c.maxMsgs
    ensures var s := After(c, Initial(c, threads), es);
      && multiset(s.free)[x] + multiset(s.queue)[x] <= 1
      && (multiset(s.free)[x] + multiset(s.queue)[x] == 0 <==> exists t :: Holds(s.phase, t, x))
      && forall t, u :: Holds(s.phase, t, x) && Holds(s.phase, u, x) ==> t == u
  {
    InitialOk(c, threads);
    RunKeeps(c, Initial(c, threads), es);
    var s := After(c, Initial(c, threads), es);
    CountOne(s.free, x);
    CountOne(s.queue, x);
  }

  lemma {:induction false} CountOne(xs: seq<Slot>, x: Slot)
    requires Distinct(xs)
    ensures multiset(xs)[x] == if x in xs then 1 else 0
  {
    if xs != [] {
      assert xs == [xs[0]] + xs[1..];
      CountOne(xs[1..], x);
      assert xs[0] !in xs[1..];
    }
  }

  /** After any run, threads are suspended only while every available slot or message has a thread
      that was resumed for it and is yet to run. */
  lemma NoLostWakeup(c: Config, threads: set<Tid>, es: seq<Event>)
    requires Possible(c, Initial(c, threads), es)
    ensures var s := After(c, Initial(c, threads), es);
      && (s.senders.waiting != [] ==> |s.free| <= |s.senders.woken|)
      && (s.receivers.waiting != [] ==> |s.queue| <= |s.receivers.woken|)
  {
    InitialOk(c, threads);
    RunKeeps(c, Initial(c, threads), es);
  }

  ghost predicate Quiet(s: State) {
    s.senders.woken == {} && s.receivers.woken == {} && forall t :: t in s.phase ==> Held(s.phase[t]) == {}
  }

  /** When all threads have run as far as they can, senders are suspended only on a full queue and
      receivers only on an empty one; so never both. */
  lemma QuietState(c: Config, threads: set<Tid>, es: seq<Event>)
    requires Possible(c, Initial(c, threads), es) && Quiet(After(c, Initial(c, threads), es))
    ensures var s := After(c, Initial(c, threads), es);
      && (s.senders.waiting != [] ==> |s.queue| == c.maxMsgs)
      && (s.receivers.waiting != [] ==> s.queue == [])
      && (c.maxMsgs > 0 ==> s.senders.waiting == [] || s.receivers.waiting == [])
  {
    InitialOk(c, threads);
    RunKeeps(c, Initial(c, threads), es);
    var s := After(c, Initial(c, threads), es);
    if s.senders.waiting != [] {
      assert forall t, x: Slot :: !Holds(s.phase, t, x);
      FullLength(s.queue, c.maxMsgs);
    }
  }

  lemma {:induction false} FullLength(xs: seq<Slot>, n: nat)
    requires Distinct(xs) && forall x: Slot :: x in xs <==> x < n
    ensures |xs| == n
  {
    if xs == [] {
      var x: Slot := 0;
      assert x in xs <==> x < n;
    } else {
      assert xs[0] in xs;
      assert var last: Slot := n - 1; last in xs;
      var k :| 0 <= k < |xs| && xs[k] == n - 1;
      var ys := xs[..k] + xs[k + 1..];
      forall x: Slot
        ensures x in ys <==> x < n - 1
      {
        assert x in ys <==> x in xs && x != n - 1;
      }
      FullLength(ys, n - 1);
    }
  }

  // ---- delivery ----

  /** The messages in the queue, first to be delivered first. */
  ghost function Queued(s: State): seq<Message>
    requires forall x :: x in s.queue ==> x < |s.data|
  {
    seq(|s.queue|, i requires 0 <= i < |s.queue| => assert s.queue[i] in s.queue; s.data[s.queue[i]])
  }

  /** What a step does to the queue of messages, seen as a value. */
  datatype Effect = Unchanged | PushedBack(m: Message) | PushedFront(m: Message) | Popped(m: Message) | Emptied

  ghost function EffectOf(c: Config, s: State, e: Event): Effect
    requires Enabled(c, s, e) && Inv(c, s)
  {
    match e
    case Finish(t) =>
      if !s.phase[t].Filling? then Unchanged
      else if s.phase[t].urgent then PushedFront(s.data[s.phase[t].slot])
      else PushedBack(s.data[s.phase[t].slot])
    case Reset(_) => Emptied
    case Recv(_, _, _) => if s.queue == [] then Unchanged else Popped(Queued(s)[0])
    case Retry(t, _) => if s.queue == [] || s.phase[t].Sending? then Unchanged else Popped(Queued(s)[0])
    case _ => Unchanged
  }

  ghost function Apply(q: seq<Message>, f: Effect): seq<Message>
    requires f.Popped? ==> q != []
  {
    match f
    case Unchanged => q
    case PushedBack(m) => q + [m]
    case PushedFront(m) => [m] + q
    case Popped(_) => q[1..]
    case Emptied => []
  }

  lemma InQueueBound(c: Config, s: State)
    requires Inv(c, s)
    ensures forall x :: x in s.queue ==> x < |s.data|
    ensures |Queued(s)| == |s.queue|
  {
  }

  lemma QueuedSame(s: State, s': State)
    requires (forall x :: x in s.queue ==> x < |s.data| && x < |s'.data| && s'.data[x] == s.data[x]) &&
             s'.queue == s.queue
    ensures Queued(s') == Queued(s)
  {
  }

  lemma CopyDelivers(c: Config, s: State, t: Tid)
    requires Inv(c, s) && t in s.phase && CanCopy(s, s.phase[t])
    ensures Inv(c, CopyByte(s, t)) && Queued(CopyByte(s, t)) == Queued(s)
  {
    CopyKeeps(c, s, t);
    assert Holds(s.phase, t, s.phase[t].slot);
    InQueueBound(c, s);
    hide DataOk, SidesOk;
    QueuedSame(s, CopyByte(s, t));
  }

  lemma LinkDelivers(s: State, t: Tid)
    requires t in s.phase && s.phase[t].Filling? && s.phase[t].slot < |s.data|
    requires forall x :: x in s.queue ==> x < |s.data|
    ensures forall x :: x in Link(s, t).queue ==> x < |s.data|
    ensures var m := s.data[s.phase[t].slot]; Queued(Link(s, t)) == if s.phase[t].urgent then [m] + Queued(s)
            else Queued(s) + [m]
  {
  }

  lemma TakeDelivers(c: Config, s: State, t: Tid, size: nat, wait: bool)
    requires forall x :: x in s.queue ==> x < |s.data|
    ensures forall x :: x in Take(c, s, t, size, wait).queue ==> x < |s.data|
    ensures Queued(Take(c, s, t, size, wait)) == if s.queue == [] then [] else Queued(s)[1..]
    ensures s.queue != [] ==>
            Take(c, s, t, size, wait).phase[t].Emptying? && Take(c, s, t, size, wait).phase[t].taken == Queued(s)[0]
    ensures s.queue != [] && size <= c.msgSize ==> Take(c, s, t, size, wait).phase[t].len == size
    ensures s.queue != [] && size >= c.msgSize ==> Take(c, s, t, size, wait).phase[t].len == c.msgSize
  {
    if s.queue != [] {
      assert forall x :: x in s.queue[1..] ==> x in s.queue;
    }
  }

  /** What is linked starts with the message sent; what is received is the message taken, cut to length. */
  lemma FinishGives(c: Config, s: State, t: Tid)
    requires Inv(c, s) && Enabled(c, s, Finish(t))
    ensures s.phase[t].Filling? ==> s.phase[t].slot < |s.data| && s.phase[t].msg <= s.data[s.phase[t].slot]
    ensures s.phase[t].Emptying? ==> s.phase[t].len <= |s.phase[t].taken|
    ensures s.phase[t].Emptying? ==>
            Next(c, s, Finish(t)).phase[t] == Idle(Received(s.phase[t].taken[..s.phase[t].len]))
  {
    assert PhaseOk(c, s.data, s.phase[t]);
  }

  lemma RetryDelivers(c: Config, s: State, t: Tid, wait: bool)
    requires Inv(c, s) && Enabled(c, s, Retry(t, wait))
    ensures forall x :: x in Next(c, s, Retry(t, wait)).queue ==> x < |s.data| == |Next(c, s, Retry(t, wait)).data|
    ensures Queued(Next(c, s, Retry(t, wait))) == Apply(Queued(s), EffectOf(c, s, Retry(t, wait)))
  {
    InQueueBound(c, s);
    hide Inv;
    if s.phase[t].Sending? { QueuedSame(s, Next(c, s, Retry(t, wait))); }
      else { TakeDelivers(c, s, t, s.phase[t].size, wait); }
  }

  lemma FinishDelivers(c: Config, s: State, t: Tid)
    requires Inv(c, s) && Enabled(c, s, Finish(t))
    ensures forall x :: x in Next(c, s, Finish(t)).queue ==> x < |s.data| == |Next(c, s, Finish(t)).data|
    ensures Queued(Next(c, s, Finish(t))) == Apply(Queued(s), EffectOf(c, s, Finish(t)))
  {
    InQueueBound(c, s);
    FinishGives(c, s, t);
    hide Inv;
    if s.phase[t].Filling? { LinkDelivers(s, t); } else { QueuedSame(s, Next(c, s, Finish(t))); }
  }

  lemma OtherDelivers(c: Config, s: State, e: Event)
    requires Inv(c, s) && Enabled(c, s, e) && (e.Send? || e.Urgent? || e.Expire?)
    ensures forall x :: x in Next(c, s, e).queue ==> x < |s.data| == |Next(c, s, e).data|
    ensures Queued(Next(c, s, e)) == Apply(Queued(s), EffectOf(c, s, e))
  {
    InQueueBound(c, s);
    hide Inv;
    QueuedSame(s, Next(c, s, e));
  }

  /** No step but linking, taking and reset changes what is queued, whatever copying goes on meanwhile. */
  lemma StepDelivers(c: Config, s: State, e: Event)
    requires Inv(c, s) && Enabled(c, s, e)
    ensures Inv(c, Next(c, s, e))
    ensures Queued(Next(c, s, e)) == Apply(Queued(s), EffectOf(c, s, e))
  {
    hide Inv, CanCopy, Reserve, TimeOut, Link, GiveBack, CopyByte;
    StepKeeps(c, s, e);
    InQueueBound(c, s);
    InQueueBound(c, Next(c, s, e));
    match e
    case Recv(t, size, wait) => TakeDelivers(c, s, t, size, wait);
    case Retry(t, wait) => RetryDelivers(c, s, t, wait);
    case Copy(t) => CopyDelivers(c, s, t);
    case Finish(t) => FinishDelivers(c, s, t);
    case Reset(_) =>
    case _ => OtherDelivers(c, s, e);
  }

  /** What is taken is the head of the queue, and is what the receiver gets to copy. */
  lemma StepTakes(c: Config, s: State, e: Event)
    requires Inv(c, s) && Enabled(c, s, e) && EffectOf(c, s, e).Popped?
    ensures Queued(s) != [] && EffectOf(c, s, e).m == Queued(s)[0]
    ensures e.t in Next(c, s, e).phase
    ensures Next(c, s, e).phase[e.t].Emptying? && Next(c, s, e).phase[e.t].taken == EffectOf(c, s, e).m
  {
    InQueueBound(c, s);
    hide Inv, CanCopy;
  }

  /** What the calls return.  A send gives up exactly when no slot is free and it does not wait, a receive
      when nothing is queued; a message that does not fit is refused; an expired wait ends in a timeout. */
  lemma ResultsExact(c: Config, s: State, e: Event)
    requires Inv(c, s) && Enabled(c, s, e) && !e.Reset?
    ensures var r := Next(c, s, e).phase[e.t];
      && (r == Idle(Full) <==> SendsNow(s, e, c.msgSize) && s.free == [] && (e.Urgent? || !e.wait))
      && (r == Idle(TimedOut) <==> e.Expire? || (ReceivesNow(s, e) && s.queue == [] && !e.wait))
      && (r == Idle(Error) <==> (e.Send? || e.Urgent?) && |e.msg| > c.msgSize)
      && (r == Idle(Ok) <==> e.Finish? && s.phase[e.t].Filling?)
      && (r.Idle? && r.last.Received? <==> e.Finish? && s.phase[e.t].Emptying?)
      && (r.Sending? <==> SendsNow(s, e, c.msgSize) && s.free == [] && !e.Urgent? && e.wait)
      && (r.Receiving? <==> ReceivesNow(s, e) && s.queue == [] && e.wait)
  {
  }

  /** A reset ends the calls of exactly the suspended threads, with an error, and frees all queued slots. */
  lemma ResetReleases(c: Config, s: State, t: Tid)
    requires Inv(c, s) && Enabled(c, s, Reset(t))
    ensures var s' := Next(c, s, Reset(t));
      && s'.senders == Side([], s.senders.woken) && s'.receivers == Side([], s.receivers.woken)
      && s'.phase.Keys == s.phase.Keys
      && (forall u :: u in s.phase ==>
           s'.phase[u] == if u in s.senders.waiting || u in s.receivers.waiting then Idle(Error) else s.phase[u])
      && s'.queue == [] && (forall x :: x in s'.free <==> x in s.free || x in s.queue) && s'.data == s.data
  {
    ReversedMembers(s.queue);
    hide DataOk, SidesOk, CanCopy;
  }

  /** A thread goes through the first section of a send, for the first time or again. */
  ghost predicate SendsNow(s: State, e: Event, most: nat)
    requires e.t in s.phase
  {
    ((e.Send? || e.Urgent?) && |e.msg| <= most) || (e.Retry? && s.phase[e.t].Sending?)
  }

  ghost predicate ReceivesNow(s: State, e: Event)
    requires e.t in s.phase
  {
    e.Recv? || (e.Retry? && s.phase[e.t].Receiving?)
  }

  /** What the steps of a run do to the queue of messages. */
  ghost function Effects(c: Config, s: State, es: seq<Event>): (fs: seq<Effect>)
    requires Inv(c, s) && Possible(c, s, es)
    decreases |es|
  {
    if es == [] then []
    else
      StepKeeps(c, s, es[0]);
      [EffectOf(c, s, es[0])] + Effects(c, Next(c, s, es[0]), es[1..])
  }

  ghost predicate Legal(q: seq<Message>, fs: seq<Effect>)
    decreases |fs|
  {
    fs == [] || ((fs[0].Popped? ==> q != [] && fs[0].m == q[0]) && Legal(Apply(q, fs[0]), fs[1..]))
  }

  ghost function Replay(q: seq<Message>, fs: seq<Effect>): seq<Message>
    requires Legal(q, fs)
    decreases |fs|
  {
    if fs == [] then q else Replay(Apply(q, fs[0]), fs[1..])
  }

  /** In every run the queue behaves as a double-ended queue of messages: linked at the back, or at the
      front if urgent, and always taken from the front. */
  lemma {:induction false} RunDelivers(c: Config, s: State, es: seq<Event>)
    requires Inv(c, s) && Possible(c, s, es)
    ensures Inv(c, After(c, s, es)) && Legal(Queued(s), Effects(c, s, es))
    ensures Queued(After(c, s, es)) == Replay(Queued(s), Effects(c, s, es))
    decreases |es|
  {
    InQueueBound(c, s);
    if es != [] {
      var f := EffectOf(c, s, es[0]);
      StepDelivers(c, s, es[0]);
      InQueueBound(c, Next(c, s, es[0]));
      if f.Popped? { StepTakes(c, s, es[0]); }
      RunDelivers(c, Next(c, s, es[0]), es[1..]);
      assert Effects(c, s, es)[1..] == Effects(c, Next(c, s, es[0]), es[1..]);
    }
  }

  function Arrived(fs: seq<Effect>): seq<Message> {
    if fs == [] then [] else (if fs[0].PushedBack? then [fs[0].m] else []) + Arrived(fs[1..])
  }

  function Delivered(fs: seq<Effect>): seq<Message> {
    if fs == [] then [] else (if fs[0].Popped? then [fs[0].m] else []) + Delivered(fs[1..])
  }

  /** Without urgent messages and resets, messages are taken in the order in which they were linked, none
      lost and none twice. */
  lemma {:induction false} FirstInFirstOut(q: seq<Message>, fs: seq<Effect>)
    requires Legal(q, fs) && forall f :: f in fs ==> !f.PushedFront? && !f.Emptied?
    ensures Delivered(fs) + Replay(q, fs) == q + Arrived(fs)
    decreases |fs|
  {
    if fs != [] {
      assert fs[0] in fs && forall f :: f in fs[1..] ==> f in fs;
      FirstInFirstOut(Apply(q, fs[0]), fs[1..]);
      Shuffle(fs[0], q, Apply(q, fs[0]), Delivered(fs[1..]), Arrived(fs[1..]), Replay(Apply(q, fs[0]), fs[1..]));
    }
  }

  lemma Shuffle(f: Effect, q: seq<Message>, q1: seq<Message>, pops: seq<Message>, pushes: seq<Message>,
                rest: seq<Message>)
    requires !f.PushedFront? && !f.Emptied? && (f.Popped? ==> q != [] && f.m == q[0]) && q1 == Apply(q, f)
    requires pops + rest == q1 + pushes
    ensures ((if f.Popped? then [f.m] else []) + pops) + rest == q + ((if f.PushedBack? then [f.m] else []) + pushes)
  {
    if f.Popped? {
      assert [f.m] + pops + rest == [f.m] + (pops + rest);
      assert [f.m] + (q1 + pushes) == ([f.m] + q1) + pushes;
    } else if f.PushedBack? {
      assert (q + [f.m]) + pushes == q + ([f.m] + pushes);
      assert [] + pops == pops;
    } else {
      assert [] + pops == pops && [] + pushes == pushes;
    }
  }
}
