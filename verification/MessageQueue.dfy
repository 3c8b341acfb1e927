/** The message queue object: message slots linked into a free list and a queue, through which the
    sections of rt_mq_send_wait, rt_mq_urgent, rt_mq_recv and the reset command carry out the protocol. */
module MessageQueues {
  import opened Chains
  import opened Waiters
  import opened MessageProtocol

  ghost predicate InQueue(s: State) {
    forall x :: x in s.queue ==> x < |s.data|
  }

  ghost predicate Apart(s: State, x: Slot) {
    forall u :: u in s.phase ==> x !in Held(s.phase[u])
  }

  lemma FirstFree(c: Config, s: State)
    requires Inv(c, s)
    ensures s.free != [] ==> s.free[0] !in s.free[1..] && s.free[0] !in s.queue && Apart(s, s.free[0])
  {
    if s.free != [] {
      assert s.free[0] in s.free;
      forall u | u in s.phase
        ensures s.free[0] !in Held(s.phase[u])
      {
        assert Holds(s.phase, u, s.free[0]) <==> s.free[0] in Held(s.phase[u]);
      }
    }
  }

  lemma FirstQueued(c: Config, s: State)
    requires Inv(c, s)
    ensures InQueue(s) && Distinct(s.queue)
    ensures s.queue != [] ==> s.queue[0] < |s.data|
  {
    if s.queue != [] { assert s.queue[0] in s.queue; }
  }

  lemma LastApart(c: Config, s: State)
    requires Inv(c, s)
    ensures Distinct(s.queue) && (s.queue != [] ==> s.queue[|s.queue| - 1] !in s.free)
    ensures forall u, x: Slot :: u in s.phase && x in s.queue ==> x !in Held(s.phase[u])
  {
    if s.queue != [] { assert s.queue[|s.queue| - 1] in s.queue; }
    forall u, x: Slot | u in s.phase && x in s.queue
      ensures x !in Held(s.phase[u])
    {
      assert Holds(s.phase, u, x) <==> x in Held(s.phase[u]);
    }
  }

  /** A slot that a thread copies into or out of is in no list and held by no other thread. */
  lemma HeldApart(c: Config, s: State, t: Tid)
    requires Inv(c, s) && t in s.phase && Held(s.phase[t]) != {}
    ensures s.phase[t].slot !in s.free && s.phase[t].slot !in s.queue
    ensures forall u :: u in s.phase && u != t ==> s.phase[t].slot !in Held(s.phase[u])
  {
    var x := s.phase[t].slot;
    assert Holds(s.phase, t, x);
    forall u | u in s.phase && u != t
      ensures x !in Held(s.phase[u])
    {
      assert Holds(s.phase, u, x) <==> x in Held(s.phase[u]);
    }
  }

  /** While the queue is drained: its slots are distinct and none of them was free. */
  lemma HeadApart(max: nat, s: State, k: nat)
    requires SlotsOk(max, s.free, s.queue, s.phase) && k <= |s.queue|
    ensures Distinct(s.queue[k..])
    ensures k < |s.queue| ==> s.queue[k] !in s.queue[k + 1..] && s.queue[k] !in Reversed(s.queue[..k]) + s.free
  {
    if k < |s.queue| {
      assert s.queue[k] in s.queue;
      ReversedMembers(s.queue[..k]);
    }
  }

  lemma {:induction false} ReversedLast(xs: seq<Slot>, k: nat)
    requires k <= |xs|
    ensures k < |xs| ==> Reversed(xs[..k + 1]) == [xs[k]] + Reversed(xs[..k])
    decreases k
  {
    if 0 < k < |xs| {
      ReversedLast(xs[1..], k - 1);
      assert xs[..k + 1][1..] == xs[1..][..k] && xs[..k][1..] == xs[1..][..k - 1];
    } else if k < |xs| {
      assert xs[..1] == [xs[0]] && xs[..1][1..] == [] && xs[..0] == [];
    }
  }

  class MessageQueue {
    const c: Config
    var next: map<Slot, int>
    var head: int
    var tail: int
    var freeHead: int
    var entry: nat
    var data: seq<Message>
    var senders: Side                 // suspend_sender_thread
    var receivers: Side               // parent.suspend_thread
    var phase: map<Tid, Phase>        // where each thread stands, with its local variables
    ghost var free: seq<Slot>
    ghost var queue: seq<Slot>

    ghost function Abs(): State
      reads this
    {
      State(free, queue, data, senders, receivers, phase)
    }

    ghost predicate Lists()
      reads `next, `head, `tail, `freeHead, `entry, `free, `queue
    {
      && Chain(next, freeHead, free) && Chain(next, head, queue)
      && tail == (if queue == [] then NULL else queue[|queue| - 1])
      && entry == |queue|
    }

    /** A slot being filled, to be linked at the back, is the end of a chain. */
    ghost predicate Ended()
      reads `next, `phase
    {
      forall t :: t in phase && phase[t].Filling? && !phase[t].urgent ==>
        phase[t].slot in next && next[phase[t].slot] == NULL
    }

    ghost predicate Valid()
      reads this
    {
      Lists() && Ended() && Inv(c, Abs())
    }

    constructor (c: Config, threads: set<Tid>)
      ensures Valid() && this.c == c && Abs() == Initial(c, threads)
    {
      this.c := c;
      head, tail, entry := NULL, NULL, 0;
      data := seq(c.maxMsgs, i => seq(c.msgSize, j => 0));
      senders, receivers, phase := Side([], {}), Side([], {}), map t | t in threads :: Idle(Ok);
      free, queue := [], [];
      next, freeHead := map[], NULL;
      new;
      ThreadFree(c.maxMsgs);
      assert free == Initial(c, threads).free;
      assert Abs() == Initial(c, threads);
      InitialOk(c, threads);
    }

    /** Put all slots into the free list, the last one first. */
    method ThreadFree(n: nat)
      requires free == [] && freeHead == NULL
      modifies `next, `freeHead, `free
      ensures |free| == n && (forall j :: 0 <= j < n ==> free[j] == n - 1 - j) && Chain(next, freeHead, free)
    {
      for i := 0 to n
        invariant |free| == i && forall j :: 0 <= j < i ==> free[j] == i - 1 - j
        invariant Chain(next, freeHead, free)
      {
        ChainFrame(next, freeHead, free, i, freeHead);
        next := next[i := freeHead];
        freeHead := i;
        free := [i] + free;
      }
    }

    // ---- the two lists ----

    method TakeFree() returns (slot: Slot)
      requires Lists() && free != []
      modifies `freeHead, `free
      ensures Lists() && slot == old(free)[0] && free == old(free)[1..]
    {
      slot := freeHead;
      freeHead := next[slot];
      free := free[1..];
    }

    method TakeHead() returns (slot: Slot)
      requires Lists() && queue != [] && Distinct(queue)
      modifies `head, `tail, `entry, `queue
      ensures Lists() && slot == old(queue)[0] && queue == old(queue)[1..]
    {
      slot := head;
      head := next[slot];
      if tail == slot {
        tail := NULL;
      }
      entry := entry - 1;
      queue := queue[1..];
    }

    method PutFree(slot: Slot)
      requires Lists() && slot !in free && slot !in queue
      modifies `next, `freeHead, `free
      ensures Lists() && free == [slot] + old(free) && next == old(next)[slot := next[slot]]
    {
      ChainFrame(next, freeHead, free, slot, freeHead);
      ChainFrame(next, head, queue, slot, freeHead);
      next := next[slot := freeHead];
      freeHead := slot;
      free := [slot] + free;
    }

    method PushFront(slot: Slot)
      requires Lists() && slot !in free && slot !in queue
      modifies `next, `head, `tail, `entry, `queue
      ensures Lists() && queue == [slot] + old(queue) && next == old(next)[slot := next[slot]]
    {
      ChainFrame(next, freeHead, free, slot, head);
      ChainFrame(next, head, queue, slot, head);
      next := next[slot := head];
      head := slot;
      if tail == NULL {
        tail := slot;
      }
      entry := entry + 1;
      queue := [slot] + queue;
    }

    method PushBack(slot: Slot)
      requires Lists() && slot !in queue && Distinct(queue) && slot in next && next[slot] == NULL
      requires queue != [] ==> queue[|queue| - 1] !in free
      modifies `next, `head, `tail, `entry, `queue
      ensures Lists() && queue == old(queue) + [slot]
      ensures forall x :: x in old(next) && x !in old(queue) ==> x in next && next[x] == old(next)[x]
    {
      if tail != NULL {
        ChainFrame(next, freeHead, free, tail, slot);
        ChainAppend(next, head, queue, slot);
        next := next[tail := slot];
      }
      tail := slot;
      if head == NULL {
        head := slot;
      }
      entry := entry + 1;
      queue := queue + [slot];
    }

    // ---- sections ----

    method WaitToSend(t: Tid, msg: Message, wait: bool, ghost urgent: bool)
      requires Ended() && t in phase && free == []
      modifies `senders, `phase
      ensures Ended() && Abs() == Reserve(c, old(Abs()), t, msg, wait, urgent)
    {
      if wait {
        var list := Insert(senders.waiting, t, c.order, c.prio);
        senders := Side(list, senders.woken - {t});
        phase := phase[t := Sending(msg)];
      } else {
        senders := senders.Proceed(t);
        phase := phase[t := Idle(Full)];
      }
    }

    /** Up to the end of the first section of rt_mq_send_wait and rt_mq_urgent; also after each wake-up. */
    method Reserving(t: Tid, msg: Message, wait: bool, urgent: bool)
      requires Lists() && Ended() && Inv(c, Abs()) && t in phase
      modifies `next, `freeHead, `free, `senders, `phase
      ensures Lists() && Ended() && Abs() == Reserve(c, old(Abs()), t, msg, wait, urgent)
    {
      hide Inv, Chain, Distinct;
      FirstFree(c, Abs());
      if freeHead == NULL {
        assert free == [] by { ChainStarts(next, freeHead, free); }
        WaitToSend(t, msg, wait, urgent);
      } else {
        assert free != [] by { ChainStarts(next, freeHead, free); }
        var slot := TakeFree();
        if !urgent {
          EndSlot(slot);
        }
        senders := senders.Proceed(t);
        phase := phase[t := Filling(slot, msg, 0, urgent)];
      }
    }

    lemma ChainStarts(next: map<Slot, int>, p: int, list: seq<Slot>)
      requires Chain(next, p, list)
      ensures p == NULL <==> list == []
    {
    }

    /** The reserved slot will be the last of the queue. */
    method EndSlot(slot: Slot)
      requires Lists() && Ended() && slot !in free && slot !in queue
      modifies `next
      ensures Lists() && Ended() && slot in next && next[slot] == NULL
    {
      ChainFrame(next, freeHead, free, slot, NULL);
      ChainFrame(next, head, queue, slot, NULL);
      next := next[slot := NULL];
    }

    method WaitToReceive(t: Tid, size: nat, wait: bool)
      requires Ended() && t in phase && queue == []
      modifies `receivers, `phase
      ensures Ended() && Abs() == Take(c, old(Abs()), t, size, wait)
    {
      if wait {
        var list := Insert(receivers.waiting, t, c.order, c.prio);
        receivers := Side(list, receivers.woken - {t});
        phase := phase[t := Receiving(size)];
      } else {
        receivers := receivers.Proceed(t);
        phase := phase[t := Idle(TimedOut)];
      }
    }

    /** Up to the end of the first section of rt_mq_recv; also after each wake-up. */
    method Taking(t: Tid, size: nat, wait: bool)
      requires Lists() && Ended() && Inv(c, Abs()) && t in phase
      modifies `head, `tail, `entry, `queue, `receivers, `phase
      ensures InQueue(old(Abs()))
      ensures Lists() && Ended() && Abs() == Take(c, old(Abs()), t, size, wait)
    {
      hide Inv, Chain, Distinct;
      FirstQueued(c, Abs());
      if entry == 0 {
        WaitToReceive(t, size, wait);
      } else {
        var slot := TakeHead();
        receivers := receivers.Proceed(t);
        phase := phase[t := Emptying(slot, [], if size > c.msgSize then c.msgSize else size, data[slot])];
      }
    }

    /** Copy one more byte. */
    method Copying(t: Tid)
      requires Ended() && t in phase && CanCopy(Abs(), phase[t])
      modifies `data, `phase
      ensures Ended() && Abs() == CopyByte(old(Abs()), t)
    {
      match phase[t]
      case Filling(slot, msg, done, urgent) =>
        data := data[slot := data[slot][done := msg[done]]];
        phase := phase[t := Filling(slot, msg, done + 1, urgent)];
      case Emptying(slot, got, len, taken) =>
        phase := phase[t := Emptying(slot, got + [data[slot][|got|]], len, taken)];
    }

    /** The second section of rt_mq_send_wait and rt_mq_urgent. */
    method Linking(t: Tid)
      requires Lists() && Ended() && Inv(c, Abs()) && t in phase && phase[t].Filling?
      modifies `next, `head, `tail, `entry, `queue, `receivers, `phase
      ensures Lists() && Ended() && Abs() == Link(old(Abs()), t)
    {
      hide Inv, Chain, Distinct;
      HeldApart(c, Abs(), t);
      LastApart(c, Abs());
      if phase[t].urgent {
        PushFront(phase[t].slot);
      } else {
        PushBack(phase[t].slot);
      }
      Deliver(t);
    }

    /** Resume a receiver and return. */
    method Deliver(t: Tid)
      requires forall u :: u in phase && u != t && phase[u].Filling? && !phase[u].urgent ==>
               phase[u].slot in next && next[phase[u].slot] == NULL
      modifies `receivers, `phase
      ensures Ended() && phase == old(phase)[t := Idle(Ok)] && receivers == old(receivers).WakeFirst()
    {
      receivers := receivers.WakeFirst();
      phase := phase[t := Idle(Ok)];
    }

    /** The second section of rt_mq_recv. */
    method GivingBack(t: Tid)
      requires Lists() && Ended() && Inv(c, Abs()) && t in phase && phase[t].Emptying?
      modifies `next, `freeHead, `free, `senders, `phase
      ensures Lists() && Ended() && Abs() == GiveBack(old(Abs()), t)
    {
      HeldApart(c, Abs(), t);
      hide Inv, Chain, Enqueue, Distinct;
      PutFree(phase[t].slot);
      senders := senders.WakeFirst();
      phase := phase[t := Idle(Received(phase[t].got))];
    }

    /** The thread timer of a suspended thread. */
    method Expiring(t: Tid)
      requires Ended() && t in phase
      modifies `senders, `receivers, `phase
      ensures Ended() && Abs() == TimeOut(old(Abs()), t)
    {
      senders := senders.Drop(t);
      receivers := receivers.Drop(t);
      phase := phase[t := Idle(TimedOut)];
    }

    /** The first `k` of the slots queued in `s` are given back. */
    ghost predicate Drained(s: State, k: nat)
      reads `next, `head, `tail, `freeHead, `entry, `free, `queue
    {
      Lists() && k <= |s.queue| && queue == s.queue[k..] && free == Reversed(s.queue[..k]) + s.free
    }

    method DrainOne(ghost s: State, ghost k: nat)
      requires Drained(s, k) && k < |s.queue| && SlotsOk(c.maxMsgs, s.free, s.queue, s.phase)
      modifies `next, `head, `tail, `entry, `free, `freeHead, `queue
      ensures Drained(s, k + 1)
      ensures forall x :: x in old(next) && x !in s.queue ==> x in next && next[x] == old(next)[x]
    {
      HeadApart(c.maxMsgs, s, k);
      ReversedLast(s.queue, k);
      hide SlotsOk, Distinct, Chain;
      assert s.queue[k] in s.queue;
      var slot := TakeHead();
      PutFree(slot);
    }

    /** Give all queued slots back, the first one first. */
    method Draining(ghost s: State)
      requires Drained(s, 0) && SlotsOk(c.maxMsgs, s.free, s.queue, s.phase)
      modifies `next, `head, `tail, `entry, `free, `freeHead, `queue
      ensures Lists() && queue == [] && free == Reversed(s.queue) + s.free
      ensures forall x :: x in old(next) && x !in s.queue ==> x in next && next[x] == old(next)[x]
    {
      hide SlotsOk, Chain;
      ghost var k := 0;
      while head != NULL
        invariant Drained(s, k)
        invariant forall x :: x in old(next) && x !in s.queue ==> x in next && next[x] == old(next)[x]
        decreases |s.queue| - k
      {
        assert queue != [] by { ChainStarts(next, head, queue); }
        DrainOne(s, k);
        k := k + 1;
      }
      assert queue == [] by { ChainStarts(next, head, queue); }
      assert s.queue[..k] == s.queue;
    }

    lemma DrainStarts()
      requires Lists()
      ensures Drained(Abs(), 0)
    {
      assert queue[..0] == [] && queue[0..] == queue;
    }

    /** RT_IPC_CMD_RESET. */
    method Resetting()
      requires Lists() && Ended() && Inv(c, Abs())
      modifies this
      ensures Lists() && Ended() && Abs() == Clear(old(Abs()))
    {
      hide Inv, SlotsOk, Drained, Lists;
      ghost var s := Abs();
      DrainStarts();
      InvSlots(c, s);
      ResumeAll();
      Draining(s);
    }

    method ResumeAll()
      modifies `senders, `receivers, `phase
      ensures senders == Side([], old(senders).woken) && receivers == Side([], old(receivers).woken)
      ensures phase == map t | t in old(phase) ::
                if t in old(senders).waiting || t in old(receivers).waiting then Idle(Error) else old(phase)[t]
    {
      phase := map t | t in phase :: if t in senders.waiting || t in receivers.waiting then Idle(Error) else phase[t];
      senders, receivers := Side([], senders.woken), Side([], receivers.woken);
    }

    /** rt_mq_send_wait and rt_mq_urgent refuse what does not fit into a slot. */
    method Calling(t: Tid, msg: Message, wait: bool, urgent: bool)
      requires Lists() && Ended() && Inv(c, Abs()) && t in phase
      modifies `next, `freeHead, `free, `senders, `phase
      ensures Lists() && Ended()
      ensures |msg| <= c.msgSize ==> Abs() == Reserve(c, old(Abs()), t, msg, wait, urgent)
      ensures |msg| > c.msgSize ==> Abs() == old(Abs()).(phase := old(phase)[t := Idle(Error)])
    {
      hide Inv, Chain, Reserve;
      if |msg| > c.msgSize {
        phase := phase[t := Idle(Error)];
      } else {
        Reserving(t, msg, wait, urgent);
      }
    }

    /** Any section of any thread. */
    method Step(e: Event)
      requires Valid() && Enabled(c, Abs(), e)
      modifies this
      ensures Valid() && Abs() == Next(c, old(Abs()), e)
    {
      ghost var s := Abs();
      StepKeeps(c, s, e);
      InQueueBound(c, s);
      hide Inv, Reserve, Take, CopyByte, Link, GiveBack, TimeOut, Clear, Chain, Lists, Ended;
      match e
      case Send(t, msg, wait) => Calling(t, msg, wait, false);
      case Urgent(t, msg) => Calling(t, msg, false, true);
      case Recv(t, size, wait) => Taking(t, size, wait);
      case Retry(t, wait) =>
        if phase[t].Sending? { Reserving(t, phase[t].msg, wait, false); } else { Taking(t, phase[t].size, wait); }
      case Copy(t) => Copying(t);
      case Finish(t) => if phase[t].Filling? { Linking(t); } else { GivingBack(t); }
      case Expire(t) => Expiring(t);
      case Reset(_) => Resetting();
    }
  }

  lemma InvSlots(c: Config, s: State)
    requires Inv(c, s)
    ensures SlotsOk(c.maxMsgs, s.free, s.queue, s.phase)
    ensures forall u, x: Slot :: u in s.phase && x in s.queue ==> x !in Held(s.phase[u])
  {
    LastApart(c, s);
  }
}
