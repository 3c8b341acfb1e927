/** Mutexes with priority inheritance.  Smaller numbers are more urgent priorities. */
module Mutexes {
  import opened Chains
  import opened Waiters

  datatype Owner = Nobody | Thread(t: Tid)
  datatype Result = Taken | TimedOut | Suspended | NotOwner | Released

  const HOLD_MAX := 255
  const NO_PRIORITY := 0xff

  /** The first waiter is at least as urgent as every other one. */
  predicate HeadIsMostUrgent(waiting: seq<Tid>, base: Tid -> nat) {
    forall u :: u in waiting ==> base(waiting[0]) <= base(u)
  }

  class Mutex {
    const order: Order                // the IPC flag
    const base: Tid -> nat            // init_priority: what a thread has while it inherits nothing
    var value: nat
    var owner: Owner
    var originalPriority: nat
    var hold: nat
    var waiting: seq<Tid>             // parent.suspend_thread
    var boosted: map<Tid, nat>        // current_priority, where it may differ from the base

    function Current(t: Tid): nat
      reads `boosted
    {
      if t in boosted then boosted[t] else base(t)
    }

    ghost predicate Valid()
      reads this
    {
      && order != Lifo
      && (value == 1 <==> owner == Nobody) && (owner == Nobody <==> hold == 0) && value <= 1 && hold <= HOLD_MAX
      && (owner == Nobody ==> waiting == [] && originalPriority == NO_PRIORITY)
      && Distinct(waiting) && (owner.Thread? ==> owner.t !in waiting && originalPriority == base(owner.t))
      && (forall t :: owner != Thread(t) ==> Current(t) == base(t))
      && (owner.Thread? ==> Current(owner.t) <= base(owner.t))
      && (order == Priority ==> MostUrgentFirst(waiting, base))
    }

    /** The owner is at least as urgent as every thread that waits for it. */
    ghost predicate Inherits()
      reads `owner, `waiting, `boosted
    {
      owner.Thread? ==> forall u :: u in waiting ==> Current(owner.t) <= base(u)
    }

    constructor (order: Order, base: Tid -> nat)
      requires order != Lifo
      ensures Valid() && Inherits() && owner == Nobody && this.order == order && this.base == base
    {
      this.order, this.base := order, base;
      value, owner, originalPriority, hold, waiting, boosted := 1, Nobody, NO_PRIORITY, 0, [], map[];
    }

    /** RT_THREAD_CTRL_CHANGE_PRIORITY. */
    method ChangePriority(t: Tid, priority: nat)
      modifies `boosted
      ensures Current(t) == priority && forall u :: u != t ==> Current(u) == old(Current(u))
    {
      boosted := boosted[t := priority];
    }

    method Take(t: Tid, wait: bool) returns (r: Result)
      requires Valid() && t !in waiting && (owner == Thread(t) ==> hold < HOLD_MAX)
      modifies this
      ensures Valid() && (old(Inherits()) ==> Inherits())
      ensures old(owner) == Thread(t) ==>
              r == Taken && hold == old(hold) + 1 && owner == Thread(t) && waiting == old(waiting)
      ensures old(owner) == Nobody ==> r == Taken && hold == 1 && owner == Thread(t) && waiting == []
      ensures old(owner) != Thread(t) && old(owner) != Nobody ==>
                owner == old(owner) && hold == old(hold) &&
                if wait then
                  && r == Suspended && waiting == Enqueue(old(waiting), t, order, base)
                  && Joined(old(waiting), t, order, base, waiting)
                else r == TimedOut && waiting == old(waiting)
      // the owner, and no other thread, becomes as urgent as the newcomer if that is more urgent
      ensures forall u :: Current(u) ==
                if r == Suspended && Thread(u) == old(owner) &&
                  base(t) < old(Current(u)) then base(t) else old(Current(u))
    {
      if owner == Thread(t) {
        hold := hold + 1;
        return Taken;
      }
      if value > 0 {
        value := value - 1;
        owner := Thread(t);
        originalPriority := Current(t);
        hold := hold + 1;
        return Taken;
      }
      if !wait {
        return TimedOut;
      }
      if Current(t) < Current(owner.t) {
        ChangePriority(owner.t, Current(t));
      }
      EnqueueDistinct(waiting, t, order, base);
      EnqueueJoins(waiting, t, order, base);
      if order == Priority {
        var n := EnqueueUrgentFirst(waiting, t, base);
      }
      waiting := Insert(waiting, t, order, base);
      return Suspended;
    }

    method Release(t: Tid) returns (r: Result)
      requires Valid()
      modifies this
      ensures Valid()
      ensures old(owner) != Thread(t) ==>
                r == NotOwner && hold == old(hold) && owner == old(owner) && waiting == old(waiting) &&
                  forall u :: Current(u) == old(Current(u))
      ensures old(owner) == Thread(t) && old(hold) > 1 ==>
                r == Released && hold == old(hold) - 1 && owner == old(owner) && waiting == old(waiting) &&
                  forall u :: Current(u) == old(Current(u))
      // the last release gives all boosts back and hands the mutex to the first waiter
      ensures old(owner) == Thread(t) && old(hold) == 1 ==>
                && r == Released && (forall u :: Current(u) == base(u))
                && if old(waiting) == [] then owner == Nobody && waiting == []
                   else owner == Thread(old(waiting)[0]) && hold == 1 && waiting == old(waiting)[1..]
      // inheritance survives a handover exactly when the first waiter was most urgent
      ensures old(owner) == Thread(t) && old(hold) == 1 ==> (Inherits() <==> HeadIsMostUrgent(old(waiting), base))
      ensures !(old(owner) == Thread(t) && old(hold) == 1) && old(Inherits()) ==> Inherits()
      ensures order == Priority && old(Inherits()) ==> Inherits()
    {
      if owner != Thread(t) {
        return NotOwner;
      }
      hold := hold - 1;
      if hold == 0 {
        if originalPriority != Current(t) {
          ChangePriority(t, originalPriority);
        }
        HandOver();
      }
      return Released;
    }

    /** The part of rt_mutex_release after the owner got its own priority back. */
    method HandOver()
      requires order != Lifo && value == 0 && hold == 0 && Distinct(waiting) && forall u :: Current(u) == base(u)
      requires order == Priority ==> MostUrgentFirst(waiting, base)
      modifies `value, `owner, `originalPriority, `hold, `waiting
      ensures Valid() && (Inherits() <==> HeadIsMostUrgent(old(waiting), base)) && (order == Priority ==> Inherits())
      ensures if old(waiting) == [] then owner == Nobody && waiting == []
              else owner == Thread(old(waiting)[0]) && hold == 1 && waiting == old(waiting)[1..]
    {
      if waiting != [] {
        assert waiting == [waiting[0]] + waiting[1..];
        var u := waiting[0];
        owner := Thread(u);
        originalPriority := Current(u);
        hold := hold + 1;
        waiting := waiting[1..];
      } else {
        value := value + 1;
        owner := Nobody;
        originalPriority := NO_PRIORITY;
      }
    }

    /** The thread timer of a waiter: it leaves, and the owner keeps what it inherited. */
    method TimeOut(t: Tid)
      requires Valid() && t in waiting
      modifies `waiting
      ensures Valid() && waiting == Without(old(waiting), t)
      ensures old(Inherits()) ==> Inherits()
    {
      WithoutDistinct(waiting, t);
      if order == Priority {
        WithoutUrgentFirst(waiting, t, base);
      }
      waiting := Without(waiting, t);
    }
  }

  lemma {:induction false} WithoutUrgentFirst(list: seq<Tid>, t: Tid, prio: Tid -> nat)
    requires MostUrgentFirst(list, prio)
    ensures MostUrgentFirst(Without(list, t), prio)
  {
    if list != [] && list[0] != t {
      assert list == [list[0]] + list[1..];
      WithoutUrgentFirst(list[1..], t, prio);
      forall u | u in list[1..]
        ensures prio(list[0]) <= prio(u)
      {
      }
    }
  }

  /** With the first-come-first-served flag a handover can leave a more urgent thread waiting for a less
      urgent owner: the new owner inherits nothing from those who were already waiting. */
  method FifoHandover() returns (m: Mutex)
    ensures fresh(m) && m.Valid() && m.order == Fifo && !m.Inherits()
  {
    m := new Mutex(Fifo, t => if t == 2 then 3 else 5);
    var r := m.Take(0, true);
    r := m.Take(1, true);
    assert m.waiting == [1];
    r := m.Take(2, true);
    assert m.waiting == [1, 2];
    r := m.Release(0);
    assert m.waiting == [2] && m.waiting[0] == 2;
  }
}
