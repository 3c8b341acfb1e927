/** Mailboxes: a ring of values between suspended senders and suspended receivers. */
module Mailboxes {
  import opened Waiters

  datatype Result = Done(value: int) | WouldBlock | Suspended

  class Mailbox {
    const order: Order
    const prio: Tid -> nat
    const pool: array<int>            // msg_pool
    var entry: nat
    var inOffset: nat
    var outOffset: nat
    var senders: Side                 // suspend_sender_thread
    var receivers: Side               // parent.suspend_thread
    ghost var mails: seq<int>         // oldest first

    /** The ring holds the mails from `outOffset` on. */
    ghost predicate Ring()
      reads `entry, `inOffset, `outOffset, `mails, pool
    {
      && entry == |mails| <= pool.Length
      && (if pool.Length == 0 then inOffset == outOffset == 0
          else outOffset < pool.Length && inOffset == Wrap(outOffset + entry))
      && forall i :: 0 <= i < |mails| ==> mails[i] == pool[Wrap(outOffset + i)]
    }

    /** Offsets run over at most once. */
    function Wrap(i: nat): (r: nat)
      requires i < 2 * pool.Length
      ensures r < pool.Length
    {
      if i < pool.Length then i else i - pool.Length
    }

    ghost predicate Valid()
      reads this, pool
    {
      && Ring()
      && senders.Ok() && receivers.Ok()
      && (forall t :: !(senders.Has(t) && receivers.Has(t)))
      && senders.Covers(pool.Length - entry) && receivers.Covers(entry)
    }

    constructor (size: nat, order: Order, prio: Tid -> nat)
      ensures Valid() && pool.Length == size && this.order == order && this.prio == prio
      ensures mails == [] && senders == receivers == Side([], {})
      ensures fresh(pool)
    {
      pool := new int[size];
      entry, inOffset, outOffset := 0, 0, 0;
      senders, receivers := Side([], {}), Side([], {});
      mails := [];
      this.order, this.prio := order, prio;
    }

    method Put(value: int)
      requires Ring() && entry < pool.Length
      modifies `entry, `inOffset, `mails, pool
      ensures Ring() && mails == old(mails) + [value]
    {
      pool[inOffset] := value;
      inOffset := inOffset + 1;
      if inOffset >= pool.Length {
        inOffset := 0;
      }
      entry := entry + 1;
      mails := mails + [value];
    }

    method Get() returns (value: int)
      requires Ring() && entry > 0
      modifies `entry, `outOffset, `mails
      ensures Ring() && [value] + mails == old(mails)
    {
      value := pool[outOffset];
      outOffset := outOffset + 1;
      if outOffset >= pool.Length {
        outOffset := 0;
      }
      entry := entry - 1;
      mails := mails[1..];
    }

    lemma Counted()
      requires Ring()
      ensures entry == |mails| <= pool.Length
    {
    }

    /** The section of rt_mb_send_wait that a running thread goes through, at the call or when resumed. */
    method Send(t: Tid, value: int, wait: bool) returns (r: Result)
      requires Valid() && t !in senders.waiting && !receivers.Has(t)
      modifies this, pool
      ensures Valid()
      ensures if |old(mails)| < pool.Length then
                r == Done(value) && mails == old(mails) + [value] && senders == old(senders).Proceed(t) &&
                  receivers == old(receivers).WakeFirst()
              else
                mails == old(mails) && receivers == old(receivers) &&
                if wait then r == Suspended && senders == old(senders).Suspend(t, order, prio)
                else r == WouldBlock && senders == old(senders).Proceed(t)
      ensures senders.woken == old(senders).woken - {t}
      ensures if r == Suspended then Joined(old(senders).waiting, t, order, prio, senders.waiting)
              else senders.waiting == old(senders).waiting
      ensures r.Done? && old(receivers).waiting != [] ==>
                && receivers.waiting == old(receivers).waiting[1..]
                && receivers.woken == old(receivers).woken + {old(receivers).waiting[0]}
      ensures !r.Done? || old(receivers).waiting == [] ==> receivers == old(receivers)
    {
      hide Ring, Enqueue, Joined, InsertByPriority, Side.Covers, Side.Ok;
      Counted();
      if entry == pool.Length {
        if !wait {
          LeaveOk(senders, t);
          senders := senders.Proceed(t);
          return WouldBlock;
        }
        SuspendOk(senders, t, order, prio);
        EnqueueJoins(senders.waiting, t, order, prio);
        var list := Insert(senders.waiting, t, order, prio);
        senders := Side(list, senders.woken - {t});
        return Suspended;
      }
      ProceedOk(senders, t, pool.Length - entry - 1);
      WakeOk(receivers, entry);
      Put(value);
      senders := senders.Proceed(t);
      receivers := receivers.WakeFirst();
      return Done(value);
    }

    /** The section of rt_mb_recv that a running thread goes through, at the call or when resumed. */
    method Recv(t: Tid, wait: bool) returns (r: Result)
      requires Valid() && t !in receivers.waiting && !senders.Has(t)
      modifies this
      ensures Valid()
      ensures if old(mails) != [] then
                r.Done? && [r.value] + mails == old(mails) && receivers == old(receivers).Proceed(t) &&
                  senders == old(senders).WakeFirst()
              else
                mails == [] && senders == old(senders) &&
                if wait then r == Suspended && receivers == old(receivers).Suspend(t, order, prio)
                else r == WouldBlock && receivers == old(receivers).Proceed(t)
      ensures receivers.woken == old(receivers).woken - {t}
      ensures if r == Suspended then Joined(old(receivers).waiting, t, order, prio, receivers.waiting)
              else receivers.waiting == old(receivers).waiting
      ensures r.Done? && old(senders).waiting != [] ==>
                && senders.waiting == old(senders).waiting[1..]
                && senders.woken == old(senders).woken + {old(senders).waiting[0]}
      ensures !r.Done? || old(senders).waiting == [] ==> senders == old(senders)
    {
      hide Ring, Enqueue, Joined, InsertByPriority, Side.Covers, Side.Ok;
      Counted();
      if entry == 0 {
        if !wait {
          LeaveOk(receivers, t);
          receivers := receivers.Proceed(t);
          return WouldBlock;
        }
        SuspendOk(receivers, t, order, prio);
        EnqueueJoins(receivers.waiting, t, order, prio);
        var list := Insert(receivers.waiting, t, order, prio);
        receivers := Side(list, receivers.woken - {t});
        return Suspended;
      }
      ProceedOk(receivers, t, entry - 1);
      WakeOk(senders, pool.Length - entry);
      var value := Get();
      receivers := receivers.Proceed(t);
      senders := senders.WakeFirst();
      return Done(value);
    }

    /** The thread timer of a suspended thread. */
    method TimeOut(t: Tid)
      requires Valid() && (t in senders.waiting || t in receivers.waiting)
      modifies `senders, `receivers
      ensures Valid() && senders == old(senders).Drop(t) && receivers == old(receivers).Drop(t)
      ensures forall u :: senders.Has(u) || receivers.Has(u) <==> old(senders.Has(u) || receivers.Has(u)) && u != t
    {
      assert senders.Has(t) || receivers.Has(t);
      if t in senders.waiting {
        DropOk(senders, t, pool.Length - entry);
      } else {
        DropOk(receivers, t, entry);
      }
      senders, receivers := senders.Drop(t), receivers.Drop(t);
    }

    /** RT_IPC_CMD_RESET. */
    method Reset()
      requires Valid()
      modifies `entry, `inOffset, `outOffset, `senders, `receivers, `mails
      ensures Valid() && mails == []
      ensures senders == Side([], old(senders).woken) && receivers == Side([], old(receivers).woken)
    {
      assert forall t :: Side([], senders.woken).Has(t) ==> senders.Has(t);
      assert forall t :: Side([], receivers.woken).Has(t) ==> receivers.Has(t);
      senders, receivers := Side([], senders.woken), Side([], receivers.woken);
      entry, inOffset, outOffset, mails := 0, 0, 0, [];
    }

    /** When all resumed threads have run, senders are suspended only at a full mailbox and receivers only
        at an empty one. */
    lemma Quiet()
      requires Valid() && senders.woken == {} && receivers.woken == {}
      ensures senders.waiting != [] ==> |mails| == pool.Length
      ensures receivers.waiting != [] ==> mails == []
      ensures pool.Length > 0 ==> senders.waiting == [] || receivers.waiting == []
    {
    }
  }
}
