/** Pools of fixed-size blocks: a chain of free blocks and the threads suspended for one. */
module MemPools {
  import opened Chains
  import opened Waiters

  datatype Result = Block(block: nat) | Nothing | Suspended

  lemma {:induction false} ChainOfSteps(link: map<nat, int>, k: nat, n: nat)
    requires k < n && forall i :: k <= i < n ==> i in link && link[i] == if i == n - 1 then NULL else i + 1
    ensures Chain(link, k, seq(n - k, i => k + i))
    decreases n - k
  {
    var s := seq(n - k, i => k + i);
    assert k in link;
    if k < n - 1 {
      ChainOfSteps(link, k + 1, n);
      assert s[1..] == seq(n - (k + 1), i => k + 1 + i);
    } else {
      assert s[1..] == [];
    }
  }

  class MemPool {
    const total: nat                  // block_total_count
    var link: map<nat, int>           // first word of a free block: the next free block
    var list: int                     // block_list
    var freeCount: nat                // block_free_count
    var allocators: Side              // suspend_thread
    ghost var free: seq<nat>

    ghost predicate Valid()
      reads this
    {
      && Chain(link, list, free) && freeCount == |free|
      && Distinct(free) && (forall b :: b in free ==> b < total)
      && allocators.Ok() && allocators.Covers(freeCount)
    }

    /** Blocks handed out and not yet freed. */
    ghost predicate Live(b: nat)
      reads `free
    {
      b < total && b !in free
    }

    constructor (total: nat)
      requires total > 0
      ensures Valid() && this.total == total && allocators == Side([], {})
      ensures free == seq(total, i => i)
    {
      this.total := total;
      link, list, freeCount, allocators := map[], 0, total, Side([], {});
      free := seq(total, i => i);
      new;
      for offset := 0 to total
        invariant forall i :: 0 <= i < offset ==> i in link && link[i] == i + 1
        invariant free == seq(total, i => i) && list == 0 && freeCount == total == this.total &&
                  allocators == Side([], {})
      {
        link := link[offset := offset + 1];
      }
      link := link[total - 1 := NULL];
      ChainOfSteps(link, 0, total);
      assert free == seq(total - 0, i => 0 + i);
    }

    /** The section of rt_mp_alloc that a running thread goes through, at the call or when resumed. */
    method Alloc(t: Tid, wait: bool) returns (r: Result)
      requires Valid() && t !in allocators.waiting
      modifies this
      ensures Valid()
      ensures if old(free) != [] then
                r == Block(old(free)[0]) && free == old(free)[1..] && old(free)[0] !in free &&
                  allocators == old(allocators).Proceed(t)
              else
                free == [] && if wait then r == Suspended && allocators == old(allocators).Suspend(t, Lifo, _ => 0)
                else r == Nothing && allocators == old(allocators).Proceed(t)
      ensures allocators.woken == old(allocators).woken - {t}
      ensures allocators.waiting == if r == Suspended then [t] + old(allocators).waiting else old(allocators).waiting
    {
      if freeCount == 0 {
        if !wait {
          LeaveOk(allocators, t);
          allocators := allocators.Proceed(t);
          return Nothing;
        }
        SuspendOk(allocators, t, Lifo, _ => 0);
        allocators := Side([t] + allocators.waiting, allocators.woken - {t});
        return Suspended;
      }
      ProceedOk(allocators, t, freeCount - 1);
      freeCount := freeCount - 1;
      var block := list;
      list := link[block];
      allocators := allocators.Proceed(t);
      assert forall b :: b in free[1..] ==> b in free;
      free := free[1..];
      return Block(block);
    }

    /** rt_mp_free: the block becomes the first free one, and the thread suspended last is resumed. */
    method Free(b: nat)
      requires Valid() && Live(b)
      modifies this
      ensures Valid() && free == [b] + old(free) && allocators == old(allocators).WakeFirst()
      ensures old(allocators).waiting == [] ==> allocators == old(allocators)
      ensures old(allocators).waiting != [] ==>
                && allocators.waiting == old(allocators).waiting[1..]
                && allocators.woken == old(allocators).woken + {old(allocators).waiting[0]}
    {
      WakeOk(allocators, freeCount);
      freeCount := freeCount + 1;
      ChainFrame(link, list, free, b, list);
      link := link[b := list];
      list := b;
      free := [b] + free;
      allocators := allocators.WakeFirst();
    }

    /** The thread timer of a suspended thread. */
    method TimeOut(t: Tid)
      requires Valid() && t in allocators.waiting
      modifies `allocators
      ensures Valid() && allocators == old(allocators).Drop(t)
    {
      DropOk(allocators, t, freeCount);
      allocators := allocators.Drop(t);
    }

    /** When all resumed threads have run, threads are suspended only while no block is free. */
    lemma Quiet()
      requires Valid() && allocators.woken == {}
      ensures allocators.waiting != [] ==> free == []
    {
    }
  }
}
