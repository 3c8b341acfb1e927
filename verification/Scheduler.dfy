/** The ready queues, their bitmap index of one or two levels, and the choice of the next thread to run.
    Words of bits are modelled as the set of the numbers of their one bits. */
module Schedulers {
  import opened BitTables
  import opened Chains
  import opened Waiters

  datatype Stat = Init | Ready | Suspended | Running | Closed

  const BITS_OF_BYTE: set<nat> := {0, 1, 2, 3, 4, 5, 6, 7}

  /** The byte of a word that starts at bit `base`. */
  function Byte(word: set<nat>, base: nat): set<nat> {
    set b | b in BITS_OF_BYTE && b + base in word
  }

  /** __rt_ffs: one more than the lowest bit of a word, zero if there is none. */
  method FindFirstSet(word: set<nat>) returns (r: nat)
    requires forall b :: b in word ==> b < 32
    ensures word == {} ==> r == 0
    ensures word != {} ==> r > 0 && r - 1 in word && forall b :: b in word ==> r - 1 <= b
  {
    hide Byte, Value, LookUp;
    if word == {} {
      return 0;
    }
    NextByte(word, 0);
    if Byte(word, 0) != {} {
      return LookUp(Value(Byte(word, 0))) + 1;
    }
    NextByte(word, 8);
    if Byte(word, 8) != {} {
      return LookUp(Value(Byte(word, 8))) + 9;
    }
    NextByte(word, 16);
    if Byte(word, 16) != {} {
      return LookUp(Value(Byte(word, 16))) + 17;
    }
    NextByte(word, 24);
    return LookUp(Value(Byte(word, 24))) + 25;
  }

  lemma InByte(word: set<nat>, base: nat, c: nat)
    ensures c in Byte(word, base) <==> c < 8 && c + base in word
  {
  }

  /** The lowest bit is in the byte at `base`, or all bits are above it. */
  lemma NextByte(word: set<nat>, base: nat)
    requires forall b :: b in word ==> base <= b
    ensures Byte(word, base) == {} ==> forall b :: b in word ==> base + 8 <= b
    ensures Byte(word, base) != {} ==> exists b :: 0 <= b < 8 && b in Byte(word, base)
    ensures Byte(word, base) != {} ==> var l := LookUp(Value(Byte(word, base))) + base;
            l in word && forall b :: b in word ==> l <= b
  {
    hide Byte, Value, LookUp;
    var byte := Byte(word, base);
    if byte == {} {
      forall b | b in word
        ensures base + 8 <= b
      {
        InByte(word, base, b - base);
      }
    } else {
      var c :| c in byte;
      InByte(word, base, c);
      LookUpIsLowest(byte);
      var l := LookUp(Value(byte));
      InByte(word, base, l);
      forall b | b in word
        ensures l + base <= b
      {
        InByte(word, base, b - base);
      }
    }
  }

  /** The first non-empty queue from `p` on. */
  function FirstBusy(queues: seq<seq<Tid>>, p: nat): (r: nat)
    requires p <= |queues|
    ensures p <= r <= |queues|
    decreases |queues| - p
  {
    if p == |queues| || queues[p] != [] then p else FirstBusy(queues, p + 1)
  }

  lemma {:induction false} FirstBusyIs(queues: seq<seq<Tid>>, p: nat)
    requires p <= |queues|
    ensures forall q :: p <= q < FirstBusy(queues, p) ==> queues[q] == []
    ensures FirstBusy(queues, p) < |queues| ==> queues[FirstBusy(queues, p)] != []
    decreases |queues| - p
  {
    if p < |queues| && queues[p] == [] {
      FirstBusyIs(queues, p + 1);
    }
  }

  ghost predicate NoneMoreUrgent(stat: map<Tid, Stat>, prio: map<Tid, nat>, p: nat)
    requires stat.Keys == prio.Keys
  {
    forall t :: t in stat && stat[t] == Ready ==> p <= prio[t]
  }

  ghost predicate StatsFit(queued: set<Tid>, stat: map<Tid, Stat>, current: Tid) {
    && current in stat && queued <= stat.Keys
    && (forall t :: t in stat ==> (t in queued <==> stat[t] == Ready))
    && stat[current] != Ready && forall t :: t in stat && stat[t] == Running ==> t == current
  }

  /** The statuses after a switch to a thread of priority `p`, which no READY thread undercuts. */
  lemma SwitchFits(queued: set<Tid>, stat: map<Tid, Stat>, prio: map<Tid, nat>, from: Tid, to: Tid, p: nat)
    requires StatsFit(queued, stat, from) && to in queued && stat.Keys == prio.Keys && NoneMoreUrgent(stat, prio, p)
    ensures stat[from] == Running && p <= prio[from] ==>
              var stat' := stat[from := Ready][to := Running];
              stat'.Keys == prio.Keys && StatsFit(queued + {from} - {to}, stat', to) && NoneMoreUrgent(stat', prio, p)
    ensures stat[from] != Running ==>
              var stat' := stat[to := Running];
              stat'.Keys == prio.Keys && StatsFit(queued - {to}, stat', to) && NoneMoreUrgent(stat', prio, p)
  {
  }

  class Scheduler {
    const wide: bool                  // more than 32 priorities: the index has two levels
    const prios: nat                  // RT_THREAD_PRIORITY_MAX
    var queues: seq<seq<Tid>>         // rt_thread_priority_table
    var group: set<nat>               // rt_thread_ready_priority_group
    var table: seq<set<nat>>          // rt_thread_ready_table
    var prio: map<Tid, nat>           // current_priority
    var stat: map<Tid, Stat>
    var yielding: set<Tid>            // RT_THREAD_STAT_YIELD
    var slice: map<Tid, nat>          // init_tick
    var remaining: map<Tid, nat>      // remaining_tick
    var current: Tid
    var lockNest: nat

    // ---- the bitmap index ----

    ghost predicate IndexShape()
      reads `queues, `group, `table
    {
      && |queues| == prios
      && (if wide then 32 < prios <= 256 && |table| == 32 && (forall n :: 0 <= n < 32 ==>
        (n in group <==> table[n] != {}))
                       && (forall n, b :: 0 <= n < 32 && b in table[n] ==> b < 8 && 8 * n + b < prios)
          else 0 < prios <= 32)
      && forall n :: n in group ==> n < if wide then 32 else prios
    }

    /** Bit `p` of the bitmap. */
    predicate Marked(p: nat)
      requires wide ==> |table| == 32 && p < 256
      reads `group, `table
    {
      if wide then p % 8 in table[p / 8] else p in group
    }

    /** Exactly the priorities with a waiting thread are marked. */
    ghost predicate Index()
      reads `queues, `group, `table
    {
      IndexShape() && forall p :: 0 <= p < prios ==> (Marked(p) <==> queues[p] != [])
    }

    /** number_mask and high_mask of a priority are set. */
    method Mark(p: nat)
      requires IndexShape() && p < prios
      modifies `group, `table
      ensures IndexShape() && forall q :: 0 <= q < prios ==> (Marked(q) <==> old(Marked(q)) || q == p)
    {
      if wide {
        table := table[p / 8 := table[p / 8] + {p % 8}];
        group := group + {p / 8};
      } else {
        group := group + {p};
      }
    }

    method Unmark(p: nat)
      requires IndexShape() && p < prios
      modifies `group, `table
      ensures IndexShape() && forall q :: 0 <= q < prios ==> (Marked(q) <==> old(Marked(q)) && q != p)
    {
      if wide {
        table := table[p / 8 := table[p / 8] - {p % 8}];
        if table[p / 8] == {} {
          group := group - {p / 8};
        }
      } else {
        group := group - {p};
      }
    }

    /** _get_highest_priority_thread: the most urgent priority that is marked. */
    method Highest() returns (p: nat)
      requires IndexShape() && group != {} && (!wide ==> forall n :: n in group ==> n < prios)
      ensures p < prios && Marked(p) && forall q :: 0 <= q < p ==> !Marked(q)
    {
      var n := FindFirstSet(group);
      if wide {
        var number := n - 1;
        assert forall b :: b in table[number] ==> b < 8;
        var bit := FindFirstSet(table[number]);
        p := number * 8 + bit - 1;
        assert p / 8 == number && p % 8 == bit - 1;
        forall q | 0 <= q < p
          ensures !Marked(q)
        {
          assert q / 8 in group <==> table[q / 8] != {};
        }
      } else {
        p := n - 1;
      }
    }

    // ---- the queues ----

    ghost predicate Queued(t: Tid)
      requires |queues| == prios
      reads `queues, `prio
    {
      t in prio && prio[t] < prios && t in queues[prio[t]]
    }

    ghost function QueuedThreads(): set<Tid>
      requires |queues| == prios
      reads `queues, `prio
    {
      set t | t in prio && Queued(t)
    }

    /** Each queue lists threads of its own priority, each once. */
    ghost predicate QueuesOk()
      reads `queues, `group, `table, `prio
    {
      && Index() && |queues| == prios
      && (forall t :: t in prio ==> prio[t] < prios)
      && forall p :: 0 <= p < prios ==> Distinct(queues[p]) && forall t :: t in queues[p] ==> t in prio && prio[t] == p
    }

    /** The queued threads are the READY ones; only the current thread can be RUNNING. */
    ghost predicate StatsOk()
      requires |queues| == prios
      reads `queues, `prio, `stat, `current
    {
      stat.Keys == prio.Keys && StatsFit(QueuedThreads(), stat, current)
    }

    ghost predicate Valid()
      reads this
    {
      && |queues| == prios && QueuesOk() && StatsOk()
      && slice.Keys == prio.Keys && SlicesOk()
    }

    ghost predicate SlicesOk()
      reads `slice, `remaining
    {
      slice.Keys == remaining.Keys && forall t :: t in slice ==> slice[t] > 0 && remaining[t] > 0
    }

    /** Append to the queue of its priority and mark it. */
    method PutLast(t: Tid)
      requires QueuesOk() && t in prio && t !in QueuedThreads()
      modifies `queues, `group, `table
      ensures QueuesOk() && queues == old(queues)[prio[t] := old(queues)[prio[t]] + [t]]
      ensures QueuedThreads() == old(QueuedThreads()) + {t}
    {
      queues := queues[prio[t] := queues[prio[t]] + [t]];
      Mark(prio[t]);
    }

    /** rt_schedule_remove_thread. */
    method RemoveThread(t: Tid)
      requires QueuesOk() && t in prio
      modifies `queues, `group, `table
      ensures QueuesOk() && queues == old(queues)[prio[t] := Without(old(queues)[prio[t]], t)]
      ensures QueuedThreads() == old(QueuedThreads()) - {t}
    {
      var p := prio[t];
      WithoutDistinct(queues[p], t);
      queues := queues[p := Without(queues[p], t)];
      if queues[p] == [] {
        Unmark(p);
      }
    }

    /** rt_schedule_insert_thread. */
    method InsertThread(t: Tid)
      requires QueuesOk() && t in prio && t in stat && t !in QueuedThreads()
      modifies `queues, `group, `table, `stat
      ensures QueuesOk()
      ensures t == current ==> queues == old(queues) && stat == old(stat)[t := Running]
      ensures t != current ==>
              queues == old(queues)[prio[t] := old(queues)[prio[t]] + [t]] && stat == old(stat)[t := Ready]
      ensures QueuedThreads() == if t == current then old(QueuedThreads()) else old(QueuedThreads()) + {t}
    {
      if t == current {
        stat := stat[t := Running];
        return;
      }
      stat := stat[t := Ready];
      PutLast(t);
    }

    /** Returns false, and does nothing, unless the thread is READY or RUNNING. */
    method Suspend(t: Tid) returns (ok: bool)
      requires Valid() && t in stat
      modifies `queues, `group, `table, `stat
      ensures Valid() && ok == (old(stat)[t] == Ready || old(stat)[t] == Running)
      ensures stat == if ok then old(stat)[t := Suspended] else old(stat)
      ensures ok ==> queues == old(queues)[prio[t] := Without(old(queues)[prio[t]], t)]
      ensures !ok ==> queues == old(queues)
    {
      hide QueuesOk, QueuedThreads, Without;
      ok := stat[t] == Ready || stat[t] == Running;
      if ok {
        RemoveThread(t);
        stat := stat[t := Suspended];
      }
    }

    /** Returns false, and does nothing, unless the thread is suspended. */
    method Resume(t: Tid) returns (ok: bool)
      requires Valid() && t in stat
      modifies `queues, `group, `table, `stat
      ensures Valid() && ok == (old(stat)[t] == Suspended)
      ensures ok ==> stat == old(stat)[t := if t == current then Running else Ready]
      ensures ok && t != current ==> queues == old(queues)[prio[t] := old(queues)[prio[t]] + [t]]
      ensures !ok ==> stat == old(stat)
      ensures !ok || t == current ==> queues == old(queues)
    {
      hide QueuesOk, QueuedThreads;
      ok := stat[t] == Suspended;
      if ok {
        InsertThread(t);
      }
    }

    /** RT_THREAD_CTRL_CHANGE_PRIORITY: a READY thread moves to the tail of the other queue. */
    method ChangePriority(t: Tid, p: nat)
      requires Valid() && t in stat && p < prios
      modifies `queues, `group, `table, `stat, `prio
      ensures Valid() && stat == old(stat) && prio == old(prio)[t := p]
      ensures stat[t] == Ready ==> var q := old(queues)[old(prio)[t] := Without(old(queues)[old(prio)[t]], t)];
              queues == q[p := q[p] + [t]]
      ensures stat[t] != Ready ==> queues == old(queues)
    {
      hide QueuesOk, QueuedThreads, StatsFit, Without;
      if stat[t] == Ready {
        assert t != current && t in QueuedThreads() by { ReadyQueued(t); }
        Requeue(t, p);
      } else {
        assert t !in QueuedThreads() by { ReadyQueued(t); }
        SetPriority(t, p);
      }
    }

    lemma ReadyQueued(t: Tid)
      requires Valid() && t in stat
      ensures t in QueuedThreads() <==> stat[t] == Ready
      ensures stat[t] == Ready ==> t != current
    {
      hide QueuesOk, QueuedThreads;
    }

    method Requeue(t: Tid, p: nat)
      requires QueuesOk() && t in prio && t in stat && stat[t] == Ready && t != current && t in QueuedThreads() &&
               p < prios
      modifies `queues, `group, `table, `stat, `prio
      ensures QueuesOk() && stat == old(stat) && prio == old(prio)[t := p] && QueuedThreads() == old(QueuedThreads())
      ensures |queues| == prios && old(prio)[t] < prios == |old(queues)|
      ensures var q := old(queues)[old(prio)[t] := Without(old(queues)[old(prio)[t]], t)]; queues == q[p := q[p] + [t]]
    {
      PriorityBound(t);
      hide QueuesOk, QueuedThreads, Without;
      RemoveThread(t);
      SetPriority(t, p);
      InsertThread(t);
      assert stat == old(stat);
      assert |queues| == prios by { PriorityBound(t); }
    }

    method SetPriority(t: Tid, p: nat)
      requires QueuesOk() && t !in QueuedThreads() && p < prios
      modifies `prio
      ensures QueuesOk() && prio == old(prio)[t := p] && QueuedThreads() == old(QueuedThreads())
    {
      hide Index;
      assert forall q :: 0 <= q < prios && t in queues[q] ==> Queued(t);
      prio := prio[t := p];
    }

    // ---- rt_schedule ----

    /** No READY thread is more urgent than the one that runs. */
    ghost predicate MostUrgentRuns()
      requires Valid()
      reads this
    {
      stat[current] == Running ==> NoneMoreUrgent(stat, prio, prio[current])
    }

    /** The running thread keeps the processor against the threads of priority `h`. */
    static predicate Keeps(stat: map<Tid, Stat>, prio: map<Tid, nat>, t: Tid, yielding: set<Tid>, h: nat) {
      t in stat && t in prio && stat[t] == Running && (prio[t] < h || (prio[t] == h && t !in yielding))
    }

    /** rt_schedule.  Without a READY thread, or under the lock, nothing changes.  A running thread gives
        way to a READY one that is more urgent, and to a peer exactly when it has asked to yield; a thread
        that no longer runs gives way to any.  The one that takes over is the head of the queue of the most
        urgent READY threads. */
    method Schedule()
      requires Valid()
      modifies `queues, `group, `table, `stat, `current, `yielding
      ensures Valid()
      ensures lockNest == 0 ==> MostUrgentRuns()
      ensures lockNest != 0 || (forall t :: t in old(stat) ==> old(stat)[t] != Ready) ==>
                Same(old(queues), old(stat), old(current), old(yielding))
      ensures old(stat)[old(current)] == Running && old(current) !in old(yielding) &&
              (forall t :: t in old(stat) && old(stat)[t] == Ready ==> prio[old(current)] <= prio[t]) ==>
                Same(old(queues), old(stat), old(current), old(yielding))
      ensures old(stat)[old(current)] == Running &&
              (forall t :: t in old(stat) && old(stat)[t] == Ready ==> prio[old(current)] < prio[t]) ==>
                Same(old(queues), old(stat), old(current), old(yielding))
      ensures lockNest == 0 &&
              (exists t :: t in old(stat) && old(stat)[t] == Ready &&
                  (old(stat)[old(current)] != Running || prio[t] < prio[old(current)] ||
                    (prio[t] == prio[old(current)] && old(current) in old(yielding)))) ==>
                && SwitchedToHead(old(queues), old(stat), old(current), old(yielding))
                && forall t :: t in old(stat) && old(stat)[t] == Ready ==> prio[current] <= prio[t]
    {
      hide *;
      ghost var queues0, stat0, from, yielding0 := queues, stat, current, yielding;
      ghost var h := FirstBusy(queues, 0);
      Outlook();
      Dispatch();
      Decided(queues0, stat0, from, yielding0, h);
    }

    /** What the first non-empty queue says about the READY threads. */
    lemma Outlook()
      requires Valid()
      ensures current in stat && stat.Keys == prio.Keys
      ensures var h := FirstBusy(queues, 0);
        && h <= prios
        && (h == prios ==> forall t :: t in stat ==> stat[t] != Ready)
        && (h < prios ==> NoneMoreUrgent(stat, prio, h) && HeadIsReady(queues, stat, prio, h))
    {
      hide Index, StatsFit, QueuesOk;
      QueuesShape();
      FirstBusyIs(queues, 0);
      ReadyAreQueued();
      var h := FirstBusy(queues, 0);
      if h < prios {
        HeadReady(h);
        HighestIsLeast(h);
      }
    }

    static ghost predicate HeadIsReady(queues: seq<seq<Tid>>, stat: map<Tid, Stat>, prio: map<Tid, nat>, h: nat) {
      && h < |queues| && queues[h] != []
      && var t := queues[h][0];
      t in stat && t in prio && stat[t] == Ready && prio[t] == h
    }

    lemma QueuesShape()
      requires Valid()
      ensures |queues| == prios && current in stat && stat.Keys == prio.Keys
    {
    }

    lemma ReadyAreQueued()
      requires Valid()
      ensures forall t :: t in stat && stat[t] == Ready ==> prio[t] < prios && t in queues[prio[t]]
    {
      hide Index;
      forall t | t in stat && stat[t] == Ready
        ensures prio[t] < prios && t in queues[prio[t]]
      {
        assert t in QueuedThreads();
      }
    }

    lemma Decided(queues0: seq<seq<Tid>>, stat0: map<Tid, Stat>, from: Tid, yielding0: set<Tid>, h: nat)
      requires from in stat0 && stat0.Keys == prio.Keys && h <= prios
      requires h == prios ==> forall t :: t in stat0 ==> stat0[t] != Ready
      requires h < prios ==> NoneMoreUrgent(stat0, prio, h) && HeadIsReady(queues0, stat0, prio, h)
      requires if lockNest != 0 || h == prios || Keeps(stat0, prio, from, yielding0, h)
              then Same(queues0, stat0, from, yielding0) else Switched(queues0, stat0, from, yielding0, h)
      ensures lockNest != 0 || (forall t :: t in stat0 ==> stat0[t] != Ready) ==>
                Same(queues0, stat0, from, yielding0)
      ensures stat0[from] == Running && from !in yielding0 &&
              (forall t :: t in stat0 && stat0[t] == Ready ==> prio[from] <= prio[t]) ==>
                Same(queues0, stat0, from, yielding0)
      ensures stat0[from] == Running && (forall t :: t in stat0 && stat0[t] == Ready ==> prio[from] < prio[t]) ==>
                Same(queues0, stat0, from, yielding0)
      ensures lockNest == 0 &&
              (exists t :: t in stat0 && stat0[t] == Ready &&
                  (stat0[from] != Running || prio[t] < prio[from] || (prio[t] == prio[from] && from in yielding0))) ==>
                && SwitchedToHead(queues0, stat0, from, yielding0)
                && forall t :: t in stat0 && stat0[t] == Ready ==> prio[current] <= prio[t]
    {
    }

    method Dispatch()
      requires Valid()
      modifies `queues, `group, `table, `stat, `current, `yielding
      ensures Valid()
      ensures lockNest == 0 ==> MostUrgentRuns()
      ensures if lockNest != 0 || old(FirstBusy(queues, 0)) == prios ||
                 Keeps(old(stat), prio, old(current), old(yielding), old(FirstBusy(queues, 0)))
              then Same(old(queues), old(stat), old(current), old(yielding))
              else Switched(old(queues), old(stat), old(current), old(yielding), old(FirstBusy(queues, 0)))
    {
      hide *;
      Unchanged();
      if lockNest == 0 {
        var any := AnyReady();
        if any {
          var h := Choose();
          if Keeps(stat, prio, current, yielding, h) {
            KeepRunning(h);
          } else {
            SwitchTo(h);
          }
        }
      }
    }

    lemma Unchanged()
      ensures Same(queues, stat, current, yielding)
    {
    }

    /** Some priority is marked. */
    method AnyReady() returns (any: bool)
      requires Valid()
      ensures any <==> FirstBusy(queues, 0) != prios
      ensures !any ==> MostUrgentRuns()
    {
      GroupEmpty();
      FirstBusyIs(queues, 0);
      any := group != {};
      if !any {
        hide Index;
        assert forall t :: t in stat ==> t !in QueuedThreads();
      }
    }

    method KeepRunning(h: nat)
      requires Valid() && h == FirstBusy(queues, 0) < prios && Keeps(stat, prio, current, yielding, h)
      modifies `queues, `group, `table, `stat
      ensures Valid() && MostUrgentRuns() && Same(old(queues), old(stat), old(current), old(yielding))
    {
      KeptMostUrgent(h);
      hide QueuesOk, QueuedThreads, Without, StatsFit, NoneMoreUrgent, FirstBusy;
      ghost var queues0, stat0 := queues, stat;
      Refresh();
      KeptDone(queues0, stat0);
    }

    method Refresh()
      requires QueuesOk() && current in prio
      modifies `queues, `group, `table, `stat
      ensures QueuesOk() && queues == old(queues)[prio[current] := Without(old(queues)[prio[current]], current)]
      ensures QueuedThreads() == old(QueuedThreads()) - {current} && stat == old(stat)[current := Running]
    {
      hide QueuesOk, QueuedThreads, Without;
      RemoveThread(current);
      stat := stat[current := Running];
    }

    static lemma SwitchQueues(qs: seq<seq<Tid>>, h: nat, f: nat, from: Tid)
      requires h < |qs| && f < |qs| && qs[h] != []
      ensures var q, q1 := qs[h := qs[h][1..]], qs[f := qs[f] + [from]];
        q1[h] != [] && q1[h := Without(q1[h], qs[h][0])] == q[f := q[f] + [from]]
    {
      if f == h {
        assert (qs[h] + [from])[1..] == qs[h][1..] + [from];
      }
    }

    /** The first level of the index is empty exactly when all queues are. */
    lemma GroupEmpty()
      requires QueuesOk()
      ensures group == {} <==> FirstBusy(queues, 0) == prios
    {
      FirstBusyIs(queues, 0);
      if wide {
        forall n | n in group
          ensures exists p :: 0 <= p < prios && queues[p] != []
        {
          var b :| b in table[n];
          var p := n * 8 + b;
          assert p / 8 == n && p % 8 == b && Marked(p);
        }
        forall p | 0 <= p < prios && queues[p] != []
          ensures group != {}
        {
          assert Marked(p);
          assert p / 8 in group;
        }
      } else {
        forall n | n in group
          ensures exists p :: 0 <= p < prios && queues[p] != []
        {
          assert Marked(n);
        }
        forall p | 0 <= p < prios && queues[p] != []
          ensures group != {}
        {
          assert Marked(p);
        }
      }
    }

    method Choose() returns (h: nat)
      requires Valid() && FirstBusy(queues, 0) != prios
      ensures h == FirstBusy(queues, 0) < prios
    {
      GroupEmpty();
      h := Highest();
      FirstBusyIs(queues, 0);
      var f := FirstBusy(queues, 0);
      assert Marked(h) && queues[h] != [];
      assert f < h ==> !Marked(f);
    }

    lemma KeptMostUrgent(h: nat)
      requires Valid() && h == FirstBusy(queues, 0) < prios && Keeps(stat, prio, current, yielding, h)
      ensures MostUrgentRuns() && stat[current] == Running
      ensures queues[prio[current] := Without(queues[prio[current]], current)] == queues &&
              QueuedThreads() - {current} == QueuedThreads()
    {
      hide Index, Without, FirstBusy;
      HighestIsLeast(h);
      assert current !in QueuedThreads();
    }

    /** The head of a queue is READY. */
    lemma HeadReady(p: nat)
      requires Valid() && p < prios && queues[p] != []
      ensures var t := queues[p][0];
              t in stat && t in prio && prio[t] == p && t in QueuedThreads() && stat[t] == Ready && t != current
      ensures Without(queues[p], queues[p][0]) == queues[p][1..]
    {
      hide Index;
      assert queues[p][0] in queues[p];
      assert queues[p][0] in QueuedThreads();
    }

    lemma HighestIsLeast(h: nat)
      requires Valid() && h == FirstBusy(queues, 0) < prios
      ensures stat.Keys == prio.Keys && NoneMoreUrgent(stat, prio, h)
    {
      hide Index;
      FirstBusyIs(queues, 0);
      forall t | t in stat && stat[t] == Ready
        ensures h <= prio[t]
      {
        assert t in QueuedThreads();
      }
    }

    method SwitchTo(h: nat)
      requires Valid() && h == FirstBusy(queues, 0) < prios && !Keeps(stat, prio, current, yielding, h)
      modifies `queues, `group, `table, `stat, `current, `yielding
      ensures Valid() && MostUrgentRuns()
      ensures Switched(old(queues), old(stat), old(current), old(yielding), h)
    {
      hide *;
      SwitchReady(h);
      ghost var queues0, stat0, from, yielding0, queued := queues, stat, current, yielding, QueuedThreads();
      HandOver(queues[h][0]);
      SwitchDone(queues0, stat0, from, yielding0, queued, h);
    }

    lemma SwitchReady(h: nat)
      requires Valid() && h == FirstBusy(queues, 0) < prios && !Keeps(stat, prio, current, yielding, h)
      ensures h < |queues| && queues[h] != [] && QueuesOk() && current in prio && current in stat &&
              prio[current] < |queues|
      ensures current !in QueuedThreads() && queues[h][0] != current && queues[h][0] in prio && prio[queues[h][0]] == h
      ensures queues[h][0] in QueuedThreads() && Without(queues[h], queues[h][0]) == queues[h][1..]
      ensures StatsFit(QueuedThreads(), stat, current) && stat.Keys == prio.Keys && NoneMoreUrgent(stat, prio, h)
      ensures stat[current] == Running ==> h <= prio[current]
      ensures |queues| == prios && slice.Keys == prio.Keys && SlicesOk()
    {
      FirstBusyIs(queues, 0);
      HeadReady(h);
      HighestIsLeast(h);
    }

    method HandOver(to: Tid)
      requires QueuesOk() && |queues| == prios && current != to && current in prio && current in stat &&
               current !in QueuedThreads() && to in prio
      modifies `queues, `group, `table, `stat, `current, `yielding
      ensures QueuesOk() && |queues| == |old(queues)| && current == to
      ensures if old(stat)[old(current)] == Running then
                && QueuedThreads() == old(QueuedThreads()) + {old(current)} - {to} &&
                  yielding == old(yielding) - {old(current)}
                && stat == old(stat)[old(current) := Ready][to := Running]
                && PutAndTaken(old(queues), queues, prio[old(current)], old(current), prio[to], to)
              else
                && QueuedThreads() == old(QueuedThreads()) - {to} && yielding == old(yielding) &&
                  stat == old(stat)[to := Running]
                && prio[to] < |old(queues)| && queues == old(queues)[prio[to] := Without(old(queues)[prio[to]], to)]
    {
      PriorityBound(to);
      PriorityBound(current);
      hide QueuesOk, QueuedThreads, Without;
      if stat[current] == Running {
        PutBack(to);
      } else {
        current := to;
      }
      RemoveThread(to);
      stat := stat[to := Running];
    }

    lemma PriorityBound(t: Tid)
      requires QueuesOk() && t in prio
      ensures prio[t] < |queues| == prios
    {
    }

    /** `from` was appended to queue `f`, then `to` removed from queue `h`. */
    static ghost predicate PutAndTaken(qs: seq<seq<Tid>>, qs': seq<seq<Tid>>, f: nat, from: Tid, h: nat, to: Tid) {
      && f < |qs| && h < |qs|
      && var q1 := qs[f := qs[f] + [from]];
      qs' == q1[h := Without(q1[h], to)]
    }

    lemma SwitchDone(queues0: seq<seq<Tid>>, stat0: map<Tid, Stat>, from: Tid, yielding0: set<Tid>, queued: set<Tid>,
                     h: nat)
      requires h < |queues0| == |queues| == prios && queues0[h] != [] && QueuesOk() && from in prio &&
               from in stat0 && prio[from] < |queues0|
      requires current == queues0[h][0] && current != from && current in queued && current in prio && prio[current] == h
      requires Without(queues0[h], queues0[h][0]) == queues0[h][1..]
      requires StatsFit(queued, stat0, from) && stat0.Keys == prio.Keys && NoneMoreUrgent(stat0, prio, h)
      requires stat0[from] == Running ==> h <= prio[from]
      requires slice.Keys == prio.Keys && SlicesOk()
      requires if stat0[from] == Running then
                 && QueuedThreads() == queued + {from} - {current} && yielding == yielding0 - {from}
                 && stat == stat0[from := Ready][current := Running] &&
                   PutAndTaken(queues0, queues, prio[from], from, h, current)
               else
                 && QueuedThreads() == queued - {current} && yielding == yielding0 && stat == stat0[current := Running]
                 && queues == queues0[h := Without(queues0[h], current)]
      ensures Valid() && MostUrgentRuns() && Switched(queues0, stat0, from, yielding0, h)
    {
      SwitchFits(queued, stat0, prio, from, current, h);
      SwitchQueues(queues0, h, prio[from], from);
      hide QueuesOk, QueuedThreads, Without, StatsFit, NoneMoreUrgent;
    }

    lemma KeptDone(queues0: seq<seq<Tid>>, stat0: map<Tid, Stat>)
      requires QueuesOk() && |queues0| == prios && current in prio && prio[current] < prios && current in stat0 &&
               stat0[current] == Running
      requires stat0.Keys == prio.Keys && NoneMoreUrgent(stat0, prio, prio[current])
      requires queues == queues0 && stat == stat0[current := Running] && StatsFit(QueuedThreads(), stat0, current)
      requires slice.Keys == prio.Keys && SlicesOk()
      ensures Valid() && MostUrgentRuns() && stat == stat0
    {
      hide QueuesOk, QueuedThreads;
      assert stat == stat0;
    }

    /** The running thread gives way to `to`. */
    method PutBack(to: Tid)
      requires QueuesOk() && current != to && current in prio && current in stat && current !in QueuedThreads()
      modifies `queues, `group, `table, `stat, `current, `yielding
      ensures QueuesOk() && QueuedThreads() == old(QueuedThreads()) + {old(current)}
      ensures current == to && stat == old(stat)[old(current) := Ready] && yielding == old(yielding) - {old(current)}
      ensures var p := prio[old(current)]; queues == old(queues)[p := old(queues)[p] + [old(current)]]
    {
      hide QueuesOk, QueuedThreads;
      yielding := yielding - {current};
      var from := current;
      current := to;
      InsertThread(from);
    }

    ghost predicate Same(queues0: seq<seq<Tid>>, stat0: map<Tid, Stat>, from: Tid, yielding0: set<Tid>)
      reads `queues, `stat, `current, `yielding
    {
      queues == queues0 && stat == stat0 && current == from && yielding == yielding0
    }

    /** The thread that runs was the head of the queue of its priority, and READY. */
    ghost predicate SwitchedToHead(queues0: seq<seq<Tid>>, stat0: map<Tid, Stat>, from: Tid, yielding0: set<Tid>)
      reads `queues, `prio, `stat, `current, `yielding
    {
      && current in prio && current in stat0 && stat0[current] == Ready
      && Switched(queues0, stat0, from, yielding0, prio[current])
    }

    /** The head of queue `h` runs; a thread that was running goes to the tail of its own queue and no
        longer asks to yield. */
    ghost predicate Switched(queues0: seq<seq<Tid>>, stat0: map<Tid, Stat>, from: Tid, yielding0: set<Tid>, h: nat)
      reads `queues, `prio, `stat, `current, `yielding
    {
      && h < |queues0| && queues0[h] != [] && from in prio && from in stat0 && prio[from] < |queues0|
      && var q := queues0[h := queues0[h][1..]];
      && current == queues0[h][0] && current != from
      && if stat0[from] == Running then
           && stat == stat0[from := Ready][current := Running] && yielding == yielding0 - {from}
           && queues == q[prio[from] := q[prio[from]] + [from]]
         else stat == stat0[current := Running] && yielding == yielding0 && queues == q
    }

    /** rt_tick_increase up to the timer check.  When the slice is used up, a peer of the same priority
        takes over and the thread goes behind its peers; without a READY peer, or while the scheduler is
        locked, the request to yield stays pending. */
    method Tick()
      requires Valid()
      modifies `queues, `group, `table, `stat, `current, `yielding, `remaining
      ensures Valid()
      ensures old(remaining)[old(current)] > 1 ==>
                && remaining == old(remaining)[current := old(remaining)[current] - 1]
                && Same(old(queues), old(stat), old(current), old(yielding))
      ensures old(remaining)[old(current)] == 1 ==>
                remaining == old(remaining)[old(current) := slice[old(current)]] && (lockNest == 0 ==> MostUrgentRuns())
      ensures old(remaining)[old(current)] == 1 &&
              (lockNest != 0 || forall t :: t in old(stat) && old(stat)[t] == Ready ==>
                                   old(stat)[old(current)] == Running && prio[old(current)] < prio[t]) ==>
                Same(old(queues), old(stat), old(current), old(yielding) + {old(current)})
      ensures old(remaining)[old(current)] == 1 && lockNest == 0 &&
              (exists t :: t in old(stat) && old(stat)[t] == Ready &&
                  (old(stat)[old(current)] == Running ==> prio[t] <= prio[old(current)])) ==>
                && SwitchedToHead(old(queues), old(stat), old(current), old(yielding) + {old(current)})
                && forall t :: t in old(stat) && old(stat)[t] == Ready ==> prio[current] <= prio[t]
    {
      hide QueuesOk, StatsFit, FirstBusy, Same, SwitchedToHead, MostUrgentRuns;
      var t := current;
      CurrentKnown();
      remaining := remaining[t := remaining[t] - 1];
      if remaining[t] == 0 {
        remaining := remaining[t := slice[t]];
        yielding := yielding + {t};
        Schedule();
      } else {
        Unchanged();
      }
    }

    lemma CurrentKnown()
      requires Valid()
      ensures current in prio && current in stat && stat.Keys == prio.Keys
    {
    }

    method EnterCritical()
      requires Valid()
      modifies `lockNest
      ensures Valid() && lockNest == old(lockNest) + 1
    {
      hide QueuesOk, StatsOk;
      lockNest := lockNest + 1;
    }

    /** Leaving the outermost critical section, or leaving without having entered, schedules. */
    method ExitCritical()
      requires Valid()
      modifies `queues, `group, `table, `stat, `current, `yielding, `lockNest
      ensures Valid() && lockNest == if old(lockNest) == 0 then 0 else old(lockNest) - 1
      ensures lockNest == 0 ==> MostUrgentRuns()
      ensures lockNest != 0 || (forall t :: t in old(stat) ==> old(stat)[t] != Ready) ==>
                Same(old(queues), old(stat), old(current), old(yielding))
      ensures old(stat)[old(current)] == Running && old(current) !in old(yielding) &&
              (forall t :: t in old(stat) && old(stat)[t] == Ready ==> prio[old(current)] <= prio[t]) ==>
                Same(old(queues), old(stat), old(current), old(yielding))
      ensures lockNest == 0 &&
              (exists t :: t in old(stat) && old(stat)[t] == Ready &&
                  (old(stat)[old(current)] != Running || prio[t] < prio[old(current)] ||
                    (prio[t] == prio[old(current)] && old(current) in old(yielding)))) ==>
                && SwitchedToHead(old(queues), old(stat), old(current), old(yielding))
                && forall t :: t in old(stat) && old(stat)[t] == Ready ==> prio[current] <= prio[t]
    {
      hide QueuesOk, StatsFit, FirstBusy, SwitchedToHead, Same, MostUrgentRuns;
      Unchanged();
      if lockNest <= 1 {
        lockNest := 0;
        Schedule();
      } else {
        lockNest := lockNest - 1;
      }
    }

    /** The started system: an idle thread of the least urgent priority runs, nobody else is there. */
    constructor (wide: bool, prios: nat, idle: Tid, ticks: nat)
      requires if wide then 32 < prios <= 256 else 0 < prios <= 32
      requires ticks > 0
      ensures Valid() && this.wide == wide && this.prios == prios
      ensures current == idle && stat == map[idle := Running] && prio == map[idle := prios - 1] && lockNest == 0
      ensures yielding == {} && slice == remaining == map[idle := ticks] && queues == seq(prios, i => [])
    {
      this.wide, this.prios := wide, prios;
      queues := seq(prios, i => []);
      group, table := {}, seq(32, i => {});
      prio, stat := map[idle := prios - 1], map[idle := Running];
      yielding, slice, remaining := {}, map[idle := ticks], map[idle := ticks];
      current, lockNest := idle, 0;
    }

    /** rt_thread_init and the insertion part of rt_thread_startup for a new thread. */
    method Startup(t: Tid, p: nat, ticks: nat)
      requires Valid() && t !in prio && p < prios && ticks > 0
      modifies `queues, `group, `table, `prio, `stat, `slice, `remaining
      ensures Valid() && prio == old(prio)[t := p] && stat == old(stat)[t := Ready]
      ensures queues == old(queues)[p := old(queues)[p] + [t]]
      ensures slice == old(slice)[t := ticks] && remaining == old(remaining)[t := ticks]
    {
      hide QueuesOk, QueuedThreads, StatsFit, SlicesOk;
      Admit(t, p, ticks);
      var ok := Resume(t);
      assert stat == old(stat)[t := Ready];
    }

    method Admit(t: Tid, p: nat, ticks: nat)
      requires Valid() && t !in prio && p < prios && ticks > 0
      modifies `prio, `stat, `slice, `remaining
      ensures Valid() && prio == old(prio)[t := p] && stat == old(stat)[t := Suspended] && t != current
      ensures slice == old(slice)[t := ticks] && remaining == old(remaining)[t := ticks]
    {
      hide *;
      AdmitReady(t, p);
      SetPriority(t, p);
      stat := stat[t := Suspended];
      GiveSlice(t, ticks);
      MakeValid();
    }

    lemma AdmitReady(t: Tid, p: nat)
      requires Valid() && t !in prio
      ensures QueuesOk() && |queues| == prios && t !in QueuedThreads() && t != current && SlicesOk() &&
              slice.Keys == prio.Keys
      ensures StatsFit(QueuedThreads(), stat[t := Suspended], current)
      ensures stat[t := Suspended].Keys == slice.Keys + {t} && prio[t := p].Keys == slice.Keys + {t}
    {
      AdmitFits(QueuedThreads(), stat, current, t);
    }

    lemma MakeValid()
      requires QueuesOk() && |queues| == prios && SlicesOk() && slice.Keys == prio.Keys == stat.Keys
      requires StatsFit(QueuedThreads(), stat, current)
      ensures Valid()
    {
    }

    method GiveSlice(t: Tid, ticks: nat)
      requires SlicesOk() && ticks > 0
      modifies `slice, `remaining
      ensures SlicesOk() && slice.Keys == old(slice.Keys) + {t}
      ensures slice == old(slice)[t := ticks] && remaining == old(remaining)[t := ticks]
    {
      slice, remaining := slice[t := ticks], remaining[t := ticks];
    }
  }

  lemma AdmitFits(queued: set<Tid>, stat: map<Tid, Stat>, current: Tid, t: Tid)
    requires StatsFit(queued, stat, current) && t !in stat
    ensures t !in queued && t != current && StatsFit(queued, stat[t := Suspended], current)
  {
  }

  /** The idle thread has used up a slice while nobody else was there. */
  method Expired() returns (s: Scheduler)
    ensures fresh(s) && s.Valid() && s.prios == 8 && s.lockNest == 0 && s.queues == seq(8, i => [])
    ensures s.current == 0 && s.stat == map[0 := Running] && s.prio == map[0 := 7] && s.yielding == {0}
    ensures s.slice == s.remaining == map[0 := 1]
  {
    hide FirstBusy, Scheduler.QueuesOk, Scheduler.StatsOk, Scheduler.SlicesOk, Scheduler.MostUrgentRuns;
    s := new Scheduler(false, 8, 0, 1);
    s.Tick();
  }

  /** A slice that ends while no peer is READY leaves the request to yield pending: when a peer comes, the
      thread gives way to it at once, although its new slice is untouched. */
  method PendingYield() returns (s: Scheduler)
    ensures fresh(s) && s.Valid() && 0 in s.stat && s.stat[0] == Ready && s.current == 1
    ensures 0 in s.prio && 1 in s.prio && s.prio[0] == s.prio[1] && 0 in s.slice && 0 in s.remaining &&
            s.remaining[0] == s.slice[0]
  {
    hide FirstBusy, Scheduler.QueuesOk, Scheduler.StatsOk, Scheduler.SlicesOk, Scheduler.MostUrgentRuns;
    s := Expired();
    s.Startup(1, 7, 5);
    s.Schedule();
  }
}
