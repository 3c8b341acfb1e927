/** Threads suspended on a kernel object, and the threads that were resumed from it but have not run yet. */
module Waiters {
  import opened Chains

  type Tid = nat

  /** Where a thread that suspends itself is put in the list of suspended threads. */
  datatype Order = Fifo | Priority | Lifo

  function InsertByPriority(list: seq<Tid>, t: Tid, prio: Tid -> nat): (r: seq<Tid>)
    ensures forall u :: u in r <==> u in list || u == t
    ensures |r| == |list| + 1
  {
    if list == [] then [t]
    else if prio(t) < prio(list[0]) then [t] + list
    else
      assert list == [list[0]] + list[1..];
      [list[0]] + InsertByPriority(list[1..], t, prio)
  }

  function Enqueue(list: seq<Tid>, t: Tid, order: Order, prio: Tid -> nat): (r: seq<Tid>)
    ensures forall u :: u in r <==> u in list || u == t
  {
    match order
    case Fifo => list + [t]
    case Lifo => [t] + list
    case Priority => InsertByPriority(list, t, prio)
  }

  ghost predicate MostUrgentFirst(list: seq<Tid>, prio: Tid -> nat) {
    forall i, j :: 0 <= i < j < |list| ==> prio(list[i]) <= prio(list[j])
  }

  /** The first place from `k` on whose thread is less urgent than `t`. */
  function PlaceFrom(list: seq<Tid>, t: Tid, prio: Tid -> nat, k: nat): (n: nat)
    requires k <= |list|
    ensures k <= n <= |list| && (n < |list| ==> prio(t) < prio(list[n]))
    ensures forall j :: k <= j < n ==> prio(list[j]) <= prio(t)
    decreases |list| - k
  {
    if k == |list| || prio(t) < prio(list[k]) then k else PlaceFrom(list, t, prio, k + 1)
  }

  /** The search loop of rt_ipc_list_suspend. */
  method FindPlace(list: seq<Tid>, t: Tid, prio: Tid -> nat) returns (n: nat)
    ensures n == PlaceFrom(list, t, prio, 0) && InsertByPriority(list, t, prio) == list[..n] + [t] + list[n..]
    ensures forall j :: 0 <= j < n ==> prio(list[j]) <= prio(t)
    ensures n < |list| ==> prio(t) < prio(list[n])
  {
    n := 0;
    while n < |list| && prio(list[n]) <= prio(t)
      invariant n <= |list| && PlaceFrom(list, t, prio, n) == PlaceFrom(list, t, prio, 0)
      decreases |list| - n
    {
      n := n + 1;
    }
    InsertAt(list, t, prio, n);
  }

  /** rt_ipc_list_suspend, and rt_mp_alloc for the last-come-first-served order. */
  method Insert(list: seq<Tid>, t: Tid, order: Order, prio: Tid -> nat) returns (r: seq<Tid>)
    ensures r == Enqueue(list, t, order, prio)
  {
    match order
    case Fifo => r := list + [t];
    case Lifo => r := [t] + list;
    case Priority =>
      var n := FindPlace(list, t, prio);
      r := list[..n] + [t] + list[n..];
  }

  lemma {:induction false} InsertAt(list: seq<Tid>, t: Tid, prio: Tid -> nat, n: nat)
    requires n <= |list| && forall j :: 0 <= j < n ==> prio(list[j]) <= prio(t)
    requires n < |list| ==> prio(t) < prio(list[n])
    ensures InsertByPriority(list, t, prio) == list[..n] + [t] + list[n..]
  {
    if n > 0 {
      assert list[0] == list[0..][0] && prio(list[0]) <= prio(t);
      InsertAt(list[1..], t, prio, n - 1);
      SplitShift(list, t, n);
    } else {
      assert list[..0] == [] && list[0..] == list;
    }
  }

  lemma SplitShift(list: seq<Tid>, t: Tid, n: nat)
    requires 0 < n <= |list|
    ensures [list[0]] + (list[1..][..n - 1] + [t] + list[1..][n - 1..]) == list[..n] + [t] + list[n..]
  {
  }

  /** `r` is `list` with `t` at the place that the order asks for: behind all, in front of all, or in front
      of the first thread that is less urgent. */
  ghost predicate Joined(list: seq<Tid>, t: Tid, order: Order, prio: Tid -> nat, r: seq<Tid>) {
    match order
    case Fifo => r == list + [t]
    case Lifo => r == [t] + list
    case Priority =>
      exists n :: 0 <= n <= |list| && (forall j :: 0 <= j < n ==> prio(list[j]) <= prio(t)) &&
        (n < |list| ==> prio(t) < prio(list[n])) && r == list[..n] + [t] + list[n..]
  }

  lemma EnqueueJoins(list: seq<Tid>, t: Tid, order: Order, prio: Tid -> nat)
    ensures Joined(list, t, order, prio, Enqueue(list, t, order, prio))
  {
    if order == Priority {
      var n := PlaceFrom(list, t, prio, 0);
      InsertAt(list, t, prio, n);
    }
  }

  lemma EnqueueDistinct(list: seq<Tid>, t: Tid, order: Order, prio: Tid -> nat)
    requires Distinct(list) && t !in list
    ensures Distinct(Enqueue(list, t, order, prio))
  {
    hide InsertByPriority, PlaceFrom;
    if order == Priority {
      var n := PlaceFrom(list, t, prio, 0);
      InsertAt(list, t, prio, n);
      assert forall j :: n <= j < |list| ==> list[n..][j - n] == list[j];
    }
  }

  /** A list kept by priority stays so, and the newcomer stands behind those of its own priority. */
  lemma EnqueueUrgentFirst(list: seq<Tid>, t: Tid, prio: Tid -> nat) returns (n: nat)
    requires MostUrgentFirst(list, prio)
    ensures n <= |list| && InsertByPriority(list, t, prio) == list[..n] + [t] + list[n..] &&
            StandsBehind(list, t, prio, n)
    ensures MostUrgentFirst(InsertByPriority(list, t, prio), prio)
  {
    n := PlaceFrom(list, t, prio, 0);
    InsertAt(list, t, prio, n);
    InsertedUrgentFirst(list, t, prio, n);
  }

  lemma InsertedUrgentFirst(list: seq<Tid>, t: Tid, prio: Tid -> nat, n: nat)
    requires MostUrgentFirst(list, prio) && n <= |list|
    requires forall j :: 0 <= j < n ==> prio(list[j]) <= prio(t)
    requires n < |list| ==> prio(t) < prio(list[n])
    ensures StandsBehind(list, t, prio, n) && MostUrgentFirst(list[..n] + [t] + list[n..], prio)
  {
    forall j | n <= j < |list|
      ensures prio(t) < prio(list[j])
    {
      assert n < j ==> prio(list[n]) <= prio(list[j]);
    }
  }

  ghost predicate StandsBehind(list: seq<Tid>, t: Tid, prio: Tid -> nat, n: nat)
    requires n <= |list|
  {
    (forall j :: 0 <= j < n ==> prio(list[j]) <= prio(t)) && forall j :: n <= j < |list| ==> prio(t) < prio(list[j])
  }

  /** Threads that wait for one kind of resource of an object: suspended, or resumed and yet to run. */
  datatype Side = Side(waiting: seq<Tid>, woken: set<Tid>) {
    ghost predicate Ok() {
      Distinct(waiting) && forall t :: t in waiting ==> t !in woken
    }

    ghost predicate Has(t: Tid) {
      t in waiting || t in woken
    }

    /** No lost wake-up: while a thread is suspended, there are no more of the `n` available resources
        than threads on their way to take one. */
    ghost predicate Covers(n: nat) {
      waiting != [] ==> n <= |woken|
    }

    function Suspend(t: Tid, order: Order, prio: Tid -> nat): Side {
      Side(Enqueue(waiting, t, order, prio), woken - {t})
    }

    function WakeFirst(): Side {
      if waiting == [] then this else Side(waiting[1..], woken + {waiting[0]})
    }

    function Proceed(t: Tid): Side {
      Side(waiting, woken - {t})
    }

    function Drop(t: Tid): Side {
      Side(Without(waiting, t), woken)
    }
  }

  /** Suspending happens only when nothing is available. */
  lemma SuspendOk(s: Side, t: Tid, order: Order, prio: Tid -> nat)
    requires s.Ok() && t !in s.waiting
    ensures s.Suspend(t, order, prio).Ok() && s.Suspend(t, order, prio).Covers(0)
    ensures forall u :: s.Suspend(t, order, prio).Has(u) <==> s.Has(u) || u == t
  {
    EnqueueDistinct(s.waiting, t, order, prio);
  }

  lemma WakeOk(s: Side, n: nat)
    requires s.Ok() && s.Covers(n)
    ensures s.WakeFirst().Ok() && s.WakeFirst().Covers(n + 1)
    ensures forall u :: s.WakeFirst().Has(u) <==> s.Has(u)
  {
    if s.waiting != [] {
      assert s.waiting == [s.waiting[0]] + s.waiting[1..];
      assert s.waiting[0] !in s.waiting[1..];
    }
  }

  /** Taking a resource, by a resumed thread or by one that never waited. */
  lemma ProceedOk(s: Side, t: Tid, n: nat)
    requires s.Ok() && s.Covers(n + 1) && t !in s.waiting
    ensures s.Proceed(t).Ok() && s.Proceed(t).Covers(n)
    ensures forall u :: s.Proceed(t).Has(u) <==> s.Has(u) && u != t
  {
    if t in s.woken {
      assert |s.woken - {t}| == |s.woken| - 1;
    } else {
      assert s.woken - {t} == s.woken;
    }
  }

  /** Giving up while nothing is available. */
  lemma LeaveOk(s: Side, t: Tid)
    requires s.Ok() && t !in s.waiting
    ensures s.Proceed(t).Ok() && s.Proceed(t).Covers(0)
    ensures forall u :: s.Proceed(t).Has(u) <==> s.Has(u) && u != t
  {
  }

  lemma DropOk(s: Side, t: Tid, n: nat)
    requires s.Ok() && s.Covers(n) && t in s.waiting
    ensures s.Drop(t).Ok() && s.Drop(t).Covers(n)
    ensures forall u :: s.Drop(t).Has(u) <==> s.Has(u) && u != t
  {
    WithoutDistinct(s.waiting, t);
  }
}
