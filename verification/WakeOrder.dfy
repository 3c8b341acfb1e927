/** Who is resumed first: over any history of suspensions, wake-ups and timeouts, the lists of suspended
    threads hand out wake-ups in the order that the kernel object was created with. */
module WakeOrder {
  import opened Chains
  import opened Waiters

  /** `t` is served before `u`; `came` tells when each was suspended last. */
  ghost predicate Before(order: Order, prio: Tid -> nat, came: map<Tid, nat>, t: Tid, u: Tid) {
    t in came && u in came &&
    match order
    case Fifo => came[t] < came[u]
    case Lifo => came[u] < came[t]
    case Priority => prio(t) < prio(u) || (prio(t) == prio(u) && came[t] < came[u])
  }

  ghost predicate InTurn(order: Order, prio: Tid -> nat, came: map<Tid, nat>, now: nat, list: seq<Tid>) {
    && (forall t :: t in list ==> t in came && came[t] < now)
    && forall i, j :: 0 <= i < j < |list| ==> Before(order, prio, came, list[i], list[j])
  }

  /** A newcomer is put where it belongs. */
  lemma TurnJoined(order: Order, prio: Tid -> nat, came: map<Tid, nat>, now: nat, list: seq<Tid>, t: Tid)
    requires InTurn(order, prio, came, now, list) && t !in list
    ensures InTurn(order, prio, came[t := now], now + 1, Enqueue(list, t, order, prio))
  {
    match order
    case Fifo => TurnInserted(order, prio, came, now, list, t, |list|);
    case Lifo => TurnInserted(order, prio, came, now, list, t, 0);
    case Priority =>
      assert MostUrgentFirst(list, prio);
      var n := EnqueueUrgentFirst(list, t, prio);
      TurnInserted(order, prio, came, now, list, t, n);
  }

  lemma TurnInserted(order: Order, prio: Tid -> nat, came: map<Tid, nat>, now: nat, list: seq<Tid>, t: Tid, n: nat)
    requires InTurn(order, prio, came, now, list) && t !in list && n <= |list|
    requires order == Fifo ==> n == |list|
    requires order == Lifo ==> n == 0
    requires order == Priority ==> StandsBehind(list, t, prio, n)
    ensures InTurn(order, prio, came[t := now], now + 1, list[..n] + [t] + list[n..])
    ensures n == |list| ==> list[..n] + [t] + list[n..] == list + [t]
    ensures n == 0 ==> list[..n] + [t] + list[n..] == [t] + list
  {
    var r, came' := list[..n] + [t] + list[n..], came[t := now];
    forall i, j | 0 <= i < j < |r|
      ensures Before(order, prio, came', r[i], r[j])
    {
      var i0, j0 := if i < n then i else i - 1, if j < n then j else j - 1;
      assert i != n ==> r[i] == list[i0];
      assert j != n ==> r[j] == list[j0];
      if i != n && j != n { assert Before(order, prio, came, list[i0], list[j0]); }
    }
  }

  /** Whoever leaves the list, those who stay keep their turns. */
  lemma TurnLeft(order: Order, prio: Tid -> nat, came: map<Tid, nat>, now: nat, list: seq<Tid>, k: nat)
    requires InTurn(order, prio, came, now, list) && k < |list|
    ensures InTurn(order, prio, came, now, list[..k] + list[k + 1..])
  {
    var r := list[..k] + list[k + 1..];
    forall i | 0 <= i < |r|
      ensures r[i] == list[if i < k then i else i + 1]
    {
    }
  }

  lemma TurnDropped(order: Order, prio: Tid -> nat, came: map<Tid, nat>, now: nat, list: seq<Tid>, t: Tid)
    requires InTurn(order, prio, came, now, list)
    ensures InTurn(order, prio, came, now, Without(list, t))
  {
    var k := WithoutAt(list, t);
    if k < |list| { TurnLeft(order, prio, came, now, list, k); }
  }

  /** The clock may advance, and a thread that is not on the list may do what it likes. */
  lemma TurnPassed(order: Order, prio: Tid -> nat, came: map<Tid, nat>, now: nat, list: seq<Tid>, t: Tid)
    requires InTurn(order, prio, came, now, list) && t !in list
    ensures InTurn(order, prio, came[t := now], now + 1, list)
  {
  }

  lemma TurnAges(order: Order, prio: Tid -> nat, came: map<Tid, nat>, now: nat, list: seq<Tid>)
    requires InTurn(order, prio, came, now, list)
    ensures InTurn(order, prio, came, now + 1, list)
  {
  }

  lemma NobodyInTurn(order: Order, prio: Tid -> nat, came: map<Tid, nat>, now: nat)
    ensures InTurn(order, prio, came, now, [])
  {
  }

  /** What a wake-up does: with nobody waiting nothing; otherwise one thread, which comes before all those
      left behind, is on its way, and nobody else is affected. */
  ghost predicate ServesFirst(order: Order, prio: Tid -> nat, came: map<Tid, nat>, s: Side, s': Side) {
    if s.waiting == [] then s' == s
    else exists t :: t in s.waiting && Served(order, prio, came, s, s', t)
  }

  ghost predicate Served(order: Order, prio: Tid -> nat, came: map<Tid, nat>, s: Side, s': Side, t: Tid) {
    && s'.woken == s.woken + {t} && t !in s'.waiting
    && (forall u :: u in s.waiting <==> u in s'.waiting || u == t)
    && forall u :: u in s'.waiting ==> Before(order, prio, came, t, u)
  }

  lemma TurnWoken(order: Order, prio: Tid -> nat, came: map<Tid, nat>, now: nat, s: Side)
    requires InTurn(order, prio, came, now, s.waiting) && s.Ok()
    ensures InTurn(order, prio, came, now, s.WakeFirst().waiting)
    ensures ServesFirst(order, prio, came, s, s.WakeFirst())
  {
    if s.waiting != [] {
      TurnLeft(order, prio, came, now, s.waiting, 0);
      var s', t := s.WakeFirst(), s.waiting[0];
      assert s.waiting[..0] + s.waiting[0 + 1..] == s'.waiting;
      assert s.waiting == [t] + s'.waiting;
      assert forall i :: 0 <= i < |s'.waiting| ==> s'.waiting[i] == s.waiting[i + 1];
      assert Served(order, prio, came, s, s', t);
    }
  }

  // ---- histories of one list ----

  /** What happens to the threads that wait for one kind of resource. */
  datatype Act = Suspends(t: Tid) | Resumes | Runs(t: Tid) | Expires(t: Tid) | Released

  function Step(order: Order, prio: Tid -> nat, s: Side, a: Act): Side {
    match a
    case Suspends(t) => s.Suspend(t, order, prio)
    case Resumes => s.WakeFirst()
    case Runs(t) => s.Proceed(t)
    case Expires(t) => s.Drop(t)
    case Released => Side([], s.woken)
  }

  /** Only a thread that is not suspended acts. */
  ghost predicate CanStep(s: Side, a: Act) {
    match a
    case Suspends(t) => t !in s.waiting
    case Runs(t) => t !in s.waiting
    case Expires(t) => t in s.waiting
    case _ => true
  }

  ghost predicate CanRun(order: Order, prio: Tid -> nat, s: Side, acts: seq<Act>)
    decreases |acts|
  {
    acts == [] || (CanStep(s, acts[0]) && CanRun(order, prio, Step(order, prio, s, acts[0]), acts[1..]))
  }

  ghost function Run(order: Order, prio: Tid -> nat, s: Side, acts: seq<Act>): Side
    requires CanRun(order, prio, s, acts)
    decreases |acts|
  {
    if acts == [] then s else Run(order, prio, Step(order, prio, s, acts[0]), acts[1..])
  }

  /** When each thread was suspended last, counted from `now`. */
  function Times(came: map<Tid, nat>, now: nat, acts: seq<Act>): map<Tid, nat>
    decreases |acts|
  {
    if acts == [] then came
    else Times(if acts[0].Suspends? then came[acts[0].t := now] else came, now + 1, acts[1..])
  }

  lemma StepTurns(order: Order, prio: Tid -> nat, came: map<Tid, nat>, now: nat, s: Side, a: Act)
    requires s.Ok() && InTurn(order, prio, came, now, s.waiting) && CanStep(s, a)
    ensures var s' := Step(order, prio, s, a);
      s'.Ok() && InTurn(order, prio, if a.Suspends? then came[a.t := now] else came, now + 1, s'.waiting)
  {
    hide Enqueue, Without, Distinct, InTurn, ServesFirst;
    match a
    case Suspends(t) =>
      TurnJoined(order, prio, came, now, s.waiting, t);
      SuspendOk(s, t, order, prio);
    case Resumes =>
      TurnWoken(order, prio, came, now, s);
      TurnAges(order, prio, came, now, s.WakeFirst().waiting);
      WakeOk(s, 0);
    case Runs(t) =>
      TurnAges(order, prio, came, now, s.waiting);
      LeaveOk(s, t);
    case Expires(t) =>
      TurnDropped(order, prio, came, now, s.waiting, t);
      TurnAges(order, prio, came, now, s.Drop(t).waiting);
      DropOk(s, t, 0);
    case Released =>
      NobodyInTurn(order, prio, came, now + 1);
      NoneDistinct();
  }

  lemma NoneDistinct()
    ensures Distinct([])
  {
  }

  lemma {:induction false} RunTurns(order: Order, prio: Tid -> nat, came: map<Tid, nat>, now: nat, s: Side,
                                    acts: seq<Act>)
    requires s.Ok() && InTurn(order, prio, came, now, s.waiting) && CanRun(order, prio, s, acts)
    ensures var s', now' := Run(order, prio, s, acts), now + |acts|;
      s'.Ok() && InTurn(order, prio, Times(came, now, acts), now', s'.waiting)
    decreases |acts|
  {
    if acts != [] {
      StepTurns(order, prio, came, now, s, acts[0]);
      hide Step, InTurn, CanStep;
      RunTurns(order, prio, if acts[0].Suspends? then came[acts[0].t := now] else came, now + 1,
        Step(order, prio, s, acts[0]), acts[1..]);
    }
  }

  /** After any history that starts with nobody, a wake-up serves the thread whose turn it is: with
      `Priority` nobody left behind is more urgent, and none of the same priority was suspended earlier; with
      `Fifo` nobody left behind was suspended earlier, with `Lifo` nobody later. */
  lemma ServedInTurn(order: Order, prio: Tid -> nat, acts: seq<Act>)
    requires CanRun(order, prio, Side([], {}), acts)
    ensures var s := Run(order, prio, Side([], {}), acts);
            ServesFirst(order, prio, Times(map[], 0, acts), s, Step(order, prio, s, Resumes))
  {
    NoneDistinct();
    RunTurns(order, prio, map[], 0, Side([], {}), acts);
    hide InTurn, ServesFirst;
    TurnWoken(order, prio, Times(map[], 0, acts), |acts|, Run(order, prio, Side([], {}), acts));
  }

  /** The time of a thread is the place of its last suspension. */
  lemma {:induction false} TimesAre(came: map<Tid, nat>, now: nat, acts: seq<Act>, t: Tid, k: nat)
    requires k < |acts| && acts[k] == Suspends(t) && forall j :: k < j < |acts| ==> acts[j] != Suspends(t)
    ensures t in Times(came, now, acts) && Times(came, now, acts)[t] == now + k
    decreases |acts|
  {
    if k > 0 {
      TimesAre(if acts[0].Suspends? then came[acts[0].t := now] else came, now + 1, acts[1..], t, k - 1);
    } else {
      TimesKept(came[t := now], now + 1, acts[1..], t);
    }
  }

  lemma {:induction false} TimesKept(came: map<Tid, nat>, now: nat, acts: seq<Act>, t: Tid)
    requires t in came && forall j :: 0 <= j < |acts| ==> acts[j] != Suspends(t)
    ensures t in Times(came, now, acts) && Times(came, now, acts)[t] == came[t]
    decreases |acts|
  {
    if acts != [] {
      TimesKept(if acts[0].Suspends? then came[acts[0].t := now] else came, now + 1, acts[1..], t);
    }
  }
}
