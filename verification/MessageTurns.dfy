/** Which of the threads suspended on a message queue is resumed. */
module MessageTurns {
  import opened Chains
  import opened Waiters
  import opened MessageProtocol
  import opened WakeOrder

  /** When each thread made its last step; a suspended thread suspended itself in it. */
  function Clock(came: map<Tid, nat>, now: nat, es: seq<Event>): map<Tid, nat>
    decreases |es|
  {
    if es == [] then came else Clock(came[es[0].t := now], now + 1, es[1..])
  }

  lemma {:induction false} ClockIs(came: map<Tid, nat>, now: nat, es: seq<Event>, t: Tid, k: nat)
    requires k < |es| && es[k].t == t && forall j :: k < j < |es| ==> es[j].t != t
    ensures t in Clock(came, now, es) && Clock(came, now, es)[t] == now + k
    decreases |es|
  {
    if k > 0 {
      ClockIs(came[es[0].t := now], now + 1, es[1..], t, k - 1);
    } else {
      ClockKept(came[t := now], now + 1, es[1..], t);
    }
  }

  lemma {:induction false} ClockKept(came: map<Tid, nat>, now: nat, es: seq<Event>, t: Tid)
    requires t in came && forall e :: e in es ==> e.t != t
    ensures t in Clock(came, now, es) && Clock(came, now, es)[t] == came[t]
    decreases |es|
  {
    if es != [] {
      assert es[0] in es;
      ClockKept(came[es[0].t := now], now + 1, es[1..], t);
    }
  }

  ghost predicate BothInTurn(c: Config, came: map<Tid, nat>, now: nat, s: State) {
    InTurn(c.order, c.prio, came, now, s.senders.waiting) && InTurn(c.order, c.prio, came, now, s.receivers.waiting)
  }

  /** Only a timeout is an event of a suspended thread. */
  lemma ActorRuns(c: Config, s: State, e: Event)
    requires Inv(c, s) && Enabled(c, s, e)
    ensures s.senders.Ok() && s.receivers.Ok()
    ensures !e.Expire? ==> e.t !in s.senders.waiting && e.t !in s.receivers.waiting
  {
    assert s.senders.Has(e.t) <==> e.t in s.phase && s.phase[e.t].Sending?;
    assert s.receivers.Has(e.t) <==> e.t in s.phase && s.phase[e.t].Receiving?;
  }

  /** What can happen to one list of suspended threads in an event of `t`. */
  ghost predicate Moves(c: Config, s: Side, s': Side, t: Tid) {
    || s'.waiting == s.waiting
    || s'.waiting == Enqueue(s.waiting, t, c.order, c.prio)
    || s' == s.WakeFirst()
    || s'.waiting == []
  }

  lemma SidesMove(c: Config, s: State, e: Event)
    requires Enabled(c, s, e) && !e.Expire?
    ensures Moves(c, s.senders, Next(c, s, e).senders, e.t) && Moves(c, s.receivers, Next(c, s, e).receivers, e.t)
  {
    hide Enqueue, CanCopy;
  }

  lemma MoveTurns(c: Config, came: map<Tid, nat>, now: nat, s: Side, s': Side, t: Tid)
    requires s.Ok() && t !in s.waiting && InTurn(c.order, c.prio, came, now, s.waiting) && Moves(c, s, s', t)
    ensures InTurn(c.order, c.prio, came[t := now], now + 1, s'.waiting)
  {
    hide Enqueue, InTurn, ServesFirst;
    if s'.waiting == s.waiting {
      TurnPassed(c.order, c.prio, came, now, s.waiting, t);
    } else if s'.waiting == Enqueue(s.waiting, t, c.order, c.prio) {
      TurnJoined(c.order, c.prio, came, now, s.waiting, t);
    } else if s'.waiting == [] {
      NobodyInTurn(c.order, c.prio, came[t := now], now + 1);
    } else {
      TurnWoken(c.order, c.prio, came, now, s);
      assert t !in s.waiting[1..];
      TurnPassed(c.order, c.prio, came, now, s'.waiting, t);
    }
  }

  lemma DropTurns(c: Config, came: map<Tid, nat>, now: nat, s: Side, t: Tid)
    requires s.Ok() && InTurn(c.order, c.prio, came, now, s.waiting)
    ensures InTurn(c.order, c.prio, came[t := now], now + 1, s.Drop(t).waiting)
  {
    DropGone(s, t);
    hide InTurn;
    TurnDropped(c.order, c.prio, came, now, s.waiting, t);
    TurnPassed(c.order, c.prio, came, now, s.Drop(t).waiting, t);
  }

  lemma DropGone(s: Side, t: Tid)
    requires s.Ok()
    ensures t !in s.Drop(t).waiting
  {
    WithoutDistinct(s.waiting, t);
  }

  lemma EventTurns(c: Config, came: map<Tid, nat>, now: nat, s: State, e: Event)
    requires Inv(c, s) && Enabled(c, s, e) && BothInTurn(c, came, now, s)
    ensures BothInTurn(c, came[e.t := now], now + 1, Next(c, s, e))
  {
    hide Inv, InTurn, Moves, CanCopy;
    ActorRuns(c, s, e);
    if e.Expire? {
      DropTurns(c, came, now, s.senders, e.t);
      DropTurns(c, came, now, s.receivers, e.t);
    } else {
      SidesMove(c, s, e);
      MoveTurns(c, came, now, s.senders, Next(c, s, e).senders, e.t);
      MoveTurns(c, came, now, s.receivers, Next(c, s, e).receivers, e.t);
    }
  }

  lemma {:induction false} RunInTurn(c: Config, came: map<Tid, nat>, now: nat, s: State, es: seq<Event>)
    requires Inv(c, s) && Possible(c, s, es) && BothInTurn(c, came, now, s)
    ensures Inv(c, After(c, s, es)) && BothInTurn(c, Clock(came, now, es), now + |es|, After(c, s, es))
    decreases |es|
  {
    hide Inv, Next, Enabled, BothInTurn;
    if es != [] {
      StepKeeps(c, s, es[0]);
      EventTurns(c, came, now, s, es[0]);
      RunInTurn(c, came[es[0].t := now], now + 1, Next(c, s, es[0]), es[1..]);
    }
  }

  /** After any run, the section that links a message resumes the receiver whose turn it is, if there is one,
      and the section that gives a slot back the sender whose turn it is. */
  lemma FinishServesInTurn(c: Config, threads: set<Tid>, es: seq<Event>, t: Tid)
    requires Possible(c, Initial(c, threads), es) && Enabled(c, After(c, Initial(c, threads), es), Finish(t))
    ensures var s, came := After(c, Initial(c, threads), es), Clock(map[], 0, es);
      var s' := Next(c, s, Finish(t));
      if s.phase[t].Filling?
      then ServesFirst(c.order, c.prio, came, s.receivers, s'.receivers) && s'.senders == s.senders
      else ServesFirst(c.order, c.prio, came, s.senders, s'.senders) && s'.receivers == s.receivers
  {
    InitialOk(c, threads);
    RunInTurn(c, map[], 0, Initial(c, threads), es);
    var s, came := After(c, Initial(c, threads), es), Clock(map[], 0, es);
    ActorRuns(c, s, Finish(t));
    hide Inv, After, Clock, InTurn, ServesFirst, Possible, CanCopy;
    if s.phase[t].Filling? {
      TurnWoken(c.order, c.prio, came, |es|, s.receivers);
    } else {
      TurnWoken(c.order, c.prio, came, |es|, s.senders);
    }
  }
}
