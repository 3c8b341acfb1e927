/** What timeout functions do to timers: whether a timer is listed and whether it is flagged as activated,
    after a call, after all calls of a timeout function, and after rounds of the firing loop. */
module TimerCalls {
  import opened Chains
  import opened TimerOrder

  datatype Command = StartTimer(timer: Id) | StopTimer(timer: Id)

  datatype Mark = Mark(listed: bool, flagged: bool)

  /** A timer that is not flagged is not stopped. */
  function AfterCall(c: Command, u: Id, m: Mark): Mark {
    if c.timer != u then m
    else match c
      case StartTimer(_) => Mark(true, true)
      case StopTimer(_) => if m.flagged then Mark(false, false) else m
  }

  function AfterCalls(cs: seq<Command>, u: Id, m: Mark): Mark {
    if cs == [] then m else AfterCall(cs[|cs| - 1], u, AfterCalls(cs[..|cs| - 1], u, m))
  }

  ghost predicate Unnamed(cs: seq<Command>, u: Id) {
    forall c :: c in cs ==> c.timer != u
  }

  /** The last call that names `t` starts it; `before` is the answer if no call does. */
  ghost predicate EndsStarted(cs: seq<Command>, t: Id, before: bool) {
    if cs == [] then before
    else if cs[|cs| - 1].timer == t then cs[|cs| - 1].StartTimer?
    else EndsStarted(cs[..|cs| - 1], t, before)
  }

  lemma {:induction false} UnnamedStays(cs: seq<Command>, u: Id, m: Mark)
    requires Unnamed(cs, u)
    ensures AfterCalls(cs, u, m) == m
  {
    if cs != [] {
      assert cs[|cs| - 1] in cs;
      UnnamedStays(cs[..|cs| - 1], u, m);
    }
  }

  lemma {:induction false} NotStarted(cs: seq<Command>, u: Id, before: bool)
    requires EndsStarted(cs, u, before) && StartTimer(u) !in cs
    ensures before && Unnamed(cs, u)
  {
    if cs != [] {
      assert cs == cs[..|cs| - 1] + [cs[|cs| - 1]];
      NotStarted(cs[..|cs| - 1], u, before);
    }
  }

  /** A timer that is listed only if flagged stays so, and its last call decides. */
  lemma {:induction false} LastCallDecides(cs: seq<Command>, u: Id, m: Mark)
    requires m.listed ==> m.flagged
    ensures AfterCalls(cs, u, m) == Mark(EndsStarted(cs, u, m.listed), EndsStarted(cs, u, m.flagged))
    ensures EndsStarted(cs, u, m.listed) ==> EndsStarted(cs, u, m.flagged)
  {
    if cs != [] {
      LastCallDecides(cs[..|cs| - 1], u, m);
    }
  }

  /** A timer that is listed without its flag can only be started. */
  lemma {:induction false} LooseCalls(cs: seq<Command>, u: Id)
    ensures var n := AfterCalls(cs, u, Mark(true, false));
            if StartTimer(u) in cs then n.listed == n.flagged else n == Mark(true, false)
  {
    if cs != [] {
      LooseCalls(cs[..|cs| - 1], u);
      assert cs == cs[..|cs| - 1] + [cs[|cs| - 1]];
    }
  }

  /** One round for timer `t` itself: unlisted, its calls made, then listed again if periodic and flagged,
      else without its flag. */
  function AfterFiring(cs: seq<Command>, t: Id, m: Mark, periodic: bool): Mark {
    var n := AfterCalls(cs, t, Mark(false, m.flagged));
    if periodic && n.flagged then Mark(true, true) else Mark(n.listed, false)
  }

  /** A periodic timer is listed again if its own calls leave it active, a one-shot timer if they start it,
      and then without its flag. */
  lemma FiringDecides(cs: seq<Command>, t: Id, m: Mark, periodic: bool)
    ensures var n := AfterFiring(cs, t, m, periodic);
      && (n.listed <==> if periodic then EndsStarted(cs, t, m.flagged) else EndsStarted(cs, t, false))
      && (n.flagged <==> periodic && EndsStarted(cs, t, m.flagged))
  {
    LastCallDecides(cs, t, Mark(false, m.flagged));
  }

  function Calls(script: map<Id, seq<Command>>, t: Id): seq<Command> {
    if t in script then script[t] else []
  }

  /** After rounds for the timers `fired`. */
  function AfterRounds(fired: seq<Id>, script: map<Id, seq<Command>>, u: Id, m: Mark, periodic: bool): Mark {
    if fired == [] then m
    else
      var t, n := fired[|fired| - 1], AfterRounds(fired[..|fired| - 1], script, u, m, periodic);
      if t == u then AfterFiring(Calls(script, u), u, n, periodic) else AfterCalls(Calls(script, t), u, n)
  }

  lemma RoundAdded(fired: seq<Id>, t: Id, script: map<Id, seq<Command>>, u: Id, m: Mark, periodic: bool)
    ensures AfterRounds(fired + [t], script, u, m, periodic) ==
            var n := AfterRounds(fired, script, u, m, periodic);
            if t == u then AfterFiring(Calls(script, u), u, n, periodic) else AfterCalls(Calls(script, t), u, n)
  {
    assert (fired + [t])[..|fired|] == fired;
  }

  /** No timeout function but its own starts or stops `u`. */
  ghost predicate Private(fired: seq<Id>, script: map<Id, seq<Command>>, u: Id) {
    forall t :: t in fired && t != u ==> Unnamed(Calls(script, t), u)
  }

  lemma {:induction false} PrivateRounds(fired: seq<Id>, script: map<Id, seq<Command>>, u: Id, m: Mark, periodic: bool)
    requires Private(fired, script, u) && Distinct(fired)
    ensures AfterRounds(fired, script, u, m, periodic) ==
            if u in fired then AfterFiring(Calls(script, u), u, m, periodic) else m
  {
    if fired != [] {
      var init, t := fired[..|fired| - 1], fired[|fired| - 1];
      assert fired == init + [t] && t !in init;
      PrivateRounds(init, script, u, m, periodic);
      if t != u {
        assert Unnamed(Calls(script, t), u);
        UnnamedStays(Calls(script, t), u, AfterRounds(init, script, u, m, periodic));
      }
    }
  }

  /** A one-shot timer whose own timeout function starts it, and which none that fires later starts again. */
  ghost predicate Loose(fired: seq<Id>, script: map<Id, seq<Command>>, u: Id, periodic: bool) {
    && !periodic && EndsStarted(Calls(script, u), u, false)
    && exists i :: 0 <= i < |fired| && fired[i] == u && forall j :: i < j < |fired| ==>
      StartTimer(u) !in Calls(script, fired[j])
  }

  lemma LooseAdded(init: seq<Id>, t: Id, script: map<Id, seq<Command>>, u: Id, periodic: bool)
    requires t !in init
    ensures Loose(init + [t], script, u, periodic) <==>
            if t == u then !periodic && EndsStarted(Calls(script, u), u, false)
            else Loose(init, script, u, periodic) && StartTimer(u) !in Calls(script, t)
  {
    var fired := init + [t];
    assert fired[|init|] == t;
    if Loose(init, script, u, periodic) && StartTimer(u) !in Calls(script, t) {
      var i :| 0 <= i < |init| && init[i] == u && forall j :: i < j < |init| ==>
        StartTimer(u) !in Calls(script, init[j]);
      assert fired[i] == u;
    }
    if Loose(fired, script, u, periodic) && t != u {
      var i :| 0 <= i < |fired| && fired[i] == u && forall j :: i < j < |fired| ==>
        StartTimer(u) !in Calls(script, fired[j]);
      assert init[i] == u;
      forall j | i < j < |init|
        ensures StartTimer(u) !in Calls(script, init[j])
      {
        assert fired[j] == init[j];
      }
    }
  }

  /** A timer listed exactly while it is flagged stops being so exactly if it is loose. */
  lemma {:induction false} LooseIff(fired: seq<Id>, script: map<Id, seq<Command>>, u: Id, m: Mark, periodic: bool)
    requires Distinct(fired) && m.listed == m.flagged
    ensures var n := AfterRounds(fired, script, u, m, periodic);
      if Loose(fired, script, u, periodic) then n == Mark(true, false) else n.listed == n.flagged
  {
    if fired != [] {
      var init, t := fired[..|fired| - 1], fired[|fired| - 1];
      assert fired == init + [t] && t !in init;
      LooseIff(init, script, u, m, periodic);
      LooseAdded(init, t, script, u, periodic);
      var n := AfterRounds(init, script, u, m, periodic);
      if t == u {
        FiringDecides(Calls(script, u), u, n, periodic);
      } else if n.listed == n.flagged {
        LastCallDecides(Calls(script, t), u, n);
      } else {
        LooseCalls(Calls(script, t), u);
      }
    }
  }

  /** No timeout function of `order` starts or stops one that is due to fire after it. */
  ghost predicate Undisturbed(order: seq<Id>, script: map<Id, seq<Command>>) {
    forall i, j :: 0 <= i < j < |order| ==> Unnamed(Calls(script, order[i]), order[j])
  }
}
