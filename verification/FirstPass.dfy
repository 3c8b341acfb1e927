/** Which of the due timers fire, told from the state before the firing loop: a scan from first to last, in
    which a timer fires unless a timeout function that fired before starts it, or stops it while it is flagged. */
module FirstPasses {
  import opened Chains
  import opened TimerCalls
  import opened TimerOrder

  /** The calls `cs` make a due timer wait for later, or take it off the list. */
  predicate Leaves(cs: seq<Command>, u: Id, flagged: bool) {
    StartTimer(u) in cs || (flagged && StopTimer(u) in cs)
  }

  /** The due timers that are still due after the calls `cs`. */
  function Stay(e: seq<Id>, cs: seq<Command>, flagged: set<Id>): (r: seq<Id>)
    ensures |r| <= |e| && forall u :: u in r <==> u in e && !Leaves(cs, u, u in flagged)
  {
    if e == [] then []
    else
      assert e == [e[0]] + e[1..];
      (if Leaves(cs, e[0], e[0] in flagged) then [] else [e[0]]) + Stay(e[1..], cs, flagged)
  }

  /** The timers that fire while the loop works off the timers `e` that were due at the start. */
  function FirstPass(e: seq<Id>, script: map<Id, seq<Command>>, flagged: set<Id>): (r: seq<Id>)
    ensures |r| <= |e| && forall u :: u in r ==> u in e
    decreases |e|
  {
    if e == [] then []
    else
      assert e == [e[0]] + e[1..];
      [e[0]] + FirstPass(Stay(e[1..], Calls(script, e[0]), flagged), script, flagged)
  }

  /** A due timer with a period of no ticks that its own timeout function leaves active and that no other one
      that fires names. */
  ghost predicate GoesOn(script: map<Id, seq<Command>>, e: seq<Id>, flagged: set<Id>, periodic: set<Id>,
                         initTick: map<Id, nat>, u: Id) {
    && u in e && u in periodic && u in flagged && u in initTick && initTick[u] == 0
    && EndsStarted(Calls(script, u), u, true)
    && forall t :: t in FirstPass(e, script, flagged) && t != u ==> Unnamed(Calls(script, t), u)
  }

  lemma Assoc(a: seq<Id>, b: seq<Id>, c: seq<Id>)
    ensures (a + b) + c == a + (b + c)
  {
  }

  lemma NoneStay(cs: seq<Command>, flagged: set<Id>)
    ensures Stay([], cs, flagged) == []
  {
  }

  lemma StayOf(e: seq<Id>, cs: seq<Command>, flagged: set<Id>)
    requires e != []
    ensures Stay(e, cs, flagged) == (if Leaves(cs, e[0], e[0] in flagged) then [] else [e[0]]) + Stay(e[1..], cs,
            flagged)
  {
  }

  lemma StayAlone(u: Id, cs: seq<Command>, flagged: set<Id>)
    ensures Stay([u], cs, flagged) == if Leaves(cs, u, u in flagged) then [] else [u]
  {
    assert [u][1..] == [];
  }

  lemma {:induction false} StayAppend(a: seq<Id>, b: seq<Id>, cs: seq<Command>, flagged: set<Id>)
    ensures Stay(a + b, cs, flagged) == Stay(a, cs, flagged) + Stay(b, cs, flagged)
  {
    hide Leaves, Stay;
    if a == [] {
      assert a + b == b;
      NoneStay(cs, flagged);
    } else {
      StayAppend(a[1..], b, cs, flagged);
      assert (a + b)[0] == a[0] && (a + b)[1..] == a[1..] + b;
      StayOf(a, cs, flagged);
      StayOf(a + b, cs, flagged);
      Assoc(if Leaves(cs, a[0], a[0] in flagged) then [] else [a[0]], Stay(a[1..], cs, flagged), Stay(b, cs, flagged));
    }
  }

  lemma {:induction false} StayFrame(e: seq<Id>, cs: seq<Command>, flagged: set<Id>, flagged': set<Id>)
    requires forall u :: u in e ==> (u in flagged <==> u in flagged')
    ensures Stay(e, cs, flagged) == Stay(e, cs, flagged')
  {
    if e != [] {
      StayFrame(e[1..], cs, flagged, flagged');
    }
  }

  lemma {:induction false} StayDistinct(e: seq<Id>, cs: seq<Command>, flagged: set<Id>)
    requires Distinct(e)
    ensures Distinct(Stay(e, cs, flagged))
  {
    if e != [] {
      StayDistinct(e[1..], cs, flagged);
      assert e[0] !in e[1..];
    }
  }

  lemma {:induction false} StayAll(e: seq<Id>, cs: seq<Command>, flagged: set<Id>)
    requires forall u :: u in e ==> !Leaves(cs, u, u in flagged)
    ensures Stay(e, cs, flagged) == e
  {
    if e != [] {
      assert e == [e[0]] + e[1..];
      StayAll(e[1..], cs, flagged);
    }
  }

  lemma {:induction false} StayOne(e: seq<Id>, c: Command, flagged: set<Id>)
    requires Distinct(e)
    ensures Stay(e, [c], flagged) == if c.StartTimer? || c.timer in flagged then Without(e, c.timer) else e
  {
    if e != [] {
      assert e == [e[0]] + e[1..] && e[0] !in e[1..];
      assert c in [c];
      if e[0] == c.timer && (c.StartTimer? || c.timer in flagged) {
        StayAll(e[1..], [c], flagged);
      } else {
        StayOne(e[1..], c, flagged);
      }
    }
  }

  /** One call after others. */
  lemma {:induction false} StayThen(e: seq<Id>, cs: seq<Command>, c: Command, flagged: set<Id>, flagged': set<Id>)
    requires forall u :: u in Stay(e, cs, flagged) ==> (u in flagged <==> u in flagged')
    ensures Stay(Stay(e, cs, flagged), [c], flagged') == Stay(e, cs + [c], flagged)
  {
    if e != [] {
      StayThen(e[1..], cs, c, flagged, flagged');
      StayAppend(if Leaves(cs, e[0], e[0] in flagged) then [] else [e[0]], Stay(e[1..], cs, flagged), [c], flagged');
      if !Leaves(cs, e[0], e[0] in flagged) {
        assert e[0] in Stay(e, cs, flagged);
        assert [e[0]][1..] == [];
      }
    }
  }

  lemma {:induction false} PassFrame(e: seq<Id>, script: map<Id, seq<Command>>, flagged: set<Id>, flagged': set<Id>)
    requires forall u :: u in e ==> (u in flagged <==> u in flagged')
    ensures FirstPass(e, script, flagged) == FirstPass(e, script, flagged')
    decreases |e|
  {
    if e != [] {
      assert e == [e[0]] + e[1..];
      StayFrame(e[1..], Calls(script, e[0]), flagged, flagged');
      PassFrame(Stay(e[1..], Calls(script, e[0]), flagged), script, flagged, flagged');
    }
  }

  /** A timer that is due once more at the end fires after the others, if at all. */
  lemma {:induction false} PassAppend(e: seq<Id>, t: Id, script: map<Id, seq<Command>>, flagged: set<Id>)
    ensures forall u :: u in FirstPass(e + [t], script, flagged) ==> u == t || u in FirstPass(e, script, flagged)
    decreases |e|
  {
    hide Leaves, Stay;
    if e == [] {
      assert e + [t] == [t];
    } else {
      var cs := Calls(script, e[0]);
      assert (e + [t])[0] == e[0] && (e + [t])[1..] == e[1..] + [t];
      StayAppend(e[1..], [t], cs, flagged);
      StayAlone(t, cs, flagged);
      if Leaves(cs, t, t in flagged) {
        assert Stay(e[1..], cs, flagged) + [] == Stay(e[1..], cs, flagged);
      } else {
        PassAppend(Stay(e[1..], cs, flagged), t, script, flagged);
      }
    }
  }

  /** If no timeout function names a timer due after it, all fire. */
  lemma {:induction false} PassUndisturbed(e: seq<Id>, script: map<Id, seq<Command>>, flagged: set<Id>)
    requires Undisturbed(e, script)
    ensures FirstPass(e, script, flagged) == e
  {
    if e != [] {
      var cs, rest := Calls(script, e[0]), e[1..];
      forall u | u in rest
        ensures !Leaves(cs, u, u in flagged)
      {
        var j :| 0 < j < |e| && e[j] == u;
        assert Unnamed(Calls(script, e[0]), e[j]);
      }
      StayAll(rest, cs, flagged);
      forall i, j | 0 <= i < j < |rest|
        ensures Unnamed(Calls(script, rest[i]), rest[j])
      {
        assert Unnamed(Calls(script, e[i + 1]), e[j + 1]);
      }
      PassUndisturbed(rest, script, flagged);
    }
  }

  lemma PassOf(e: seq<Id>, script: map<Id, seq<Command>>, flagged: set<Id>)
    requires e != []
    ensures FirstPass(e, script, flagged) == [e[0]] + FirstPass(Stay(e[1..], Calls(script, e[0]), flagged), script,
            flagged)
  {
  }

  lemma FirstOf(e: seq<Id>, script: map<Id, seq<Command>>, flagged: set<Id>)
    requires e != []
    ensures forall u :: u in FirstPass(e, script, flagged) <==>
              u == e[0] || u in FirstPass(Stay(e[1..], Calls(script, e[0]), flagged), script, flagged)
  {
  }

  lemma Shifted(a: seq<Id>, u: Id, b: seq<Id>)
    requires a != [] && u !in a && u !in b
    ensures (a + [u] + b)[0] == a[0] && (a + [u] + b)[1..] == a[1..] + [u] + b && u !in a[1..] && u != a[0]
  {
  }

  /** A due timer fires exactly if no timer that is due before it, and fires, makes it leave. */
  lemma {:induction false} FiresIff(a: seq<Id>, u: Id, b: seq<Id>, script: map<Id, seq<Command>>, flagged: set<Id>)
    requires u !in a && u !in b
    ensures u in FirstPass(a + [u] + b, script, flagged)
            <==> forall t :: t in FirstPass(a, script, flagged) ==> !Leaves(Calls(script, t), u, u in flagged)
    decreases |a|
  {
    hide Leaves, Stay;
    if a == [] {
      assert (a + [u] + b)[0] == u;
    } else {
      var cs := Calls(script, a[0]);
      Shifted(a, u, b);
      StayAppend(a[1..] + [u], b, cs, flagged);
      StayAppend(a[1..], [u], cs, flagged);
      StayAlone(u, cs, flagged);
      var a', b' := Stay(a[1..], cs, flagged), Stay(b, cs, flagged);
      FirstOf(a, script, flagged);
      FirstOf(a + [u] + b, script, flagged);
      if Leaves(cs, u, u in flagged) {
        assert a' + [] == a';
        assert u !in a' + b';
      } else {
        FiresIff(a', u, b', script, flagged);
      }
    }
  }
}
