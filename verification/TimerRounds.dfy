/** Rounds of the firing loop, on what can be seen of the timer list: what a round changes, which timers fire,
    and when the loop ends. */
module TimerRounds {
  import opened Chains
  import opened FirstPasses
  import opened TimerCalls
  import opened TimerOrder

  /** What can be seen of the list: the last row, the flags, what is due, and the expiries. */
  datatype View = View(row: seq<Id>, flagged: set<Id>, expired: seq<Id>, due: map<Id, int>, stamp: map<Id, nat>) {
    ghost predicate Ok() {
      Distinct(expired) && forall u :: u in row ==> u in due && u in stamp
    }

    function MarkOf(u: Id): Mark {
      Mark(u in row, u in flagged)
    }

    /** Timers are listed exactly while they are flagged. */
    ghost predicate Agrees() {
      forall u :: u in row <==> u in flagged
    }
  }

  ghost predicate SameExpiry(v: View, w: View, u: Id) {
    u in v.due && u in v.stamp && u in w.due && u in w.stamp && w.due[u] == v.due[u] && w.stamp[u] == v.stamp[u]
  }

  /** What is due in `w` has the flag it had in `v`. */
  ghost predicate SameFlags(v: View, w: View) {
    forall u :: u in w.expired ==> (u in w.flagged <==> u in v.flagged)
  }

  /** How the calls `cs` of a timeout function change the list. */
  ghost predicate Touched(cs: seq<Command>, v: View, w: View) {
    && (forall u :: w.MarkOf(u) == AfterCalls(cs, u, v.MarkOf(u)))
    && (forall u :: Unnamed(cs, u) && u in w.row ==> SameExpiry(v, w, u))
    && w.expired == Stay(v.expired, cs, v.flagged) && SameFlags(v, w)
  }

  lemma NoneTouched(v: View)
    requires v.Ok()
    ensures Touched([], v, v)
  {
    StayAll(v.expired, [], v.flagged);
  }

  lemma StartTouches(t: Id, v: View, w: View)
    requires w.flagged == v.flagged + {t} && forall u :: u in w.row <==> u in v.row || u == t
    requires v.Ok() && w.Ok() && forall u :: u != t && u in w.row ==> SameExpiry(v, w, u)
    requires w.expired == Without(v.expired, t)
    ensures Touched([StartTimer(t)], v, w)
  {
    OneCall(StartTimer(t));
    StayOne(v.expired, StartTimer(t), v.flagged);
    WithoutDistinct(v.expired, t);
  }

  lemma StopTouches(t: Id, v: View, w: View)
    requires if t in v.flagged then w.flagged == v.flagged - {t} && forall u :: u in w.row <==> u in v.row && u != t
             else w == v
    requires v.Ok() && w.due == v.due && w.stamp == v.stamp
    requires t in v.flagged ==> w.expired == Without(v.expired, t)
    ensures Touched([StopTimer(t)], v, w)
  {
    OneCall(StopTimer(t));
    StayOne(v.expired, StopTimer(t), v.flagged);
    WithoutDistinct(v.expired, t);
  }

  lemma OneCall(c: Command)
    ensures forall u, m :: AfterCalls([c], u, m) == AfterCall(c, u, m)
    ensures forall u :: Unnamed([c], u) <==> c.timer != u
  {
    forall u
      ensures Unnamed([c], u) <==> c.timer != u
    {
      assert c in [c];
    }
  }

  lemma OneMore(cs: seq<Command>, c: Command, v: View, w: View, x: View)
    requires Touched(cs, v, w) && Touched([c], w, x)
    ensures Touched(cs + [c], v, x)
  {
    var ds := cs + [c];
    assert ds[..|ds| - 1] == cs && ds[|ds| - 1] == c && c in ds;
    OneCall(c);
    StayThen(v.expired, cs, c, v.flagged, w.flagged);
    assert forall d :: d in cs ==> d in ds;
    forall u | Unnamed(ds, u) && u in x.row
      ensures SameExpiry(v, x, u)
    {
      assert Unnamed(cs, u) && Unnamed([c], u) && x.MarkOf(u) == w.MarkOf(u);
    }
    forall u
      ensures x.MarkOf(u) == AfterCalls(ds, u, v.MarkOf(u))
    {
      assert w.MarkOf(u) == AfterCalls(cs, u, v.MarkOf(u));
    }
  }

  /** The head timer `t` was taken off the list and its timeout function has made the calls `cs`. */
  ghost predicate Expires(t: Id, cs: seq<Command>, v: View, w: View) {
    && (forall u :: w.MarkOf(u) == AfterCalls(cs, u, if u == t then Mark(false, v.MarkOf(t).flagged) else v.MarkOf(u)))
    && (forall u :: u != t && Unnamed(cs, u) && u in w.row ==> SameExpiry(v, w, u))
    && v.expired != [] && v.expired[0] == t && t !in v.expired[1..]
    && w.expired == Stay(v.expired[1..], cs, v.flagged) && SameFlags(v, w)
  }

  lemma ExpiresIntro(t: Id, cs: seq<Command>, v: View, v': View, w: View)
    requires v.expired == [t] + v'.expired && t !in v'.expired && v'.flagged == v.flagged && v'.due == v.due &&
             v'.stamp == v.stamp
    requires (forall u :: u in v'.row <==> u in v.row && u != t) && Touched(cs, v', w)
    ensures Expires(t, cs, v, w)
  {
    assert v.expired[1..] == v'.expired;
    assert forall u :: v'.MarkOf(u) == if u == t then Mark(false, v.MarkOf(t).flagged) else v.MarkOf(u);
  }

  lemma LastInCalls(t: Id, cs: seq<Command>, v: View, w: View)
    requires Expires(t, cs, v, w)
    ensures t !in w.expired && (t in w.flagged <==> EndsStarted(cs, t, t in v.flagged))
  {
    assert w.MarkOf(t) == AfterCalls(cs, t, Mark(false, t in v.flagged));
    LastCallDecides(cs, t, Mark(false, t in v.flagged));
  }

  /** A round for the timer `t` with the given period, whose timeout function makes the calls `cs`. */
  ghost predicate Round(t: Id, cs: seq<Command>, periodic: bool, clock: int, period: int, v: View, x: View) {
    var rearms := periodic && EndsStarted(cs, t, t in v.flagged);
    && (forall u :: x.MarkOf(u) == if u == t then AfterFiring(cs, t, v.MarkOf(t), periodic) else AfterCalls(cs, u,
      v.MarkOf(u)))
    && (forall u :: u != t && Unnamed(cs, u) && u in x.row ==> SameExpiry(v, x, u))
    && (rearms ==> t in x.due && x.due[t] == clock + period)
    && v.expired != [] && v.expired[0] == t
    // what the calls leave due stays so, in order; the timer itself is due last if it is listed again for now
    && t !in v.expired[1..]
    && x.expired == Stay(v.expired[1..], cs, v.flagged) + (if rearms && period == 0 then [t] else [])
    && (forall u :: u != t && u in x.expired ==> (u in x.flagged <==> u in v.flagged))
  }

  /** The end of a round: a periodic timer that is flagged is listed again, any other one loses its flag. */
  ghost predicate Relisted(t: Id, periodic: bool, clock: int, period: int, w: View, x: View) {
    && x.Ok() && w.Ok()
    && (forall u :: u != t ==> x.MarkOf(u) == w.MarkOf(u) && (u in x.row ==> SameExpiry(w, x, u)))
    && (if periodic && t in w.flagged then t in x.row && t in x.flagged && t in x.due && x.due[t] == clock + period
        else t !in x.flagged && x.row == w.row && x.due == w.due)
    && x.expired == w.expired + (if periodic && t in w.flagged && period == 0 then [t] else [])
  }

  lemma RelistedIntro(t: Id, periodic: bool, clock: int, period: int, w: View, x: View)
    requires x.Ok() && w.Ok()
    requires forall u :: u != t ==> (u in x.row <==> u in w.row) && (u in x.flagged <==> u in w.flagged)
    requires forall u :: u != t && u in x.row ==> SameExpiry(w, x, u)
    requires if periodic && t in w.flagged then t in x.row && t in x.flagged && t in x.due && x.due[t] == clock + period
             else t !in x.flagged && x.row == w.row && x.due == w.due
    requires x.expired == w.expired + (if periodic && t in w.flagged && period == 0 then [t] else [])
    ensures Relisted(t, periodic, clock, period, w, x)
  {
  }

  lemma RoundIntro(t: Id, cs: seq<Command>, periodic: bool, clock: int, period: int, v: View, w: View, x: View)
    requires Expires(t, cs, v, w) && period >= 0 && Relisted(t, periodic, clock, period, w, x)
    ensures Round(t, cs, periodic, clock, period, v, x)
  {
    hide EndsStarted, AfterCalls;
    LastInCalls(t, cs, v, w);
    assert w.MarkOf(t) == AfterCalls(cs, t, Mark(false, v.MarkOf(t).flagged));
    forall u
      ensures x.MarkOf(u) == if u == t then AfterFiring(cs, t, v.MarkOf(t), periodic)
              else AfterCalls(cs, u, v.MarkOf(u))
    {
      assert u != t ==> x.MarkOf(u) == w.MarkOf(u);
    }
    forall u | u != t && Unnamed(cs, u) && u in x.row
      ensures SameExpiry(v, x, u)
    {
      assert SameExpiry(v, w, u) && SameExpiry(w, x, u);
    }
    forall u | u != t && u in x.expired
      ensures u in x.flagged <==> u in v.flagged
    {
      assert u in w.expired && x.MarkOf(u) == w.MarkOf(u);
    }
  }

  /** A period that the tick comparison can still tell from a timer overdue by `late` ticks. */
  ghost predicate Comparable(late: nat, ticks: int) {
    ticks < HALF && late + ticks <= 0x8000_0001
  }

  /** Of the timers that fire: their calls start only timers of at least one tick, and their own periods, if
      they are left active, can be compared. */
  ghost predicate Playable(script: map<Id, seq<Command>>, v: View, periodic: set<Id>, initTick: map<Id, nat>,
                           late: nat) {
    forall u :: u in FirstPass(v.expired, script, v.flagged) ==> PlayableAt(script, v, periodic, initTick, late, u)
  }

  ghost predicate PlayableAt(script: map<Id, seq<Command>>, v: View, periodic: set<Id>, initTick: map<Id, nat>,
                             late: nat, u: Id) {
    && (forall c :: c in Calls(script, u) ==> Allowed(c, initTick, late))
    && (u in periodic && EndsStarted(Calls(script, u), u, u in v.flagged) ==>
      u in initTick && Comparable(late, initTick[u]))
  }

  ghost predicate Allowed(c: Command, initTick: map<Id, nat>, late: nat) {
    c.StartTimer? ==> c.timer in initTick && 0 < initTick[c.timer] && Comparable(late, initTick[c.timer])
  }

  /** A timer with a period of no ticks is left active only if it was, and if its own calls do not name it. */
  lemma OwnCalls(cs: seq<Command>, t: Id, flagged: bool, initTick: map<Id, nat>, late: nat)
    requires (forall c :: c in cs ==> Allowed(c, initTick, late)) && EndsStarted(cs, t, flagged) && t in initTick &&
             initTick[t] == 0
    ensures flagged && Unnamed(cs, t)
  {
    assert StartTimer(t) in cs ==> Allowed(StartTimer(t), initTick, late);
    NotStarted(cs, t, flagged);
  }

  /** What fires after a round would have fired without it, with the same flags. */
  lemma RoundShrinks(script: map<Id, seq<Command>>, v: View, x: View, periodic: set<Id>, initTick: map<Id, nat>,
                     late: nat, clock: int, t: Id)
    requires t in initTick && Round(t, Calls(script, t), t in periodic, clock, initTick[t], v, x)
    requires PlayableAt(script, v, periodic, initTick, late, t)
    ensures t in FirstPass(v.expired, script, v.flagged)
    ensures forall u :: u in FirstPass(x.expired, script, x.flagged) ==>
              u in FirstPass(v.expired, script, v.flagged) && (u in x.flagged <==> u in v.flagged)
  {
    hide AfterCalls, EndsStarted;
    var cs := Calls(script, t);
    var rest, again := Stay(v.expired[1..], cs, v.flagged), t in periodic && EndsStarted(cs, t, t in v.flagged) &&
      initTick[t] == 0;
    FirstOf(v.expired, script, v.flagged);
    if again {
      OwnCalls(cs, t, t in v.flagged, initTick, late);
      FiringDecides(cs, t, v.MarkOf(t), t in periodic);
      assert x.MarkOf(t) == AfterFiring(cs, t, v.MarkOf(t), t in periodic);
      PassAppend(rest, t, script, x.flagged);
    } else {
      assert rest + [] == rest;
    }
    PassFrame(rest, script, x.flagged, v.flagged);
  }

  lemma PlaysFirst(script: map<Id, seq<Command>>, v: View, periodic: set<Id>, initTick: map<Id, nat>, late: nat)
    requires Playable(script, v, periodic, initTick, late) && v.expired != []
    ensures PlayableAt(script, v, periodic, initTick, late, v.expired[0])
  {
    FirstOf(v.expired, script, v.flagged);
  }

  lemma PlayableAfter(script: map<Id, seq<Command>>, v: View, x: View, periodic: set<Id>, initTick: map<Id, nat>,
                      late: nat, clock: int, t: Id)
    requires Playable(script, v, periodic, initTick, late) && t in initTick && v.expired != [] && v.expired[0] == t
    requires Round(t, Calls(script, t), t in periodic, clock, initTick[t], v, x)
    ensures Playable(script, x, periodic, initTick, late)
  {
    hide Round, EndsStarted, Allowed;
    FirstOf(v.expired, script, v.flagged);
    RoundShrinks(script, v, x, periodic, initTick, late, clock, t);
    forall u | u in FirstPass(x.expired, script, x.flagged)
      ensures PlayableAt(script, x, periodic, initTick, late, u)
    {
      assert PlayableAt(script, v, periodic, initTick, late, u);
    }
  }

  /** A timer that keeps the loop going still does after a round. */
  lemma GoesOnAfter(script: map<Id, seq<Command>>, v: View, x: View, periodic: set<Id>, initTick: map<Id, nat>,
                    late: nat, clock: int, t: Id, u: Id)
    requires PlayableAt(script, v, periodic, initTick, late, t) && t in initTick
    requires Round(t, Calls(script, t), t in periodic, clock, initTick[t], v, x)
    requires GoesOn(script, v.expired, v.flagged, periodic, initTick, u)
    ensures GoesOn(script, x.expired, x.flagged, periodic, initTick, u)
  {
    hide AfterCalls, EndsStarted;
    var cs := Calls(script, t);
    RoundShrinks(script, v, x, periodic, initTick, late, clock, t);
    assert v.expired == [v.expired[0]] + v.expired[1..];
    if u == t {
      FiringDecides(cs, t, v.MarkOf(t), true);
      assert x.MarkOf(t) == AfterFiring(cs, t, v.MarkOf(t), true);
    } else {
      assert u in Stay(v.expired[1..], cs, v.flagged);
    }
  }

  /** The loop, started in `v`, has fired `fired` and come to `x`.  Of what is due, `first` has not fired yet
      and no timer that has fired makes it leave; `again` has fired, and was listed again for now. */
  ghost predicate Progress(script: map<Id, seq<Command>>, v: View, fired: seq<Id>, first: seq<Id>, again: seq<Id>,
                           x: View,
                           periodic: set<Id>, initTick: map<Id, nat>) {
    && x.expired == first + again
    && fired + FirstPass(first, script, v.flagged) == FirstPass(v.expired, script, v.flagged)
    && Distinct(fired) && Distinct(first)
    && (forall u :: u in fired ==> u in v.expired)
    && (forall u :: u in first ==> Waits(script, v, fired, x, u))
    && (forall u :: u in again ==> Again(script, v, fired, x, periodic, initTick, u))
    && forall u :: x.MarkOf(u) == AfterRounds(fired, script, u, v.MarkOf(u), u in periodic)
  }

  ghost predicate Waits(script: map<Id, seq<Command>>, v: View, fired: seq<Id>, x: View, u: Id) {
    && u in v.expired && u !in fired && (u in x.flagged <==> u in v.flagged)
    && forall t :: t in fired ==> !Leaves(Calls(script, t), u, u in v.flagged)
  }

  ghost predicate Again(script: map<Id, seq<Command>>, v: View, fired: seq<Id>, x: View, periodic: set<Id>,
                        initTick: map<Id, nat>, u: Id) {
    && u in fired && u in periodic && u in v.flagged && u in x.flagged && u in initTick && initTick[u] == 0
    && EndsStarted(Calls(script, u), u, true)
    && forall t :: t in fired && t != u ==> Unnamed(Calls(script, t), u)
  }

  lemma BeginProgress(script: map<Id, seq<Command>>, v: View, periodic: set<Id>, initTick: map<Id, nat>)
    requires Distinct(v.expired)
    ensures Progress(script, v, [], v.expired, [], v, periodic, initTick)
  {
    assert v.expired + [] == v.expired;
  }

  /** While timers are left that have not fired, the head of the list is the first of them. */
  lemma HeadWaits(script: map<Id, seq<Command>>, v: View, fired: seq<Id>, first: seq<Id>, again: seq<Id>, x: View,
                  periodic: set<Id>, initTick: map<Id, nat>)
    requires Progress(script, v, fired, first, again, x, periodic, initTick) && first != [] && x.expired != []
    ensures x.expired[0] == first[0] && x.expired[1..] == first[1..] + again && first[0] in x.expired
    ensures first[0] in FirstPass(v.expired, script, v.flagged) && |fired| < |FirstPass(v.expired, script, v.flagged)|
  {
    assert FirstPass(first, script, v.flagged)[0] == first[0];
    assert first[0] in fired + FirstPass(first, script, v.flagged);
  }

  /** When all have fired, what is due keeps the loop going. */
  lemma AgainGoesOn(script: map<Id, seq<Command>>, v: View, fired: seq<Id>, again: seq<Id>, x: View,
                    periodic: set<Id>, initTick: map<Id, nat>)
    requires Progress(script, v, fired, [], again, x, periodic, initTick)
    ensures fired == FirstPass(v.expired, script, v.flagged)
    ensures x.expired != [] ==> GoesOn(script, v.expired, v.flagged, periodic, initTick, x.expired[0])
  {
    assert fired + [] == fired && [] + again == again;
    if again != [] {
      assert again[0] in again;
      assert Again(script, v, fired, x, periodic, initTick, again[0]);
    }
  }

  /** Of the timers that were due, those that are still waiting after the round of `t`. */
  lemma WaitsOn(script: map<Id, seq<Command>>, v: View, fired: seq<Id>, w: View, x: View, periodic: set<Id>,
                clock: int, t: Id, period: int, u: Id)
    requires Waits(script, v, fired, w, u) && u != t && !Leaves(Calls(script, t), u, u in v.flagged)
    requires Round(t, Calls(script, t), t in periodic, clock, period, w, x) && u in x.expired
    ensures Waits(script, v, fired + [t], x, u)
  {
    hide AfterCalls, EndsStarted, Leaves;
  }

  /** Of those listed again for now, the ones that stay due after the round of `t`. */
  lemma AgainOn(script: map<Id, seq<Command>>, v: View, fired: seq<Id>, w: View, x: View, periodic: set<Id>,
                initTick: map<Id, nat>,
                clock: int, t: Id, period: int, u: Id)
    requires Again(script, v, fired, w, periodic, initTick, u) && u != t && !Leaves(Calls(script, t), u, u in w.flagged)
    requires Round(t, Calls(script, t), t in periodic, clock, period, w, x) && u in x.expired
    ensures Again(script, v, fired + [t], x, periodic, initTick, u)
  {
    hide AfterCalls, EndsStarted;
  }

  /** `t` itself, if it is listed again for now. */
  lemma AgainSelf(script: map<Id, seq<Command>>, v: View, fired: seq<Id>, w: View, x: View, periodic: set<Id>,
                  initTick: map<Id, nat>,
                  late: nat, clock: int, t: Id)
    requires Waits(script, v, fired, w, t) && PlayableAt(script, w, periodic, initTick, late, t) && t in initTick &&
             initTick[t] == 0
    requires t in periodic && EndsStarted(Calls(script, t), t, t in w.flagged)
    requires Round(t, Calls(script, t), true, clock, 0, w, x)
    ensures Again(script, v, fired + [t], x, periodic, initTick, t)
  {
    hide AfterCalls, EndsStarted;
    OwnCalls(Calls(script, t), t, t in w.flagged, initTick, late);
    FiringDecides(Calls(script, t), t, w.MarkOf(t), true);
    assert x.MarkOf(t) == AfterFiring(Calls(script, t), t, w.MarkOf(t), true);
  }

  lemma ProgressStep(script: map<Id, seq<Command>>, v: View, fired: seq<Id>, first: seq<Id>, again: seq<Id>, w: View,
                     x: View,
                     periodic: set<Id>, initTick: map<Id, nat>, late: nat, clock: int)
    returns (first': seq<Id>, again': seq<Id>)
    requires Progress(script, v, fired, first, again, w, periodic, initTick) && first != [] && first[0] in initTick
    requires PlayableAt(script, w, periodic, initTick, late, first[0])
    requires Round(first[0], Calls(script, first[0]), first[0] in periodic, clock, initTick[first[0]], w, x)
    ensures |first'| < |first| && Progress(script, v, fired + [first[0]], first', again', x, periodic, initTick)
  {
    var t, cs := first[0], Calls(script, first[0]);
    var self := if t in periodic && EndsStarted(cs, t, t in w.flagged) && initTick[t] == 0 then [t] else [];
    first', again' := Stay(first[1..], cs, v.flagged), Stay(again, cs, w.flagged) + self;
    StepDue(script, v, fired, first, again, w, x, periodic, initTick, clock, self);
    StepFirst(script, v, fired, first, again, w, x, periodic, initTick, clock);
    StepAgain(script, v, fired, first, again, w, x, periodic, initTick, late, clock, self);
    StepMarks(script, v, fired, first, again, w, x, periodic, initTick, clock);
  }

  lemma StepDue(script: map<Id, seq<Command>>, v: View, fired: seq<Id>, first: seq<Id>, again: seq<Id>, w: View,
                x: View,
                periodic: set<Id>, initTick: map<Id, nat>, clock: int, self: seq<Id>)
    requires Progress(script, v, fired, first, again, w, periodic, initTick) && first != [] && first[0] in initTick
    requires Round(first[0], Calls(script, first[0]), first[0] in periodic, clock, initTick[first[0]], w, x)
    requires self == if first[0] in periodic &&
             EndsStarted(Calls(script, first[0]), first[0], first[0] in w.flagged) &&
             initTick[first[0]] == 0 then [first[0]] else []
    ensures var cs := Calls(script, first[0]);
            x.expired == Stay(first[1..], cs, v.flagged) + (Stay(again, cs, w.flagged) + self)
  {
    hide AfterCalls, EndsStarted, Leaves, Stay, FirstPass, AfterRounds, Again;
    var cs := Calls(script, first[0]);
    assert w.expired[1..] == first[1..] + again;
    StayAppend(first[1..], again, cs, w.flagged);
    forall u | u in first[1..]
      ensures u in w.flagged <==> u in v.flagged
    {
      assert Waits(script, v, fired, w, u);
    }
    StayFrame(first[1..], cs, w.flagged, v.flagged);
    Assoc(Stay(first[1..], cs, v.flagged), Stay(again, cs, w.flagged), self);
  }

  lemma StepFirst(script: map<Id, seq<Command>>, v: View, fired: seq<Id>, first: seq<Id>, again: seq<Id>, w: View,
                  x: View,
                  periodic: set<Id>, initTick: map<Id, nat>, clock: int)
    requires Progress(script, v, fired, first, again, w, periodic, initTick) && first != [] && first[0] in initTick
    requires Round(first[0], Calls(script, first[0]), first[0] in periodic, clock, initTick[first[0]], w, x)
    requires forall u :: u in Stay(first[1..], Calls(script, first[0]), v.flagged) ==> u in x.expired
    ensures var t, cs := first[0], Calls(script, first[0]); var first' := Stay(first[1..], cs, v.flagged);
      && (fired + [t]) + FirstPass(first', script, v.flagged) == FirstPass(v.expired, script, v.flagged)
      && Distinct(fired + [t]) && Distinct(first') && (forall u :: u in fired + [t] ==> u in v.expired)
      && forall u :: u in first' ==> Waits(script, v, fired + [t], x, u)
  {
    hide AfterCalls, EndsStarted, Leaves, AfterRounds, Again, Round, Stay, FirstPass;
    var t, cs := first[0], Calls(script, first[0]);
    PassOf(first, script, v.flagged);
    assert first == [t] + first[1..] && Waits(script, v, fired, w, t);
    StayDistinct(first[1..], cs, v.flagged);
    Assoc(fired, [t], FirstPass(Stay(first[1..], cs, v.flagged), script, v.flagged));
    forall u | u in Stay(first[1..], cs, v.flagged)
      ensures Waits(script, v, fired + [t], x, u)
    {
      assert Waits(script, v, fired, w, u) && u != t;
      WaitsOn(script, v, fired, w, x, periodic, clock, t, initTick[t], u);
    }
  }

  lemma StepAgain(script: map<Id, seq<Command>>, v: View, fired: seq<Id>, first: seq<Id>, again: seq<Id>, w: View,
                  x: View,
                  periodic: set<Id>, initTick: map<Id, nat>, late: nat, clock: int, self: seq<Id>)
    requires Progress(script, v, fired, first, again, w, periodic, initTick) && first != [] && first[0] in initTick
    requires PlayableAt(script, w, periodic, initTick, late, first[0])
    requires Round(first[0], Calls(script, first[0]), first[0] in periodic, clock, initTick[first[0]], w, x)
    requires self == if first[0] in periodic &&
             EndsStarted(Calls(script, first[0]), first[0], first[0] in w.flagged) &&
             initTick[first[0]] == 0 then [first[0]] else []
    requires forall u :: u in Stay(again, Calls(script, first[0]), w.flagged) ==> u in x.expired
    ensures forall u :: u in Stay(again, Calls(script, first[0]), w.flagged) + self ==>
            Again(script, v, fired + [first[0]], x, periodic, initTick, u)
  {
    hide AfterCalls, EndsStarted, Leaves, AfterRounds, Round, FirstPass;
    var t, cs := first[0], Calls(script, first[0]);
    assert Waits(script, v, fired, w, t);
    forall u | u in Stay(again, cs, w.flagged)
      ensures Again(script, v, fired + [t], x, periodic, initTick, u)
    {
      assert Again(script, v, fired, w, periodic, initTick, u);
      AgainOn(script, v, fired, w, x, periodic, initTick, clock, t, initTick[t], u);
    }
    if self != [] {
      AgainSelf(script, v, fired, w, x, periodic, initTick, late, clock, t);
    }
  }

  lemma StepMarks(script: map<Id, seq<Command>>, v: View, fired: seq<Id>, first: seq<Id>, again: seq<Id>, w: View,
                  x: View,
                  periodic: set<Id>, initTick: map<Id, nat>, clock: int)
    requires Progress(script, v, fired, first, again, w, periodic, initTick) && first != [] && first[0] in initTick
    requires Round(first[0], Calls(script, first[0]), first[0] in periodic, clock, initTick[first[0]], w, x)
    ensures forall u :: x.MarkOf(u) == AfterRounds(fired + [first[0]], script, u, v.MarkOf(u), u in periodic)
  {
    hide AfterCalls, AfterRounds, AfterFiring, EndsStarted, FirstPass, Stay, Waits, Again;
    forall u
      ensures x.MarkOf(u) == AfterRounds(fired + [first[0]], script, u, v.MarkOf(u), u in periodic)
    {
      RoundAdded(fired, first[0], script, u, v.MarkOf(u), u in periodic);
    }
  }

  lemma ProgressDone(script: map<Id, seq<Command>>, v: View, fired: seq<Id>, x: View, periodic: set<Id>,
                     initTick: map<Id, nat>)
    requires Progress(script, v, fired, [], [], x, periodic, initTick)
    ensures fired == FirstPass(v.expired, script, v.flagged) && Distinct(fired)
    ensures forall u :: x.MarkOf(u) == AfterRounds(fired, script, u, v.MarkOf(u), u in periodic)
    ensures v.Agrees() ==> (x.Agrees() <==> forall u :: !Loose(fired, script, u, u in periodic))
    ensures Undisturbed(v.expired, script) ==> fired == v.expired
    ensures forall u :: Private(fired, script, u) ==>
              (u in x.row <==> if u in fired then EndsStarted(Calls(script, u), u, u in periodic &&
                u in v.flagged) else u in v.row)
  {
    hide EndsStarted, AfterRounds, AfterFiring, AfterCalls, Undisturbed, Loose, Private;
    assert fired + [] == fired;
    if Undisturbed(v.expired, script) {
      PassUndisturbed(v.expired, script, v.flagged);
    }
    forall u
      ensures v.Agrees() ==> ((u in x.row <==> u in x.flagged) <==> !Loose(fired, script, u, u in periodic))
    {
      assert x.MarkOf(u) == AfterRounds(fired, script, u, v.MarkOf(u), u in periodic);
      if v.Agrees() {
        LooseIff(fired, script, u, v.MarkOf(u), u in periodic);
      }
    }
    forall u | Private(fired, script, u)
      ensures u in x.row <==> if u in fired then EndsStarted(Calls(script, u), u, u in periodic && u in v.flagged)
              else u in v.row
    {
      assert x.MarkOf(u) == AfterRounds(fired, script, u, v.MarkOf(u), u in periodic);
      PrivateRounds(fired, script, u, v.MarkOf(u), u in periodic);
      FiringDecides(Calls(script, u), u, v.MarkOf(u), u in periodic);
    }
  }

  lemma RoundKeeps(t: Id, cs: seq<Command>, periodic: bool, clock: int, period: int, v: View, x: View)
    requires Round(t, cs, periodic, clock, period, v, x)
    ensures periodic && EndsStarted(cs, t, t in v.flagged) ==>
            t in x.row && t in x.flagged && t in x.due && x.due[t] == clock + period
    ensures forall u :: u != t && Unnamed(cs, u) ==> x.MarkOf(u) == v.MarkOf(u) && (u in x.row ==> SameExpiry(v, x, u))
    ensures v.Agrees() ==> (x.Agrees() <==> periodic || !EndsStarted(cs, t, false))
  {
    hide EndsStarted, AfterCalls, AfterFiring, Unnamed;
    FiringDecides(cs, t, v.MarkOf(t), periodic);
    assert x.MarkOf(t) == AfterFiring(cs, t, v.MarkOf(t), periodic);
    forall u | u != t
      ensures v.MarkOf(u).listed == v.MarkOf(u).flagged ==> x.MarkOf(u).listed == x.MarkOf(u).flagged
      ensures Unnamed(cs, u) ==> x.MarkOf(u) == v.MarkOf(u)
    {
      if v.MarkOf(u).listed == v.MarkOf(u).flagged { LastCallDecides(cs, u, v.MarkOf(u)); }
      if Unnamed(cs, u) { UnnamedStays(cs, u, v.MarkOf(u)); }
    }
    if v.MarkOf(t).listed == v.MarkOf(t).flagged { LastCallDecides(cs, t, v.MarkOf(t)); }
  }
}
