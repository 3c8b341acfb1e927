/** Event sets: threads suspended until all, or any, of the bits they ask for are present.  A 32-bit
    word is modelled as the set of the numbers of its one bits. */
module Events {
  import opened Chains
  import opened Waiters

  type Bit = x: nat | x < 32

  /** thread->event_set and thread->event_info: all bits (AND) or any (OR), and whether to clear them. */
  datatype Ask = Ask(bits: set<Bit>, all: bool, clear: bool)

  datatype Result = Got(bits: set<Bit>) | Sent | Error | TimedOut | Suspended

  predicate Satisfied(present: set<Bit>, a: Ask) {
    if a.all then present * a.bits == a.bits else present * a.bits != {}
  }

  function Cleared(present: set<Bit>, a: Ask): set<Bit> {
    if a.clear then present - a.bits * present else present
  }

  /** A resumed thread, the bits it receives, and the bits that were present when it was chosen. */
  datatype Award = Award(t: Tid, bits: set<Bit>, present: set<Bit>)

  /** What rt_event_send does along the list: the bits left, the threads left, and the awards in order. */
  datatype Outcome = Outcome(present: set<Bit>, left: seq<Tid>, awards: seq<Award>)

  ghost predicate Known(list: seq<Tid>, asks: map<Tid, Ask>) {
    forall t :: t in list ==> t in asks && asks[t].bits != {}
  }

  function Walk(present: set<Bit>, list: seq<Tid>, asks: map<Tid, Ask>): Outcome
    requires Known(list, asks)
  {
    if list == [] then Outcome(present, [], [])
    else
      var t, a := list[0], asks[list[0]];
      if Satisfied(present, a) then
        var rest := Walk(Cleared(present, a), list[1..], asks);
        Outcome(rest.present, rest.left, [Award(t, a.bits * present, present)] + rest.awards)
      else
        var rest := Walk(present, list[1..], asks);
        Outcome(rest.present, [t] + rest.left, rest.awards)
  }

  lemma {:induction false} WalkShrinks(present: set<Bit>, list: seq<Tid>, asks: map<Tid, Ask>)
    requires Known(list, asks)
    ensures Walk(present, list, asks).present <= present
    ensures forall t :: t in Walk(present, list, asks).left ==> t in list
    ensures forall w :: w in Walk(present, list, asks).awards ==> w.t in list
  {
    if list != [] {
      var a := asks[list[0]];
      WalkShrinks(if Satisfied(present, a) then Cleared(present, a) else present, list[1..], asks);
    }
  }

  /** After the walk, every thread that is left lacks what it waits for, though bits were cleared on the way:
      any of its bits with OR, one of its bits with AND. */
  lemma {:induction false} WalkServesAll(present: set<Bit>, list: seq<Tid>, asks: map<Tid, Ask>)
    requires Known(list, asks)
    ensures var o := Walk(present, list, asks);
      forall t :: t in o.left ==>
        t in asks && if asks[t].all then !(asks[t].bits <= o.present) else asks[t].bits * o.present == {}
  {
    if list != [] {
      var a := asks[list[0]];
      var p1 := if Satisfied(present, a) then Cleared(present, a) else present;
      WalkServesAll(p1, list[1..], asks);
      WalkShrinks(p1, list[1..], asks);
    }
  }

  /** The first thread resumed chooses from all bits. */
  lemma {:induction false} WalkStarts(present: set<Bit>, list: seq<Tid>, asks: map<Tid, Ask>)
    requires Known(list, asks)
    ensures var o := Walk(present, list, asks);
      && (o.awards == [] ==> o.present == present)
      && (o.awards != [] ==> o.awards[0].present == present)
  {
    if list != [] && !Satisfied(present, asks[list[0]]) { WalkStarts(present, list[1..], asks); }
  }

  /** The bits change only where a thread that asked to clear its bits is resumed: what it leaves is what the
      next one chooses from, or remains in the set. */
  lemma {:induction false} WalkClears(present: set<Bit>, list: seq<Tid>, asks: map<Tid, Ask>, k: nat)
    requires Known(list, asks) && k < |Walk(present, list, asks).awards|
    ensures var o := Walk(present, list, asks);
      && o.awards[k].t in asks
      && (if k + 1 < |o.awards| then o.awards[k + 1].present else o.present) ==
         if asks[o.awards[k].t].clear then o.awards[k].present - o.awards[k].bits else o.awards[k].present
  {
    var t, a := list[0], asks[list[0]];
    if !Satisfied(present, a) {
      WalkClears(present, list[1..], asks, k);
    } else {
      var o, o1 := Walk(present, list, asks), Walk(Cleared(present, a), list[1..], asks);
      assert o.awards == [Award(t, a.bits * present, present)] + o1.awards;
      if k > 0 {
        WalkClears(Cleared(present, a), list[1..], asks, k - 1);
      } else {
        WalkStarts(Cleared(present, a), list[1..], asks);
      }
    }
  }

  /** Each resumed thread gets those bits it asked for that were present when it was chosen: at least one,
      and all of them if it asked for all. */
  ghost predicate Fair(w: Award, present: set<Bit>, asks: map<Tid, Ask>) {
    && w.t in asks && w.bits != {} && w.bits == asks[w.t].bits * w.present && w.present <= present
    && (asks[w.t].all ==> w.bits == asks[w.t].bits)
  }

  lemma {:induction false} WalkIsFair(present: set<Bit>, list: seq<Tid>, asks: map<Tid, Ask>)
    requires Known(list, asks)
    ensures forall w :: w in Walk(present, list, asks).awards ==> Fair(w, present, asks)
  {
    if list != [] {
      var t, a := list[0], asks[list[0]];
      assert t in list;
      WalkIsFair(if Satisfied(present, a) then Cleared(present, a) else present, list[1..], asks);
    }
  }

  /** A bit that a thread clears goes to no thread after it and is not left in the set. */
  lemma {:induction false} ClearedOnce(present: set<Bit>, list: seq<Tid>, asks: map<Tid, Ask>, i: nat, j: nat)
    requires Known(list, asks)
    requires var ws := Walk(present, list, asks).awards; i < |ws| && ws[i].t in asks && asks[ws[i].t].clear
    ensures var o := Walk(present, list, asks);
      && o.awards[i].bits !! o.present
      && (i < j < |o.awards| ==> o.awards[i].bits !! o.awards[j].bits)
  {
    var a := asks[list[0]];
    var p1 := if Satisfied(present, a) then Cleared(present, a) else present;
    var o1 := Walk(p1, list[1..], asks);
    if !Satisfied(present, a) {
      ClearedOnce(p1, list[1..], asks, i, j);
    } else if i > 0 {
      ClearedOnce(p1, list[1..], asks, i - 1, if j > 0 then j - 1 else 0);
    } else {
      WalkShrinks(p1, list[1..], asks);
      WalkIsFair(p1, list[1..], asks);
      if 0 < j <= |o1.awards| {
        assert o1.awards[j - 1] in o1.awards;
      }
    }
  }

  /** The walk decides on the first thread and goes on with the rest. */
  lemma WalkFirst(present: set<Bit>, list: seq<Tid>, asks: map<Tid, Ask>)
    requires Known(list, asks) && list != []
    ensures list[0] in asks && Known(list[1..], asks)
    ensures var a, o := asks[list[0]], Walk(present, list, asks);
      if Satisfied(present, a) then
        var o1 := Walk(Cleared(present, a), list[1..], asks);
        o.left == o1.left && o.awards == [Award(list[0], a.bits * present, present)] + o1.awards
      else
        var o1 := Walk(present, list[1..], asks);
        o.left == [list[0]] + o1.left && o.awards == o1.awards
  {
  }

  /** The threads left keep the order of the list. */
  lemma {:induction false} LeftInOrder(present: set<Bit>, list: seq<Tid>, asks: map<Tid, Ask>, i: nat, j: nat, a: nat,
                                       b: nat)
    requires Known(list, asks) && Distinct(list) && a < |list| && b < |list|
    requires var o := Walk(present, list, asks); i < j < |o.left| && o.left[i] == list[a] && o.left[j] == list[b]
    ensures a < b
    decreases |list|
  {
    hide Walk, Satisfied, Cleared, Known, Distinct;
    WalkFirst(present, list, asks);
    var ask := asks[list[0]];
    var p1 := if Satisfied(present, ask) then Cleared(present, ask) else present;
    var o, o1 := Walk(present, list, asks), Walk(p1, list[1..], asks);
    WalkShrinks(p1, list[1..], asks);
    var first := if Satisfied(present, ask) then 0 else 1;
    assert o.left[j] == o1.left[j - first] && o1.left[j - first] in o1.left;
    Tail(list, b);
    if i >= first {
      assert o.left[i] == o1.left[i - first] && o1.left[i - first] in o1.left;
      Tail(list, a);
      LeftInOrder(p1, list[1..], asks, i - first, j - first, a - 1, b - 1);
    }
  }

  /** The threads resumed come in the order of the list. */
  lemma {:induction false} AwardsInOrder(present: set<Bit>, list: seq<Tid>, asks: map<Tid, Ask>, i: nat, j: nat,
                                         a: nat, b: nat)
    requires Known(list, asks) && Distinct(list) && a < |list| && b < |list|
    requires var o := Walk(present, list, asks);
             i < j < |o.awards| && o.awards[i].t == list[a] && o.awards[j].t == list[b]
    ensures a < b
    decreases |list|
  {
    hide Walk, Satisfied, Cleared, Known, Distinct;
    WalkFirst(present, list, asks);
    var ask := asks[list[0]];
    var p1 := if Satisfied(present, ask) then Cleared(present, ask) else present;
    var o, o1 := Walk(present, list, asks), Walk(p1, list[1..], asks);
    WalkShrinks(p1, list[1..], asks);
    var first := if Satisfied(present, ask) then 1 else 0;
    assert o.awards[j] == o1.awards[j - first] && o1.awards[j - first] in o1.awards;
    Tail(list, b);
    if i >= first {
      assert o.awards[i] == o1.awards[i - first] && o1.awards[i - first] in o1.awards;
      Tail(list, a);
      AwardsInOrder(p1, list[1..], asks, i - first, j - first, a - 1, b - 1);
    }
  }

  /** A member of the tail stands behind the head. */
  lemma Tail(list: seq<Tid>, a: nat)
    requires Distinct(list) && a < |list|
    ensures list[0] !in list[1..] && Distinct(list[1..])
    ensures list[a] in list[1..] <==> a > 0
    ensures a > 0 ==> list[a] == list[1..][a - 1]
  {
    if a > 0 { assert list[a] == list[1..][a - 1]; }
  }

  /** A thread that is left lacked what it waits for at its own turn already, when more bits may have been
      present: whoever is resumed after it found the set as it did. */
  lemma {:induction false} NobodyPassedOver(present: set<Bit>, list: seq<Tid>, asks: map<Tid, Ask>, a: nat, b: nat,
                                            w: Award)
    requires Known(list, asks) && Distinct(list) && a < b < |list|
    requires var o := Walk(present, list, asks); list[a] in o.left && w in o.awards && w.t == list[b]
    ensures list[a] in asks
    ensures var ask := asks[list[a]]; if ask.all then !(ask.bits <= w.present) else ask.bits * w.present == {}
    decreases |list|
  {
    hide Walk, Cleared, Known, Distinct;
    WalkFirst(present, list, asks);
    var ask := asks[list[0]];
    var p1 := if Satisfied(present, ask) then Cleared(present, ask) else present;
    WalkShrinks(p1, list[1..], asks);
    Tail(list, a);
    Tail(list, b);
    assert w in Walk(p1, list[1..], asks).awards;
    if a > 0 {
      NobodyPassedOver(p1, list[1..], asks, a - 1, b - 1, w);
    } else {
      WalkIsFair(p1, list[1..], asks);
    }
  }

  /** The threads on the list are left or resumed, each once. */
  lemma {:induction false} WalkPartitions(present: set<Bit>, list: seq<Tid>, asks: map<Tid, Ask>)
    requires Known(list, asks) && Distinct(list)
    ensures var o := Walk(present, list, asks);
      && Distinct(o.left)
      && (forall t :: t in list <==> t in o.left || exists w :: w in o.awards && w.t == t)
      && forall w :: w in o.awards ==> w.t !in o.left
  {
    if list != [] {
      var t, a := list[0], asks[list[0]];
      var p1 := if Satisfied(present, a) then Cleared(present, a) else present;
      var o, o1 := Walk(present, list, asks), Walk(p1, list[1..], asks);
      assert list == [t] + list[1..] && t !in list[1..];
      WalkPartitions(p1, list[1..], asks);
      WalkShrinks(p1, list[1..], asks);
      if Satisfied(present, a) {
        assert o.awards[0].t == t && o.awards == [o.awards[0]] + o1.awards;
      } else {
        assert o.left == [t] + o1.left;
      }
    }
  }

  class Event {
    const order: Order
    const prio: Tid -> nat
    var present: set<Bit>             // set
    var waiting: seq<Tid>             // parent.suspend_thread
    var asks: map<Tid, Ask>           // event_set and event_info of the threads

    /** No suspended thread's condition holds. */
    ghost predicate Valid()
      reads this
    {
      Settled(present, waiting, asks)
    }

    constructor (order: Order, prio: Tid -> nat)
      ensures Valid() && present == {} && waiting == [] && this.order == order && this.prio == prio
    {
      this.order, this.prio := order, prio;
      present, waiting, asks := {}, [], map[];
    }

    method Send(bits: set<Bit>) returns (r: Result, ghost awards: seq<Award>)
      requires Valid()
      modifies `present, `waiting, `asks
      ensures Valid()
      ensures bits == {} ==> r == Error && present == old(present) && waiting == old(waiting) && awards == []
      ensures bits != {} ==>
              r == Sent && Outcome(present, waiting, awards) == Walk(old(present) + bits, old(waiting), old(asks))
      ensures forall w :: w in awards ==> w.t in asks && asks[w.t].bits == w.bits
      ensures forall t :: t in waiting ==>
        t in asks && if asks[t].all then !(asks[t].bits <= present) else asks[t].bits * present == {}
    {
      hide Settled, Walk, WalkedTo, Known, Cleared, Satisfied;
      awards := [];
      if bits == {} {
        SettledLack(present, waiting, asks);
        return Error, awards;
      }
      present := present + bits;
      ghost var p0, list, asks0 := present, waiting, asks;
      WalkBegins(old(present), p0, list, asks0);
      var n := 0;
      while n < |waiting|
        invariant n <= |waiting| && (forall t :: t in waiting ==> t in asks)
        invariant Known(list, asks0) && WalkedTo(p0, list, asks0, asks, present, waiting, n, awards)
        decreases |waiting| - n
      {
        var t := waiting[n];
        WalkStep(p0, list, asks0, asks, present, waiting, n, awards);
        if Satisfied(present, asks[t]) {
          awards := awards + [Award(t, asks[t].bits * present, present)];
          asks := asks[t := asks[t].(bits := asks[t].bits * present)];
          present := Cleared(present, asks[t]);
          waiting := waiting[..n] + waiting[n + 1..];
        } else {
          n := n + 1;
        }
      }
      WalkDone(p0, list, asks0, asks, present, waiting, awards);
      return Sent, awards;
    }

    method Recv(t: Tid, bits: set<Bit>, all: bool, clear: bool, wait: bool) returns (r: Result)
      requires Valid() && t !in waiting
      modifies `present, `waiting, `asks
      ensures Valid()
      ensures bits == {} ==> r == Error && present == old(present) && waiting == old(waiting)
      ensures (!all && bits * old(present) != {}) || (all && bits != {} && bits <= old(present)) ==>
                r == Got(bits * old(present)) && waiting == old(waiting) &&
                  present == if clear then old(present) - bits else old(present)
      ensures bits != {} && (if all then !(bits <= old(present)) else bits * old(present) == {}) ==>
                && present == old(present)
                && if wait then
                  && r == Suspended && waiting == Enqueue(old(waiting), t, order, prio)
                  && Joined(old(waiting), t, order, prio, waiting)
                  && asks == old(asks)[t := Ask(bits, all, clear)]
                else r == TimedOut && waiting == old(waiting)
    {
      if bits == {} {
        return Error;
      }
      if (all && present * bits == bits) || (!all && present * bits != {}) {
        r := Got(present * bits);
        asks := asks[t := Ask(present * bits, all, clear)];
        if clear {
          present := present - bits;
        }
        return;
      }
      if !wait {
        return TimedOut;
      }
      asks := asks[t := Ask(bits, all, clear)];
      EnqueueDistinct(waiting, t, order, prio);
      EnqueueJoins(waiting, t, order, prio);
      waiting := Insert(waiting, t, order, prio);
      return Suspended;
    }

    /** The thread timer of a suspended thread. */
    method TimeOut(t: Tid)
      requires Valid() && t in waiting
      modifies `waiting
      ensures Valid() && waiting == Without(old(waiting), t)
    {
      WithoutDistinct(waiting, t);
      waiting := Without(waiting, t);
    }

    /** RT_IPC_CMD_RESET. */
    method Reset()
      requires Valid()
      modifies `waiting, `present
      ensures Valid() && waiting == [] && present == {}
    {
      waiting, present := [], {};
    }
  }

  /** The walk from `p0` over `list` has come to place `n` of what is still on the list. */
  ghost predicate Onward(p0: set<Bit>, list: seq<Tid>, asks: map<Tid, Ask>, present: set<Bit>, waiting: seq<Tid>,
                         n: nat, awards: seq<Award>)
    requires Known(list, asks) && Known(waiting, asks) && n <= |waiting|
  {
    var o := Walk(present, waiting[n..], asks);
    Walk(p0, list, asks) == Outcome(o.present, waiting[..n] + o.left, awards + o.awards)
  }

  lemma OnwardStep(p0: set<Bit>, list: seq<Tid>, asks: map<Tid, Ask>, present: set<Bit>, waiting: seq<Tid>, n: nat,
                   awards: seq<Award>)
    requires Known(list, asks) && Known(waiting, asks) && n < |waiting| &&
             Onward(p0, list, asks, present, waiting, n, awards)
    ensures var t, a, rest := waiting[n], asks[waiting[n]], waiting[..n] + waiting[n + 1..];
      if Satisfied(present, a) then Known(rest, asks) && Onward(p0, list, asks, Cleared(present, a), rest, n,
        awards + [Award(t, a.bits * present, present)])
      else Onward(p0, list, asks, present, waiting, n + 1, awards)
  {
    var t, a, rest := waiting[n], asks[waiting[n]], waiting[..n] + waiting[n + 1..];
    assert waiting[n..][1..] == waiting[n + 1..] && rest[n..] == waiting[n + 1..] && rest[..n] == waiting[..n];
    var o := Walk(present, waiting[n..], asks);
    if Satisfied(present, a) {
      var o1 := Walk(Cleared(present, a), rest[n..], asks);
      var won := [Award(t, a.bits * present, present)];
      assert awards + (won + o1.awards) == (awards + won) + o1.awards;
    } else {
      var o1 := Walk(present, waiting[n + 1..], asks);
      assert waiting[..n] + ([t] + o1.left) == waiting[..n + 1] + o1.left;
    }
  }

  lemma Removed(list: seq<Tid>, n: nat)
    requires Distinct(list) && n < |list|
    ensures Distinct(list[..n] + list[n + 1..])
    ensures forall t :: t in list[..n] + list[n + 1..] <==> t in list && t != list[n]
  {
    assert list == list[..n] + [list[n]] + list[n + 1..];
  }

  /** Nobody's condition holds. */
  ghost predicate Settled(present: set<Bit>, waiting: seq<Tid>, asks: map<Tid, Ask>) {
    && Distinct(waiting) && Known(waiting, asks)
    && forall t :: t in waiting ==>
         if asks[t].all then !(asks[t].bits <= present) else asks[t].bits * present == {}
  }

  lemma SettledLack(present: set<Bit>, waiting: seq<Tid>, asks: map<Tid, Ask>)
    requires Settled(present, waiting, asks)
    ensures forall t :: t in waiting ==>
      t in asks && if asks[t].all then !(asks[t].bits <= present) else asks[t].bits * present == {}
  {
  }

  /** The loop has come to place `n`; the requests of the threads left are those of the start, the requests of
      the resumed ones are what they were awarded. */
  ghost predicate WalkedTo(p0: set<Bit>, list: seq<Tid>, asks0: map<Tid, Ask>, asks: map<Tid, Ask>, present: set<Bit>,
                           waiting: seq<Tid>, n: nat, awards: seq<Award>)
    requires Known(list, asks0)
  {
    && Distinct(waiting) && Known(waiting, asks0) && n <= |waiting|
    && (forall t :: t in waiting ==> t in asks && asks[t] == asks0[t])
    && Onward(p0, list, asks0, present, waiting, n, awards)
    && forall w :: w in awards ==> w.t !in waiting && w.t in asks && asks[w.t].bits == w.bits
  }

  lemma WalkBegins(before: set<Bit>, p0: set<Bit>, list: seq<Tid>, asks: map<Tid, Ask>)
    requires Settled(before, list, asks)
    ensures Known(list, asks) && WalkedTo(p0, list, asks, asks, p0, list, 0, [])
    ensures forall t :: t in list ==> t in asks
  {
    assert list[0..] == list && list[..0] == [];
  }

  lemma WalkStep(p0: set<Bit>, list: seq<Tid>, asks0: map<Tid, Ask>, asks: map<Tid, Ask>, present: set<Bit>,
                 waiting: seq<Tid>, n: nat, awards: seq<Award>)
    requires Known(list, asks0) && n < |waiting| && WalkedTo(p0, list, asks0, asks, present, waiting, n, awards)
    ensures waiting[n] in asks
    ensures var t, a, rest := waiting[n], asks[waiting[n]], waiting[..n] + waiting[n + 1..];
      if Satisfied(present, a) then
        var asks' := asks[t := a.(bits := a.bits * present)];
        && WalkedTo(p0, list, asks0, asks', Cleared(present, asks'[t]), rest, n,
          awards + [Award(t, a.bits * present, present)])
        && forall u :: u in rest ==> u in asks'
      else WalkedTo(p0, list, asks0, asks, present, waiting, n + 1, awards)
  {
    var t, a, rest := waiting[n], asks[waiting[n]], waiting[..n] + waiting[n + 1..];
    OnwardStep(p0, list, asks0, present, waiting, n, awards);
    Removed(waiting, n);
    assert Cleared(present, a.(bits := a.bits * present)) == Cleared(present, a);
    hide Walk, Satisfied, Cleared, Onward, Distinct;
  }

  lemma WalkDone(p0: set<Bit>, list: seq<Tid>, asks0: map<Tid, Ask>, asks: map<Tid, Ask>, present: set<Bit>,
                 waiting: seq<Tid>, awards: seq<Award>)
    requires Known(list, asks0) && WalkedTo(p0, list, asks0, asks, present, waiting, |waiting|, awards)
    ensures Settled(present, waiting, asks) && Outcome(present, waiting, awards) == Walk(p0, list, asks0)
    ensures forall w :: w in awards ==> w.t in asks && asks[w.t].bits == w.bits
    ensures forall t :: t in waiting ==>
      t in asks && if asks[t].all then !(asks[t].bits <= present) else asks[t].bits * present == {}
  {
    WalkServesAll(p0, list, asks0);
    assert waiting[|waiting|..] == [] && waiting[..|waiting|] == waiting;
  }
}
