/** What whole runs of a message queue deliver: order, and where every message received comes from. */
module MessageDelivery {
  import opened Waiters
  import opened MessageProtocol

  // ---- first in, first out ----

  ghost predicate Plain(e: Event) {
    !e.Urgent? && !e.Reset?
  }

  ghost predicate NothingUrgent(s: State) {
    forall t :: t in s.phase && s.phase[t].Filling? ==> !s.phase[t].urgent
  }

  lemma PlainStep(c: Config, s: State, e: Event)
    requires Inv(c, s) && Enabled(c, s, e) && Plain(e) && NothingUrgent(s)
    ensures NothingUrgent(Next(c, s, e)) && !EffectOf(c, s, e).PushedFront? && !EffectOf(c, s, e).Emptied?
  {
    hide Inv;
  }

  lemma {:induction false} PlainRun(c: Config, s: State, es: seq<Event>)
    requires Inv(c, s) && Possible(c, s, es) && NothingUrgent(s) && forall e :: e in es ==> Plain(e)
    ensures forall f :: f in Effects(c, s, es) ==> !f.PushedFront? && !f.Emptied?
    decreases |es|
  {
    if es != [] {
      assert es[0] in es && forall e :: e in es[1..] ==> e in es;
      StepKeeps(c, s, es[0]);
      PlainStep(c, s, es[0]);
      hide Inv, Next, Enabled, EffectOf;
      PlainRun(c, Next(c, s, es[0]), es[1..]);
    }
  }

  /** In a run without urgent messages and resets, the messages taken, followed by those still queued, are
      those queued at first, followed by those linked, in this order. */
  lemma RunFirstInFirstOut(c: Config, s: State, es: seq<Event>)
    requires Inv(c, s) && Possible(c, s, es) && NothingUrgent(s) && forall e :: e in es ==> Plain(e)
    ensures Inv(c, After(c, s, es))
    ensures Delivered(Effects(c, s, es)) + Queued(After(c, s, es)) == Queued(s) + Arrived(Effects(c, s, es))
  {
    RunDelivers(c, s, es);
    PlainRun(c, s, es);
    InQueueBound(c, s);
    InQueueBound(c, After(c, s, es));
    hide Inv, Possible, After, Legal, Replay;
    FirstInFirstOut(Queued(s), Effects(c, s, es));
  }

  // ---- what each thread has asked for ----

  function Least(a: nat, b: nat): nat {
    if a <= b then a else b
  }

  /** The size of the last receive call of each thread. */
  function Asks(asked: map<Tid, nat>, es: seq<Event>): map<Tid, nat>
    decreases |es|
  {
    if es == [] then asked else Asks(AskedIn(asked, es[0]), es[1..])
  }

  function AskedIn(asked: map<Tid, nat>, e: Event): map<Tid, nat> {
    if e.Recv? then asked[e.t := e.size] else asked
  }

  /** The last receive call of `t` is event `i`. */
  ghost predicate AsksLast(es: seq<Event>, t: Tid, i: nat) {
    && i < |es| && es[i].Recv? && es[i].t == t
    && forall j :: i < j < |es| && es[j].Recv? ==> es[j].t != t
  }

  lemma {:induction false} AsksIs(asked: map<Tid, nat>, es: seq<Event>, t: Tid) returns (i: int)
    ensures i < 0 ==> (t in Asks(asked, es) <==> t in asked) && (t in asked ==> Asks(asked, es)[t] == asked[t])
    ensures i < 0 ==> forall j :: 0 <= j < |es| && es[j].Recv? ==> es[j].t != t
    ensures i >= 0 ==> AsksLast(es, t, i) && t in Asks(asked, es) && Asks(asked, es)[t] == es[i].size
    decreases |es|
  {
    i := -1;
    if es != [] {
      var k := AsksIs(AskedIn(asked, es[0]), es[1..], t);
      assert forall j :: 0 < j < |es| ==> es[j] == es[1..][j - 1];
      i := if k >= 0 then k + 1 else if es[0].Recv? && es[0].t == t then 0 else -1;
    }
  }

  /** What the phase of a thread says about sizes goes back to what it asked for: it copies, and returns, as
      many bytes, or the message size if that is less. */
  ghost predicate PhaseAsked(c: Config, asked: map<Tid, nat>, t: Tid, p: Phase) {
    match p
    case Idle(last) => last.Received? ==> t in asked && |last.bytes| == Least(asked[t], c.msgSize)
    case Receiving(size) => t in asked && size == asked[t]
    case Emptying(_, _, len, _) => t in asked && len == Least(asked[t], c.msgSize)
    case _ => true
  }

  ghost predicate Asked(c: Config, asked: map<Tid, nat>, s: State) {
    forall t :: t in s.phase ==> PhaseAsked(c, asked, t, s.phase[t])
  }

  lemma StepAsked(c: Config, asked: map<Tid, nat>, s: State, e: Event)
    requires Inv(c, s) && Enabled(c, s, e) && Asked(c, asked, s)
    ensures Asked(c, AskedIn(asked, e), Next(c, s, e))
  {
    OwnAsked(c, asked, s, e);
    OwnStays(c, s, e);
    forall u | u in s.phase && u != e.t
      ensures PhaseAsked(c, AskedIn(asked, e), u, Next(c, s, e).phase[u])
    {
      OtherPhase(c, s, e, u);
      hide Next, Enabled, Inv;
    }
    hide Next, Enabled, Inv, PhaseAsked;
  }

  lemma OwnAsked(c: Config, asked: map<Tid, nat>, s: State, e: Event)
    requires Inv(c, s) && Enabled(c, s, e) && Asked(c, asked, s)
    ensures e.t in Next(c, s, e).phase && PhaseAsked(c, AskedIn(asked, e), e.t, Next(c, s, e).phase[e.t])
  {
    assert PhaseAsked(c, asked, e.t, s.phase[e.t]);
    if e.Reset? { ActorStays(c, s, e); }
    hide Inv;
  }

  lemma ActorStays(c: Config, s: State, e: Event)
    requires Inv(c, s) && Enabled(c, s, e) && e.Reset?
    ensures e.t in s.phase && Next(c, s, e).phase[e.t] == s.phase[e.t]
  {
    assert s.senders.Has(e.t) <==> e.t in s.phase && s.phase[e.t].Sending?;
    assert s.receivers.Has(e.t) <==> e.t in s.phase && s.phase[e.t].Receiving?;
  }

  lemma {:induction false} RunAsked(c: Config, asked: map<Tid, nat>, s: State, es: seq<Event>)
    requires Inv(c, s) && Possible(c, s, es) && Asked(c, asked, s)
    ensures Inv(c, After(c, s, es)) && Asked(c, Asks(asked, es), After(c, s, es))
    decreases |es|
  {
    hide Inv, Next, Enabled, Asked, AskedIn;
    if es != [] {
      StepKeeps(c, s, es[0]);
      StepAsked(c, asked, s, es[0]);
      RunAsked(c, AskedIn(asked, es[0]), Next(c, s, es[0]), es[1..]);
    }
  }

  // ---- what is received was sent ----

  /** A slot's content that starts with a message sent. */
  ghost predicate Carries(sent: set<Message>, d: Message) {
    exists m :: m in sent && m <= d
  }

  /** Bytes that begin a message sent, or begin with one if the receiver asked for more. */
  ghost predicate Conveys(sent: set<Message>, bytes: Message) {
    exists m :: m in sent && (bytes <= m || m <= bytes)
  }

  ghost predicate PhaseTraced(sent: set<Message>, p: Phase) {
    match p
    case Idle(last) => last.Received? ==> Conveys(sent, last.bytes)
    case Sending(msg) => msg in sent
    case Receiving(_) => true
    case Filling(_, msg, _, _) => msg in sent
    case Emptying(_, _, _, taken) => Carries(sent, taken)
  }

  ghost predicate Traced(sent: set<Message>, s: State)
    requires forall x :: x in s.queue ==> x < |s.data|
  {
    && (forall t :: t in s.phase ==> PhaseTraced(sent, s.phase[t]))
    && forall m :: m in Queued(s) ==> Carries(sent, m)
  }

  function SentBy(e: Event): set<Message> {
    if e.Send? || e.Urgent? then {e.msg} else {}
  }

  lemma MoreSent(sent: set<Message>, more: set<Message>, p: Phase)
    requires PhaseTraced(sent, p)
    ensures PhaseTraced(sent + more, p)
  {
    match p
    case Idle(last) =>
      if last.Received? {
        var m :| m in sent && (last.bytes <= m || m <= last.bytes);
        assert m in sent + more;
      }
    case Emptying(_, _, _, taken) =>
      var m :| m in sent && m <= taken;
      assert m in sent + more;
    case _ =>
  }

  /** The messages that a step queues are those of the sender's phase. */
  lemma QueueTraced(sent: set<Message>, q: seq<Message>, f: Effect)
    requires forall m :: m in q ==> Carries(sent, m)
    requires (f.PushedBack? || f.PushedFront? ==> Carries(sent, f.m)) && (f.Popped? ==> q != [])
    ensures forall m :: m in Apply(q, f) ==> Carries(sent, m)
  {
  }

  lemma EffectTraced(sent: set<Message>, c: Config, s: State, e: Event)
    requires Inv(c, s) && Enabled(c, s, e) && Traced(sent, s)
    ensures var f := EffectOf(c, s, e);
            (f.PushedBack? || f.PushedFront? ==> Carries(sent, f.m)) && (f.Popped? ==> Queued(s) != [])
  {
    if e.Finish? && s.phase[e.t].Filling? {
      FinishGives(c, s, e.t);
      assert PhaseTraced(sent, s.phase[e.t]);
    }
    InQueueBound(c, s);
    hide Inv;
  }

  /** The phase of the thread that makes a step. */
  lemma OwnPhase(sent: set<Message>, c: Config, s: State, e: Event)
    requires Inv(c, s) && Enabled(c, s, e) && Traced(sent, s)
    ensures PhaseTraced(sent + SentBy(e), Next(c, s, e).phase[e.t])
  {
    hide Inv, Queued, Carries, Conveys;
    var p, p' := s.phase[e.t], Next(c, s, e).phase[e.t];
    assert PhaseTraced(sent, p);
    MoreSent(sent, SentBy(e), p);
    if e.Finish? {
      FinishGives(c, s, e.t);
      assert sent + SentBy(e) == sent;
      if p.Emptying? { GotTraced(sent, p, p'); }
    } else if p'.Emptying? && !p.Emptying? {
      HeadTraced(sent, s);
      assert sent + SentBy(e) == sent;
    }
  }

  lemma GotTraced(sent: set<Message>, p: Phase, p': Phase)
    requires PhaseTraced(sent, p) && p.Emptying? && p.len <= |p.taken| && p' == Idle(Received(p.taken[..p.len]))
    ensures PhaseTraced(sent, p')
  {
    var m :| m in sent && m <= p.taken;
    assert p'.last.bytes <= p.taken;
  }

  lemma HeadTraced(sent: set<Message>, s: State)
    requires (forall x :: x in s.queue ==> x < |s.data|) && Traced(sent, s) && s.queue != []
    ensures s.queue[0] < |s.data| && Carries(sent, s.data[s.queue[0]])
  {
    assert s.queue[0] in s.queue && Queued(s)[0] in Queued(s);
  }

  lemma OtherPhase(c: Config, s: State, e: Event, u: Tid)
    requires Enabled(c, s, e) && u in s.phase && u != e.t
    ensures Next(c, s, e).phase.Keys == s.phase.Keys
    ensures Next(c, s, e).phase[u] == s.phase[u] || Next(c, s, e).phase[u] == Idle(Error)
    ensures Next(c, s, e).phase[u] == s.phase[u] || u in s.senders.waiting || u in s.receivers.waiting
  {
  }

  lemma StepTraced(sent: set<Message>, c: Config, s: State, e: Event)
    requires Inv(c, s) && Enabled(c, s, e) && Traced(sent, s)
    ensures Inv(c, Next(c, s, e)) && Traced(sent + SentBy(e), Next(c, s, e))
  {
    StepDelivers(c, s, e);
    InQueueBound(c, Next(c, s, e));
    EffectTraced(sent, c, s, e);
    OwnPhase(sent, c, s, e);
    OtherPhases(sent, c, s, e);
    hide Inv, Next, Enabled, EffectOf, Queued, Apply, PhaseTraced;
    QueueTraced(sent, Queued(s), EffectOf(c, s, e));
    forall m | m in Queued(Next(c, s, e))
      ensures Carries(sent + SentBy(e), m)
    {
      var n :| n in sent && n <= m;
      assert n in sent + SentBy(e);
    }
  }

  lemma OtherPhases(sent: set<Message>, c: Config, s: State, e: Event)
    requires Enabled(c, s, e) && forall u :: u in s.phase ==> PhaseTraced(sent, s.phase[u])
    ensures Next(c, s, e).phase.Keys == s.phase.Keys
    ensures forall u :: u in s.phase && u != e.t ==> PhaseTraced(sent + SentBy(e), Next(c, s, e).phase[u])
  {
    hide PhaseTraced, SentBy;
    OwnStays(c, s, e);
    forall u | u in s.phase && u != e.t
      ensures PhaseTraced(sent + SentBy(e), Next(c, s, e).phase[u])
    {
      OtherPhase(c, s, e, u);
      MoreSent(sent, SentBy(e), s.phase[u]);
      ErrorTraced(sent + SentBy(e));
    }
  }

  lemma OwnStays(c: Config, s: State, e: Event)
    requires Enabled(c, s, e)
    ensures Next(c, s, e).phase.Keys == s.phase.Keys
  {
  }

  lemma ErrorTraced(sent: set<Message>)
    ensures PhaseTraced(sent, Idle(Error))
  {
  }

  function SentIn(es: seq<Event>): set<Message> {
    if es == [] then {} else SentBy(es[0]) + SentIn(es[1..])
  }

  lemma {:induction false} RunTraced(sent: set<Message>, c: Config, s: State, es: seq<Event>)
    requires Inv(c, s) && Possible(c, s, es) && Traced(sent, s)
    ensures Inv(c, After(c, s, es)) && Traced(sent + SentIn(es), After(c, s, es))
    decreases |es|
  {
    if es == [] {
      assert sent + SentIn(es) == sent;
    } else {
      StepTraced(sent, c, s, es[0]);
      hide Inv, Next, Enabled, Traced, SentBy;
      RunTraced(sent + SentBy(es[0]), c, Next(c, s, es[0]), es[1..]);
      assert sent + SentBy(es[0]) + SentIn(es[1..]) == sent + SentIn(es);
    }
  }

  lemma {:induction false} SentInIs(es: seq<Event>, m: Message)
    requires m in SentIn(es)
    ensures exists e :: e in es && (e.Send? || e.Urgent?) && e.msg == m
  {
    if m in SentBy(es[0]) {
      assert es[0] in es;
    } else {
      SentInIs(es[1..], m);
      var e :| e in es[1..] && (e.Send? || e.Urgent?) && e.msg == m;
      assert e in es;
    }
  }

  /** Whatever copies, timeouts and resets go on, a receiver returns the bytes of a message that some thread
      sent in the run: as many as it asked for in its last call, or the message size if that is less, which
      may be all of them and then what the slot held behind. */
  lemma ReceivedWasSent(c: Config, threads: set<Tid>, es: seq<Event>, t: Tid)
    requires Possible(c, Initial(c, threads), es)
    requires var s := After(c, Initial(c, threads), es); t in s.phase && s.phase[t].Idle? && s.phase[t].last.Received?
    ensures var bytes := After(c, Initial(c, threads), es).phase[t].last.bytes;
      && (exists e :: e in es && (e.Send? || e.Urgent?) && (bytes <= e.msg || e.msg <= bytes))
      && exists i :: 0 <= i < |es| && AsksLast(es, t, i) &&
                     |bytes| == if es[i].size > c.msgSize then c.msgSize else es[i].size
  {
    var s0 := Initial(c, threads);
    InitialOk(c, threads);
    assert Traced({}, s0);
    RunTraced({}, c, s0, es);
    RunAsked(c, map[], s0, es);
    hide Inv, Possible, After, Asks;
    var s := After(c, s0, es);
    assert PhaseTraced({} + SentIn(es), s.phase[t]);
    assert PhaseAsked(c, Asks(map[], es), t, s.phase[t]);
    var bytes := s.phase[t].last.bytes;
    var m :| m in SentIn(es) && (bytes <= m || m <= bytes);
    SentInIs(es, m);
    var i := AsksIs(map[], es, t);
  }

  // ---- every message taken is received once ----

  /** A message taken off the queue by `t`, which asked for `size` bytes. */
  datatype Receipt = Receipt(t: Tid, m: Message, size: nat)

  /** What is taken in a run, in order. */
  ghost function Receipts(c: Config, asked: map<Tid, nat>, s: State, es: seq<Event>): seq<Receipt>
    requires Inv(c, s) && Possible(c, s, es)
    decreases |es|
  {
    if es == [] then []
    else
      StepKeeps(c, s, es[0]);
      ReceiptOf(c, asked, s, es[0]) + Receipts(c, AskedIn(asked, es[0]), Next(c, s, es[0]), es[1..])
  }

  ghost function ReceiptOf(c: Config, asked: map<Tid, nat>, s: State, e: Event): seq<Receipt>
    requires Inv(c, s) && Enabled(c, s, e)
  {
    if EffectOf(c, s, e).Popped? then [Receipt(e.t, EffectOf(c, s, e).m, AskedBy(AskedIn(asked, e), e.t))] else []
  }

  function AskedBy(asked: map<Tid, nat>, t: Tid): nat {
    if t in asked then asked[t] else 0
  }

  /** The bytes that `t` gets from some messages taken, in order. */
  ghost function Share(rs: seq<Receipt>, t: Tid): seq<Message> {
    if rs == [] then [] else (if rs[0].t == t then [Cut(rs[0].m, rs[0].size)] else []) + Share(rs[1..], t)
  }

  /** The first `size` bytes of a message, or all if it is shorter. */
  function Cut(m: Message, size: nat): (r: Message)
    ensures r <= m && |r| == Least(size, |m|)
  {
    if size <= |m| then m[..size] else m
  }

  /** What the calls of `t` return as received in a run, in order. */
  ghost function Returned(c: Config, s: State, es: seq<Event>, t: Tid): seq<Message>
    requires Possible(c, s, es)
    decreases |es|
  {
    if es == [] then [] else ReturnedBy(c, s, es[0], t) + Returned(c, Next(c, s, es[0]), es[1..], t)
  }

  ghost function ReturnedBy(c: Config, s: State, e: Event, t: Tid): seq<Message>
    requires Enabled(c, s, e)
  {
    if e == Finish(t) then Bytes(Next(c, s, e), t) else []
  }

  ghost function Bytes(s: State, t: Tid): seq<Message> {
    if t in s.phase && s.phase[t].Idle? && s.phase[t].last.Received? then [s.phase[t].last.bytes] else []
  }

  /** What `t` has taken and is still copying. */
  ghost function InHand(asked: map<Tid, nat>, s: State, t: Tid): seq<Message> {
    if t in s.phase && s.phase[t].Emptying? then [Cut(s.phase[t].taken, AskedBy(asked, t))] else []
  }

  lemma Regroup(a: seq<Message>, b: seq<Message>, c: seq<Message>)
    ensures (a + b) + c == a + (b + c)
  {
  }

  lemma {:induction false} ShareAppend(a: seq<Receipt>, b: seq<Receipt>, t: Tid)
    ensures Share(a + b, t) == Share(a, t) + Share(b, t)
  {
    hide Cut;
    if a == [] {
      assert a + b == b;
    } else {
      ShareAppend(a[1..], b, t);
      assert (a + b)[0] == a[0] && (a + b)[1..] == a[1..] + b;
      Regroup(if a[0].t == t then [Cut(a[0].m, a[0].size)] else [], Share(a[1..], t), Share(b, t));
    }
  }

  lemma {:induction false} ReceiptsDelivered(c: Config, asked: map<Tid, nat>, s: State, es: seq<Event>)
    requires Inv(c, s) && Possible(c, s, es)
    ensures Messages(Receipts(c, asked, s, es)) == Delivered(Effects(c, s, es))
    decreases |es|
  {
    hide Inv, Next, Enabled, EffectOf, AskedIn, AskedBy;
    if es != [] {
      var e := es[0];
      StepKeeps(c, s, e);
      ReceiptsDelivered(c, AskedIn(asked, e), Next(c, s, e), es[1..]);
      var rest, fs := Receipts(c, AskedIn(asked, e), Next(c, s, e), es[1..]), Effects(c, Next(c, s, e), es[1..]);
      assert Effects(c, s, es)[0] == EffectOf(c, s, e) && Effects(c, s, es)[1..] == fs;
      if EffectOf(c, s, e).Popped? {
        assert Receipts(c, asked, s, es)[1..] == rest;
      } else {
        assert Receipts(c, asked, s, es) == rest;
      }
    }
  }

  ghost function Messages(rs: seq<Receipt>): seq<Message> {
    if rs == [] then [] else [rs[0].m] + Messages(rs[1..])
  }

  /** A step hands on what a thread has in hand or takes. */
  lemma StepHandsOn(c: Config, asked: map<Tid, nat>, s: State, e: Event, t: Tid)
    requires Inv(c, s) && Enabled(c, s, e) && Asked(c, asked, s)
    ensures InHand(asked, s, t) + Share(ReceiptOf(c, asked, s, e), t) ==
            ReturnedBy(c, s, e, t) + InHand(AskedIn(asked, e), Next(c, s, e), t)
  {
    hide Inv, Enabled, Next, Cut, Share, EffectOf, AskedIn, AskedBy, Asked;
    OneShare(ReceiptOf(c, asked, s, e), t);
    if t == e.t {
      OwnHand(c, asked, s, e);
    } else {
      OtherHand(c, asked, s, e, t);
    }
  }

  lemma OtherHand(c: Config, asked: map<Tid, nat>, s: State, e: Event, t: Tid)
    requires Inv(c, s) && Enabled(c, s, e) && t != e.t
    ensures InHand(AskedIn(asked, e), Next(c, s, e), t) == InHand(asked, s, t) && ReturnedBy(c, s, e, t) == []
  {
    hide Inv, Cut, Next, Enabled, EffectOf;
    TakersWere(c, s, e);
    OwnStays(c, s, e);
    if t in s.phase { OtherPhase(c, s, e, t); }
  }

  /** What a thread takes, hands over or keeps in hand with its own event. */
  lemma OwnHand(c: Config, asked: map<Tid, nat>, s: State, e: Event)
    requires Inv(c, s) && Enabled(c, s, e) && Asked(c, asked, s)
    ensures InHand(asked, s, e.t) + (if EffectOf(c, s, e).Popped?
                then [Cut(EffectOf(c, s, e).m, AskedBy(AskedIn(asked, e), e.t))] else [])
            == ReturnedBy(c, s, e, e.t) + InHand(AskedIn(asked, e), Next(c, s, e), e.t)
  {
    hide Inv, Cut, Next, Enabled, EffectOf, AskedIn, Asked;
    TakersWere(c, s, e);
    EventFacts(c, asked, s, e);
    if EffectOf(c, s, e).Popped? {
      StepTakes(c, s, e);
    } else if e.Finish? {
      if s.phase[e.t].Emptying? { FinishReturns(c, asked, s, e.t); } else { LinkReturns(c, s, e.t); }
    } else {
      NotTaken(c, s, e);
    }
  }

  lemma EventFacts(c: Config, asked: map<Tid, nat>, s: State, e: Event)
    requires Inv(c, s) && Enabled(c, s, e)
    ensures e.t in s.phase && (!e.Recv? ==> AskedIn(asked, e) == asked)
    ensures e.Recv? ==> !s.phase[e.t].Emptying?
    ensures e.Finish? ==> !EffectOf(c, s, e).Popped? && (s.phase[e.t].Filling? || s.phase[e.t].Emptying?)
  {
  }

  lemma NotTaken(c: Config, s: State, e: Event)
    requires Inv(c, s) && Enabled(c, s, e) && !EffectOf(c, s, e).Popped? && !e.Finish?
    ensures var p, s' := s.phase[e.t], Next(c, s, e);
      if p.Emptying? then e.t in s'.phase && s'.phase[e.t].Emptying? && s'.phase[e.t].taken == p.taken
      else e.t in s'.phase && !s'.phase[e.t].Emptying?
  {
    TakersWere(c, s, e);
    hide Inv;
  }

  lemma OneShare(rs: seq<Receipt>, t: Tid)
    requires |rs| <= 1
    ensures Share(rs, t) == if rs != [] && rs[0].t == t then [Cut(rs[0].m, rs[0].size)] else []
  {
    if rs != [] { assert rs[1..] == []; }
  }

  /** What a receive returns are the first bytes of the message that it took: as many as it asked for, or the
      message size if that is less. */
  lemma FinishReturns(c: Config, asked: map<Tid, nat>, s: State, t: Tid)
    requires Inv(c, s) && Enabled(c, s, Finish(t)) && Asked(c, asked, s) && s.phase[t].Emptying?
    ensures var s' := Next(c, s, Finish(t));
      && t in asked && t in s'.phase && s'.phase[t].Idle? && s'.phase[t].last.Received?
      && s'.phase[t].last.bytes == Cut(s.phase[t].taken, asked[t])
      && |s'.phase[t].last.bytes| == if asked[t] > c.msgSize then c.msgSize else asked[t]
  {
    FinishGives(c, s, t);
    assert PhaseOk(c, s.data, s.phase[t]);
    assert PhaseAsked(c, asked, t, s.phase[t]);
    TakenWhole(c, s, t);
    hide Inv, Next, Enabled;
  }

  lemma TakenWhole(c: Config, s: State, t: Tid)
    requires Inv(c, s) && t in s.phase && s.phase[t].Emptying?
    ensures |s.phase[t].taken| == c.msgSize
  {
    assert PhaseOk(c, s.data, s.phase[t]);
    assert s.data[s.phase[t].slot] in s.data;
  }

  lemma LinkReturns(c: Config, s: State, t: Tid)
    requires Enabled(c, s, Finish(t)) && s.phase[t].Filling?
    ensures t in Next(c, s, Finish(t)).phase && Next(c, s, Finish(t)).phase[t] == Idle(Ok)
  {
  }

  /** Nobody takes a message with one in hand, and waiting threads have none. */
  lemma TakersWere(c: Config, s: State, e: Event)
    requires Inv(c, s) && Enabled(c, s, e)
    ensures EffectOf(c, s, e).Popped? ==> !s.phase[e.t].Emptying?
    ensures e.Expire? ==> !s.phase[e.t].Emptying?
    ensures forall t :: t in s.phase && s.phase[t].Emptying? ==> t !in s.senders.waiting && t !in s.receivers.waiting
  {
    forall t
      ensures t in s.senders.waiting ==> t in s.phase && s.phase[t].Sending?
      ensures t in s.receivers.waiting ==> t in s.phase && s.phase[t].Receiving?
    {
      assert s.senders.Has(t) <==> t in s.phase && s.phase[t].Sending?;
      assert s.receivers.Has(t) <==> t in s.phase && s.phase[t].Receiving?;
    }
  }

  /** Once-only delivery: over any run, what the calls of a thread return as received, followed by what it
      still has in hand, is what it had in hand at first followed by its share of the messages taken.  The
      share of a message is its first bytes, as many as the thread asked for in its last receive call, or all.
      The messages taken are those that left the queue, in this order. */
  lemma {:induction false} ReceivedOnce(c: Config, asked: map<Tid, nat>, s: State, es: seq<Event>, t: Tid)
    requires Inv(c, s) && Possible(c, s, es) && Asked(c, asked, s)
    ensures Messages(Receipts(c, asked, s, es)) == Delivered(Effects(c, s, es))
    ensures InHand(asked, s, t) + Share(Receipts(c, asked, s, es), t) ==
            Returned(c, s, es, t) + InHand(Asks(asked, es), After(c, s, es), t)
    decreases |es|
  {
    hide Inv, Enabled, InHand, ReceiptOf, ReturnedBy, Share, Next, Asked, AskedIn;
    ReceiptsDelivered(c, asked, s, es);
    if es == [] {
      NoShare(t);
      assert InHand(asked, s, t) + [] == [] + InHand(asked, s, t);
    } else {
      var e, s', asked' := es[0], Next(c, s, es[0]), AskedIn(asked, es[0]);
      StepKeeps(c, s, e);
      StepAsked(c, asked, s, e);
      StepHandsOn(c, asked, s, e, t);
      ReceivedOnce(c, asked', s', es[1..], t);
      ShareAppend(ReceiptOf(c, asked, s, e), Receipts(c, asked', s', es[1..]), t);
      Joined(InHand(asked, s, t), Share(ReceiptOf(c, asked, s, e), t), ReturnedBy(c, s, e, t), InHand(asked', s', t),
             Share(Receipts(c, asked', s', es[1..]), t), Returned(c, s', es[1..], t),
             InHand(Asks(asked', es[1..]), After(c, s', es[1..]), t));
    }
  }

  lemma NoShare(t: Tid)
    ensures Share([], t) == []
  {
  }

  /** From the start: what each call returns is cut to what was asked for in this very call. */
  lemma ReceivedFromStart(c: Config, threads: set<Tid>, es: seq<Event>, t: Tid)
    requires Possible(c, Initial(c, threads), es)
    ensures Inv(c, Initial(c, threads))
    ensures var s0 := Initial(c, threads);
      Share(Receipts(c, map[], s0, es), t) == Returned(c, s0, es, t) + InHand(Asks(map[], es), After(c, s0, es), t)
  {
    var s0 := Initial(c, threads);
    InitialOk(c, threads);
    assert InHand(map[], s0, t) == [];
    assert Asked(c, map[], s0);
    hide Inv, Enabled, InHand, Share, Receipts, Returned, Possible, Asked, After, Asks;
    ReceivedOnce(c, map[], s0, es, t);
  }

  lemma Joined(a: seq<Message>, b: seq<Message>, r: seq<Message>, h: seq<Message>, d: seq<Message>, q: seq<Message>,
               z: seq<Message>)
    requires a + b == r + h && h + d == q + z
    ensures a + (b + d) == (r + q) + z
  {
    assert a + (b + d) == (a + b) + d == r + (h + d) == (r + q) + z;
  }
}
