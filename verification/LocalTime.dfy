/** Local time in a zone whose offset changes: reading an instant as local time, and the search for the
    instants that read as a given local time.  Instants and naive local times are integers, in seconds. */
module LocalTimes {
  const HOUR := 3600
  const DAY := 86400

  datatype Option<T> = None | Some(value: T)

  /** utcoffset, dst and tzname of a stretch of time. */
  datatype Info = Info(offset: int, dst: int, name: string)

  /** A local time together with the offset that applies to it. */
  datatype Aware = Aware(local: int, info: Info) {
    function Instant(): int {
      local - info.offset
    }
  }

  datatype Answer = Local(a: Aware) | AmbiguousTime | NonExistentTime

  /** `times[i]` is the instant from which `info[i]` applies; before the second one `info[0]` does. */
  datatype Zone = Zone(times: seq<int>, info: seq<Info>)

  ghost predicate Valid(z: Zone) {
    && 0 < |z.times| == |z.info|
    && (forall i, j :: 0 <= i < j < |z.times| ==> z.times[i] < z.times[j])
    && forall i :: 0 <= i < |z.info| ==> -DAY < z.info[i].offset < DAY
  }

  /** bisect_right from place `lo` on: the first place with a later time. */
  function BisectRight(times: seq<int>, x: int, lo: nat): (r: nat)
    requires lo <= |times|
    ensures lo <= r <= |times| && (r < |times| ==> x < times[r]) && forall i :: lo <= i < r ==> times[i] <= x
    decreases |times| - lo
  {
    if lo == |times| || x < times[lo] then lo else BisectRight(times, x, lo + 1)
  }

  function Index(z: Zone, x: int): (i: nat)
    requires |z.times| == |z.info| > 0
    ensures i < |z.info|
  {
    var b := BisectRight(z.times, x, 0);
    if b == 0 then 0 else b - 1
  }

  /** The stretch in force: the last one that has begun, or the first one before any has. */
  lemma IndexIs(z: Zone, x: int)
    requires Valid(z)
    ensures forall j :: Index(z, x) < j < |z.times| ==> x < z.times[j]
    ensures Index(z, x) > 0 ==> z.times[Index(z, x)] <= x
  {
    var b := BisectRight(z.times, x, 0);
    if b < |z.times| {
      assert forall j :: b < j < |z.times| ==> z.times[b] < z.times[j];
    }
  }

  function InfoAt(z: Zone, x: int): Info
    requires |z.times| == |z.info| > 0
  {
    z.info[Index(z, x)]
  }

  function FromUtc(z: Zone, u: int): Aware
    requires |z.times| == |z.info| > 0
  {
    Aware(u + InfoAt(z, u).offset, InfoAt(z, u))
  }

  function Normalize(z: Zone, a: Aware): Aware
    requires |z.times| == |z.info| > 0
  {
    FromUtc(z, a.local - a.info.offset)
  }

  /** Normalizing keeps the instant, changes nothing that is already normal, and gives what an instant reads. */
  lemma NormalizeKeepsInstant(z: Zone, a: Aware)
    requires Valid(z)
    ensures Normalize(z, a).Instant() == a.Instant() && Normalize(z, Normalize(z, a)) == Normalize(z, a)
    ensures Normalize(z, a) == a <==> a == FromUtc(z, a.Instant())
  {
  }

  lemma IndexMonotone(z: Zone, x: int, y: int)
    requires Valid(z) && x <= y
    ensures Index(z, x) <= Index(z, y)
  {
  }

  // ---- the candidates of localize ----

  /** The reading of `dt` with the offset that applies around `at`, if it is a reading at all. */
  function Candidate(z: Zone, dt: int, at: int): Option<Aware>
    requires |z.times| == |z.info| > 0
  {
    var a := Normalize(z, Aware(dt, InfoAt(z, at)));
    if a.local == dt then Some(a) else None
  }

  function Candidates(z: Zone, dt: int): seq<Aware>
    requires |z.times| == |z.info| > 0
  {
    var a, b := Candidate(z, dt, dt - DAY), Candidate(z, dt, dt + DAY);
    (if a.Some? then [a.value] else []) +
    (if b.Some? && !(a.Some? && a.value.Instant() == b.value.Instant()) then [b.value] else [])
  }

  /** An instant that reads as `dt`. */
  ghost predicate Reads(z: Zone, u: int, dt: int)
    requires Valid(z)
  {
    FromUtc(z, u).local == dt
  }

  /** Every candidate is the reading of its own instant, and that reading is `dt`. */
  lemma CandidatesSound(z: Zone, dt: int)
    requires Valid(z)
    ensures forall a :: a in Candidates(z, dt) ==>
            a.local == dt && a == FromUtc(z, a.Instant()) && Reads(z, a.Instant(), dt)
    ensures |Candidates(z, dt)| <= 2
    ensures |Candidates(z, dt)| == 2 ==> Candidates(z, dt)[0].Instant() != Candidates(z, dt)[1].Instant()
  {
    hide Candidate, FromUtc;
    if Candidate(z, dt, dt - DAY).Some? { CandidateSound(z, dt, dt - DAY); }
    if Candidate(z, dt, dt + DAY).Some? { CandidateSound(z, dt, dt + DAY); }
  }

  lemma CandidateSound(z: Zone, dt: int, at: int)
    requires Valid(z) && Candidate(z, dt, at).Some?
    ensures var a := Candidate(z, dt, at).value;
            a.local == dt && a == FromUtc(z, a.Instant()) && Reads(z, a.Instant(), dt)
  {
  }

  /** The offset at `u` applies a day before or a day after `dt`, where localize looks for offsets. */
  ghost predicate Seen(z: Zone, u: int, dt: int)
    requires Valid(z)
  {
    InfoAt(z, u).offset == InfoAt(z, dt - DAY).offset || InfoAt(z, u).offset == InfoAt(z, dt + DAY).offset
  }

  /** An instant that reads as `dt` is found exactly if its offset is one of the two that are tried. */
  lemma FoundIff(z: Zone, dt: int, u: int)
    requires Valid(z) && Reads(z, u, dt)
    ensures FromUtc(z, u) in Candidates(z, dt) <==> Seen(z, u, dt)
  {
    var before, after := Candidate(z, dt, dt - DAY), Candidate(z, dt, dt + DAY);
    assert before.Some? && before.value.Instant() == u ==> before.value == FromUtc(z, u);
    assert after.Some? && after.value.Instant() == u ==> after.value == FromUtc(z, u);
  }

  /** Stretch `i` lies between the two days, has the offset of neither, and contains the instant that its
      offset makes of `dt`. */
  ghost predicate Hidden(z: Zone, dt: int, i: int)
    requires Valid(z)
  {
    && Index(z, dt - DAY) < i < Index(z, dt + DAY)
    && z.info[i].offset != InfoAt(z, dt - DAY).offset
    && z.info[i].offset != InfoAt(z, dt + DAY).offset
    && Index(z, dt - z.info[i].offset) == i
  }

  lemma HiddenIff(z: Zone, dt: int, u: int)
    requires Valid(z) && Reads(z, u, dt)
    ensures Hidden(z, dt, Index(z, u)) <==> !Seen(z, u, dt)
  {
    assert -DAY < InfoAt(z, u).offset < DAY;
    IndexMonotone(z, dt - DAY, u);
    IndexMonotone(z, u, dt + DAY);
  }

  /** Every instant that reads as `dt` is found exactly if no stretch is hidden, which can be told from
      the table of the zone. */
  lemma CandidatesComplete(z: Zone, dt: int)
    requires Valid(z)
    ensures (forall u :: Reads(z, u, dt) ==> FromUtc(z, u) in Candidates(z, dt)) <==> forall i :: !Hidden(z, dt, i)
  {
    hide Candidates, Hidden, Seen;
    forall u | Reads(z, u, dt)
      ensures FromUtc(z, u) in Candidates(z, dt) <==> !Hidden(z, dt, Index(z, u))
    {
      FoundIff(z, dt, u);
      HiddenIff(z, dt, u);
    }
    forall i | Hidden(z, dt, i)
      ensures exists u :: Reads(z, u, dt) && FromUtc(z, u) !in Candidates(z, dt)
    {
      var u := HiddenReading(z, dt, i);
      assert Reads(z, u, dt);
    }
  }

  lemma HiddenReading(z: Zone, dt: int, i: int) returns (u: int)
    requires Valid(z) && Hidden(z, dt, i)
    ensures Reads(z, u, dt) && Index(z, u) == i
  {
    u := dt - z.info[i].offset;
  }

  /** At most one transition lies within a day either side. */
  ghost predicate Calm(z: Zone, dt: int)
    requires Valid(z)
  {
    Index(z, dt + DAY) <= Index(z, dt - DAY) + 1
  }

  /** If at most one transition is near, no instant that reads as `dt` is missed. */
  lemma CalmComplete(z: Zone, dt: int, u: int)
    requires Valid(z) && Calm(z, dt) && Reads(z, u, dt)
    ensures Seen(z, u, dt) && FromUtc(z, u) in Candidates(z, dt)
  {
    hide Candidates, Seen;
    HiddenIff(z, dt, u);
    FoundIff(z, dt, u);
  }

  /** With two transitions near, a time that exists can be missed. */
  lemma MissedBetweenTransitions()
    ensures var z := Zone([-1000000, 0, 10000], [Info(0, 0, "A"), Info(HOUR, HOUR, "B"), Info(0, 0, "A")]);
      Valid(z) && Reads(z, 1400, 5000) && Candidates(z, 5000) == []
  {
    var z := Zone([-1000000, 0, 10000], [Info(0, 0, "A"), Info(HOUR, HOUR, "B"), Info(0, 0, "A")]);
    assert BisectRight(z.times, 1400, 2) == 2 && BisectRight(z.times, 1400, 1) == 2 &&
           BisectRight(z.times, 1400, 0) == 2;
    assert BisectRight(z.times, 5000, 2) == 2 && BisectRight(z.times, 5000, 1) == 2 &&
           BisectRight(z.times, 5000, 0) == 2;
    assert BisectRight(z.times, 5000 - DAY, 1) == 1 && BisectRight(z.times, 5000 - DAY, 0) == 1;
    assert BisectRight(z.times, 5000 + DAY, 3) == 3 && BisectRight(z.times, 5000 + DAY, 2) == 3 &&
           BisectRight(z.times, 5000 + DAY, 1) == 3;
    assert BisectRight(z.times, 5000 + DAY, 0) == 3;
  }

  // ---- localize ----

  predicate IsDst(a: Aware) {
    a.info.dst != 0
  }

  /** Of two candidates: the one whose flag is asked for, or else the earlier or later one. */
  function Choose(p: Aware, q: Aware, isDst: bool): Aware {
    if IsDst(p) == isDst && IsDst(q) != isDst then p
    else if IsDst(q) == isDst && IsDst(p) != isDst then q
    else if (p.Instant() < q.Instant()) == isDst then p else q
  }

  /** How far the clock still has to be wound until a candidate must show up. */
  function Away(z: Zone, dt: int, forward: bool): (d: int)
    requires |z.times| == |z.info| > 0
    ensures d >= 0
  {
    var d := if forward then z.times[|z.times| - 1] + 2 * DAY - dt else dt - z.times[0] + 2 * DAY;
    if d < 0 then 0 else d
  }

  function Localize(z: Zone, dt: int, isDst: Option<bool>): Answer
    requires Valid(z)
    decreases if isDst.Some? then Away(z, dt, isDst.value) else 0
  {
    var cs := Candidates(z, dt);
    CandidatesSound(z, dt);
    if |cs| == 1 then Local(cs[0])
    else if |cs| == 0 then
      match isDst
      case None => NonExistentTime
      case Some(forward) =>
        WoundEnough(z, dt, forward);
        var r := Localize(z, if forward then dt + 6 * HOUR else dt - 6 * HOUR, isDst);
        if r.Local? then Local(Aware(dt, r.a.info)) else r
    else
      match isDst
      case None => AmbiguousTime
      case Some(flag) => Local(Choose(cs[0], cs[1], flag))
  }

  /** Beyond the first and the last transition every time has a reading. */
  lemma WoundEnough(z: Zone, dt: int, forward: bool)
    requires Valid(z)
    ensures Away(z, dt, forward) == 0 ==> Candidates(z, dt) != []
  {
    if Away(z, dt, forward) == 0 {
      var last := |z.times| - 1;
      if forward {
        IndexMonotone(z, z.times[last], dt - z.info[last].offset);
        IndexMonotone(z, z.times[last], dt - DAY);
        assert Index(z, z.times[last]) == last;
      }
      assert Candidate(z, dt, dt - DAY).Some?;
    }
  }

  /** Two instants or more read as the time. */
  ghost predicate Twice(z: Zone, dt: int)
    requires Valid(z)
  {
    exists u, v :: u != v && Reads(z, u, dt) && Reads(z, v, dt)
  }

  ghost predicate Never(z: Zone, dt: int)
    requires Valid(z)
  {
    forall u :: !Reads(z, u, dt)
  }

  /** A refusal to guess fails exactly for times that occur twice or never. */
  ghost predicate Strict(z: Zone, dt: int)
    requires Valid(z)
  {
    && (Localize(z, dt, None) == AmbiguousTime <==> Twice(z, dt))
    && (Localize(z, dt, None) == NonExistentTime <==> Never(z, dt))
  }

  /** The offsets of the two days differ and both make `dt` a reading. */
  ghost predicate BothRead(z: Zone, dt: int)
    requires Valid(z)
  {
    var p, q := InfoAt(z, dt - DAY).offset, InfoAt(z, dt + DAY).offset;
    p != q && Reads(z, dt - p, dt) && Reads(z, dt - q, dt)
  }

  lemma TwoFoundIff(z: Zone, dt: int)
    requires Valid(z)
    ensures |Candidates(z, dt)| == 2 <==> BothRead(z, dt)
  {
  }

  /** A refusal to guess is right exactly if no stretch is hidden, or two readings are found anyway; what it
      finds is a reading of `dt` in any case. */
  lemma StrictLocalize(z: Zone, dt: int)
    requires Valid(z)
    ensures Strict(z, dt) <==> BothRead(z, dt) || forall i :: !Hidden(z, dt, i)
    ensures Localize(z, dt, None).Local? ==> var a := Localize(z, dt, None).a;
            a == FromUtc(z, a.Instant()) && Reads(z, a.Instant(), dt)
  {
    hide Candidates, FromUtc, Reads, Hidden, BothRead;
    var cs := Candidates(z, dt);
    CandidatesSound(z, dt);
    CandidatesComplete(z, dt);
    TwoFoundIff(z, dt);
    forall u | Reads(z, u, dt)
      ensures FromUtc(z, u).Instant() == u
    {
      InstantOf(z, u);
    }
    assert forall k :: 0 <= k < |cs| ==> cs[k] in cs;
    if |cs| == 2 {
      assert Reads(z, cs[0].Instant(), dt) && Reads(z, cs[1].Instant(), dt);
    } else if |cs| == 1 {
      assert Reads(z, cs[0].Instant(), dt);
    }
  }

  lemma InstantOf(z: Zone, u: int)
    requires Valid(z)
    ensures FromUtc(z, u).Instant() == u
  {
  }

  /** A second reading `v` of the same time does not displace `u`: its flag differs, or the rule for equal
      flags, the earliest for DST and the latest otherwise, prefers `u`. */
  ghost predicate Yields(z: Zone, u: int, v: int)
    requires Valid(z)
  {
    IsDst(FromUtc(z, v)) != IsDst(FromUtc(z, u)) || (if IsDst(FromUtc(z, u)) then u < v else v < u)
  }

  /** The first time, winding the clock from `dt` on, for which there is a candidate. */
  function WoundTo(z: Zone, dt: int, forward: bool): (r: int)
    requires Valid(z)
    ensures Candidates(z, r) != []
    decreases Away(z, dt, forward)
  {
    if Candidates(z, dt) != [] then dt
    else
      WoundEnough(z, dt, forward);
      WoundTo(z, if forward then dt + 6 * HOUR else dt - 6 * HOUR, forward)
  }

  function Picked(z: Zone, dt: int, flag: bool): Aware
    requires Valid(z) && Candidates(z, dt) != []
  {
    var cs := Candidates(z, dt);
    if |cs| == 1 then cs[0] else Choose(cs[0], cs[1], flag)
  }

  /** With a flag given, the answer has the offset that is picked once the clock is wound far enough. */
  lemma {:induction false} LocalizeWinds(z: Zone, dt: int, flag: bool)
    requires Valid(z)
    ensures Localize(z, dt, Some(flag)) == Local(Aware(dt, Picked(z, WoundTo(z, dt, flag), flag).info))
    decreases Away(z, dt, flag)
  {
    hide Candidates;
    var cs := Candidates(z, dt);
    CandidatesSound(z, dt);
    if cs == [] {
      WoundEnough(z, dt, flag);
      LocalizeWinds(z, if flag then dt + 6 * HOUR else dt - 6 * HOUR, flag);
    } else {
      assert forall k :: 0 <= k < |cs| ==> cs[k] in cs;
    }
  }

  /** The clock is wound by six hours at a time, just until there is a candidate. */
  lemma {:induction false} WoundToIs(z: Zone, dt: int, forward: bool) returns (k: nat)
    requires Valid(z)
    ensures WoundTo(z, dt, forward) == if forward then dt + k * 21600 else dt - k * 21600
    ensures forall j :: 0 <= j < k ==> Candidates(z, if forward then dt + j * 21600 else dt - j * 21600) == []
    decreases Away(z, dt, forward)
  {
    hide Candidates;
    if Candidates(z, dt) != [] {
      k := 0;
    } else {
      WoundEnough(z, dt, forward);
      var n := WoundToIs(z, if forward then dt + 21600 else dt - 21600, forward);
      k := n + 1;
      forall j | 0 <= j < k
        ensures Candidates(z, if forward then dt + j * 21600 else dt - j * 21600) == []
      {
        if j > 0 {
          var at := if forward then dt + 21600 + (j - 1) * 21600 else dt - 21600 - (j - 1) * 21600;
          assert at == if forward then dt + j * 21600 else dt - j * 21600;
          assert Candidates(z, at) == [];
        }
      }
    }
  }

  /** Of two readings found, `p` the earlier one: a single one that is daylight-saving time, or a single one
      that is not, is the answer where that is asked for; when both are or neither is, the answer is the
      earlier one if daylight-saving time is asked for, and the later one if not. */
  lemma AmbiguousChoice(z: Zone, dt: int, p: Aware, q: Aware, flag: bool)
    requires Valid(z) && p in Candidates(z, dt) && q in Candidates(z, dt) && p.Instant() < q.Instant()
    ensures Localize(z, dt, None) == AmbiguousTime
    ensures (p.info.dst != 0) == flag && (q.info.dst != 0) != flag ==> Localize(z, dt, Some(flag)) == Local(p)
    ensures (q.info.dst != 0) == flag && (p.info.dst != 0) != flag ==> Localize(z, dt, Some(flag)) == Local(q)
    ensures (p.info.dst != 0) == (q.info.dst != 0) ==> Localize(z, dt, Some(flag)) == Local(if flag then p else q)
  {
    hide Candidates;
    CandidatesSound(z, dt);
    var cs := Candidates(z, dt);
    assert (cs[0] == p && cs[1] == q) || (cs[0] == q && cs[1] == p);
  }

  /** A single reading found is the answer whatever is asked for. */
  lemma UniqueAnswer(z: Zone, dt: int, p: Aware, isDst: Option<bool>)
    requires Valid(z) && p in Candidates(z, dt) && forall a :: a in Candidates(z, dt) ==> a == p
    ensures Localize(z, dt, isDst) == Local(p)
  {
    hide Candidates;
    CandidatesSound(z, dt);
    var cs := Candidates(z, dt);
    assert forall k :: 0 <= k < |cs| ==> cs[k] in cs;
  }

  /** The round trip: an instant read as local time, and looked up with its own flag.  If its offset is one of
      the two that are tried, it is found again exactly if every other reading that is found yields to it.  If
      not, it is found again exactly if the clock is wound, and happens to be wound to the same stretch. */
  lemma RoundTrip(z: Zone, u: int)
    requires Valid(z)
    ensures var dt, flag := FromUtc(z, u).local, IsDst(FromUtc(z, u));
      Localize(z, dt, Some(flag)) == Local(FromUtc(z, u))
      <==> if Seen(z, u, dt) then forall v :: v != u && Reads(z, v, dt) && Seen(z, v, dt) ==> Yields(z, u, v)
           else Candidates(z, dt) == [] && Picked(z, WoundTo(z, dt, flag), flag).info == InfoAt(z, u)
  {
    hide Candidates, Seen;
    if Seen(z, u, FromUtc(z, u).local) {
      SeenRoundTrip(z, u);
    } else {
      UnseenRoundTrip(z, u);
    }
  }

  lemma UnseenRoundTrip(z: Zone, u: int)
    requires Valid(z) && !Seen(z, u, FromUtc(z, u).local)
    ensures var dt, flag := FromUtc(z, u).local, IsDst(FromUtc(z, u));
      Localize(z, dt, Some(flag)) == Local(FromUtc(z, u))
      <==> Candidates(z, dt) == [] && Picked(z, WoundTo(z, dt, flag), flag).info == InfoAt(z, u)
  {
    hide Candidates, Seen, WoundTo, Picked;
    var dt, flag := FromUtc(z, u).local, IsDst(FromUtc(z, u));
    FoundIff(z, dt, u);
    CandidatesSound(z, dt);
    LocalizeWinds(z, dt, flag);
    var cs := Candidates(z, dt);
    assert forall k :: 0 <= k < |cs| ==> cs[k] in cs;
  }

  lemma SeenRoundTrip(z: Zone, u: int)
    requires Valid(z) && Seen(z, u, FromUtc(z, u).local)
    ensures var dt := FromUtc(z, u).local;
      Localize(z, dt, Some(IsDst(FromUtc(z, u)))) == Local(FromUtc(z, u))
      <==> forall v :: v != u && Reads(z, v, dt) && Seen(z, v, dt) ==> Yields(z, u, v)
  {
    hide Candidates, FromUtc, Seen;
    var a := FromUtc(z, u);
    var cs := Candidates(z, a.local);
    CandidatesSound(z, a.local);
    forall v | Reads(z, v, a.local)
      ensures FromUtc(z, v) in cs <==> Seen(z, v, a.local)
      ensures FromUtc(z, v).Instant() == v
    {
      FoundIff(z, a.local, v);
      InstantOf(z, v);
    }
    assert a in cs;
    if |cs| == 2 {
      assert cs[0] in cs && cs[1] in cs;
      var v := if cs[0] == a then cs[1].Instant() else cs[0].Instant();
      assert v != u && Reads(z, v, a.local) && Seen(z, v, a.local);
    }
  }

  /** With at most one transition near, it is enough that the readings of a time that occurs twice differ
      in the flag. */
  lemma CalmRoundTrip(z: Zone, u: int)
    requires Valid(z) && Calm(z, FromUtc(z, u).local)
    requires forall v :: v != u && Reads(z, v, FromUtc(z, u).local) ==> IsDst(FromUtc(z, v)) != IsDst(FromUtc(z, u))
    ensures Localize(z, FromUtc(z, u).local, Some(IsDst(FromUtc(z, u)))) == Local(FromUtc(z, u))
  {
    hide Candidates, Seen, Localize;
    CalmComplete(z, FromUtc(z, u).local, u);
    SeenRoundTrip(z, u);
  }

  /** Whatever is found carries the local time that was asked for. */
  lemma {:induction false} LocalizeKeepsTime(z: Zone, dt: int, isDst: Option<bool>)
    requires Valid(z)
    ensures isDst.Some? ==> Localize(z, dt, isDst).Local?
    ensures Localize(z, dt, isDst).Local? ==> Localize(z, dt, isDst).a.local == dt
    decreases if isDst.Some? then Away(z, dt, isDst.value) else 0
  {
    CandidatesSound(z, dt);
    if |Candidates(z, dt)| == 0 && isDst.Some? {
      WoundEnough(z, dt, isDst.value);
      LocalizeKeepsTime(z, if isDst.value then dt + 6 * HOUR else dt - 6 * HOUR, isDst);
    }
  }

  // ---- localize as it is computed ----

  /** The loop over the day before and the day after. */
  method FindCandidates(z: Zone, dt: int) returns (cs: seq<Aware>)
    requires Valid(z)
    ensures cs == Candidates(z, dt)
  {
    hide Normalize;
    var deltas := [-DAY, DAY];
    cs := [];
    for k := 0 to 2
      invariant k == 0 ==> cs == []
      invariant k == 1 ==> var a := Candidate(z, dt, dt - DAY); cs == if a.Some? then [a.value] else []
      invariant k == 2 ==> cs == Candidates(z, dt)
    {
      var a := Normalize(z, Aware(dt, InfoAt(z, dt + deltas[k])));
      if a.local == dt && (forall c :: c in cs ==> c.Instant() != a.Instant()) {
        cs := cs + [a];
      }
    }
  }

  method LocalizeTime(z: Zone, dt: int, isDst: Option<bool>) returns (r: Answer)
    requires Valid(z)
    ensures r == Localize(z, dt, isDst)
    decreases if isDst.Some? then Away(z, dt, isDst.value) else 0
  {
    var cs := FindCandidates(z, dt);
    CandidatesSound(z, dt);
    hide Candidates;
    if |cs| == 1 {
      return Local(cs[0]);
    }
    if |cs| == 0 {
      if isDst.None? {
        return NonExistentTime;
      }
      WoundEnough(z, dt, isDst.value);
      r := LocalizeTime(z, if isDst.value then dt + 6 * HOUR else dt - 6 * HOUR, isDst);
      return if r.Local? then Local(Aware(dt, r.a.info)) else r;
    }
    if isDst.None? {
      return AmbiguousTime;
    }
    var chosen := PickOne(cs, isDst.value);
    return Local(chosen);
  }

  /** Filter by the flag; if that does not decide, take the earliest or the latest instant. */
  method PickOne(cs: seq<Aware>, isDst: bool) returns (p: Aware)
    requires |cs| == 2 && cs[0].Instant() != cs[1].Instant()
    ensures p == Choose(cs[0], cs[1], isDst)
  {
    var filtered := [];
    for k := 0 to |cs|
      invariant k == 0 ==> filtered == []
      invariant k == 1 ==> filtered == if IsDst(cs[0]) == isDst then [cs[0]] else []
      invariant k == 2 ==>
                filtered == (if IsDst(cs[0]) == isDst then [cs[0]] else []) +
                            (if IsDst(cs[1]) == isDst then [cs[1]] else [])
    {
      if IsDst(cs[k]) == isDst {
        filtered := filtered + [cs[k]];
      }
    }
    if |filtered| == 1 {
      return filtered[0];
    }
    if |filtered| == 0 {
      filtered := cs;
    }
    p := filtered[0];
    for k := 1 to |filtered|
      invariant k == 1 ==> p == cs[0]
      invariant k == 2 ==> p == if (cs[0].Instant() < cs[1].Instant()) == isDst then cs[0] else cs[1]
    {
      if (filtered[k].Instant() < p.Instant()) == isDst {
        p := filtered[k];
      }
    }
  }
}
