/** Tick arithmetic and the order of pending timers.  Ticks are 32-bit counters that wrap; `due` is the
    instant a timer expires on a clock that never wraps, and `stamp` numbers the starts. */
module TimerOrder {
  import opened Chains

  type Id = nat

  const TICKS := 0x1_0000_0000
  const HALF := 0x7fff_ffff    // RT_TICK_MAX / 2

  /** Unsigned subtraction of two tick values. */
  function Diff(a: int, b: int): (r: nat)
    ensures r < TICKS
  {
    (a - b) % TICKS
  }

  /** The three-way outcome of comparing a listed timer with the one being started. */
  datatype Order = Earlier | Same | Later

  function Compare(listed: int, started: int): Order {
    if Diff(listed, started) == 0 then Same
    else if Diff(listed, started) < HALF then Later
    else Earlier
  }

  function TrueOrder(d: int): Order {
    if d < 0 then Earlier else if d == 0 then Same else Later
  }

  lemma DiffOf(a: int, b: int)
    ensures Diff(a % TICKS, b % TICKS) == (a - b) % TICKS
  {
    assert a == a / TICKS * TICKS + a % TICKS && b == b / TICKS * TICKS + b % TICKS;
    ModShift(a % TICKS - b % TICKS, a / TICKS - b / TICKS);
  }

  lemma {:induction false} ModShift(x: int, k: int)
    ensures (x + k * TICKS) % TICKS == x % TICKS
    decreases if k < 0 then -k else k
  {
    if k > 0 {
      ModShift(x, k - 1);
    } else if k < 0 {
      ModShift(x, k + 1);
    }
  }

  /** For instants less than a full turn of the counter apart, the wrapped comparison tells their true
      order exactly when the listed one is at most 0x80000001 earlier and at most 0x7ffffffe later. */
  lemma CompareExact(listed: int, started: int)
    requires -TICKS < listed - started < TICKS
    ensures Compare(listed % TICKS, started % TICKS) == TrueOrder(listed - started)
            <==> -0x8000_0001 <= listed - started <= 0x7fff_fffe
  {
    DiffOf(listed, started);
  }

  /** Expiry is recognised correctly as long as the timer is less than half a turn away. */
  lemma ExpiredExact(now: int, due: int)
    requires -TICKS < now - due < TICKS
    ensures (Diff(now % TICKS, due % TICKS) < HALF <==> due <= now) <==> -0x8000_0001 <= now - due < HALF
  {
    DiffOf(now, due);
  }

  predicate Before(due: map<Id, int>, stamp: map<Id, nat>, t: Id, u: Id)
    requires t in due && u in due && t in stamp && u in stamp
  {
    due[t] < due[u] || (due[t] == due[u] && stamp[t] < stamp[u])
  }

  ghost predicate Known(due: map<Id, int>, stamp: map<Id, nat>, row: seq<Id>) {
    forall t :: t in row ==> t in due && t in stamp
  }

  ghost predicate Chain(due: map<Id, int>, stamp: map<Id, nat>, row: seq<Id>)
    requires Known(due, stamp, row)
  {
    |row| < 2 || (Before(due, stamp, row[0], row[1]) && Chain(due, stamp, row[1..]))
  }

  /** Ordered by expiry, ties by start order. */
  ghost predicate Sorted(due: map<Id, int>, stamp: map<Id, nat>, row: seq<Id>) {
    Known(due, stamp, row) && Chain(due, stamp, row)
  }

  lemma {:induction false} SortedAt(due: map<Id, int>, stamp: map<Id, nat>, row: seq<Id>, i: int, j: int)
    requires Sorted(due, stamp, row) && 0 <= i < j < |row|
    ensures Before(due, stamp, row[i], row[j])
  {
    if i > 0 {
      SortedAt(due, stamp, row[1..], i - 1, j - 1);
    } else if j > 1 {
      SortedAt(due, stamp, row[1..], 0, j - 1);
    }
  }

  lemma {:induction false} SortedIntro(due: map<Id, int>, stamp: map<Id, nat>, row: seq<Id>)
    requires Known(due, stamp, row)
    requires forall i :: 0 <= i < |row| - 1 ==> Before(due, stamp, row[i], row[i + 1])
    ensures Sorted(due, stamp, row)
  {
    if |row| >= 2 {
      assert Before(due, stamp, row[0], row[0 + 1]);
      forall i | 0 <= i < |row| - 2
        ensures Before(due, stamp, row[1..][i], row[1..][i + 1])
      {
        assert Before(due, stamp, row[i + 1], row[i + 1 + 1]);
      }
      SortedIntro(due, stamp, row[1..]);
    }
  }

  /** Insert behind every timer that is due no later. */
  function Insert(row: seq<Id>, t: Id, due: map<Id, int>): seq<Id>
    requires t in due && forall u :: u in row ==> u in due
  {
    if row == [] then [t]
    else if due[row[0]] <= due[t] then [row[0]] + Insert(row[1..], t, due)
    else [t] + row
  }

  /** `k` separates the timers due no later than `t` from the others. */
  ghost predicate Cut(row: seq<Id>, due: map<Id, int>, t: Id, k: int)
    requires t in due && forall u :: u in row ==> u in due
  {
    && 0 <= k <= |row|
    && (forall j :: 0 <= j < k ==> due[row[j]] <= due[t])
    && forall j :: k <= j < |row| ==> due[t] < due[row[j]]
  }

  function Linked(row: seq<Id>, k: nat, t: Id): seq<Id>
    requires k <= |row|
  {
    row[..k] + [t] + row[k..]
  }

  lemma LinkedBehind(row: seq<Id>, k: nat, t: Id)
    requires 0 < k <= |row|
    ensures [row[0]] + Linked(row[1..], k - 1, t) == Linked(row, k, t)
  {
  }

  lemma {:induction false} InsertAtCut(row: seq<Id>, due: map<Id, int>, t: Id, k: int)
    requires t in due && (forall u :: u in row ==> u in due) && Cut(row, due, t, k)
    ensures Insert(row, t, due) == Linked(row, k, t)
  {
    if row != [] {
      if k == 0 {
        assert row[..0] == [];
      } else {
        InsertAtCut(row[1..], due, t, k - 1);
        LinkedBehind(row, k, t);
      }
    }
  }

  /** Linking the newest timer in at its place keeps a row ordered. */
  lemma LinkSorted(due: map<Id, int>, stamp: map<Id, nat>, row: seq<Id>, t: Id, k: nat)
    requires Sorted(due, stamp, row) && t in due && t in stamp && Cut(row, due, t, k)
    requires forall u :: u in row ==> stamp[u] < stamp[t]
    ensures Linked(row, k, t) == Insert(row, t, due) && Sorted(due, stamp, Linked(row, k, t))
    ensures forall u :: u in Linked(row, k, t) <==> u in row || u == t
  {
    hide Chain, Insert;
    InsertAtCut(row, due, t, k);
    assert row == row[..k] + row[k..];
    var rs := Linked(row, k, t);
    forall i | 0 <= i < |rs| - 1
      ensures Before(due, stamp, rs[i], rs[i + 1])
    {
      if i < k - 1 {
        SortedAt(due, stamp, row, i, i + 1);
      } else if i == k - 1 {
        assert rs[i] == row[i] && rs[i] in row;
      } else if i == k {
        assert rs[i + 1] == row[i];
      } else {
        SortedAt(due, stamp, row, i - 1, i);
      }
    }
    SortedIntro(due, stamp, rs);
  }

  lemma SortedDistinct(due: map<Id, int>, stamp: map<Id, nat>, row: seq<Id>)
    requires Sorted(due, stamp, row)
    ensures forall i, j :: 0 <= i < j < |row| ==> row[i] != row[j]
  {
    forall i, j | 0 <= i < j < |row|
      ensures row[i] != row[j]
    {
      SortedAt(due, stamp, row, i, j);
    }
  }

  lemma {:induction false} RemoveSorted(due: map<Id, int>, stamp: map<Id, nat>, row: seq<Id>, t: Id)
    requires Sorted(due, stamp, row)
    ensures Sorted(due, stamp, Without(row, t))
    ensures forall u :: u in Without(row, t) <==> u in row && u != t
  {
    SortedDistinct(due, stamp, row);
    if row != [] {
      assert row == [row[0]] + row[1..];
      if row[0] != t {
        RemoveSorted(due, stamp, row[1..], t);
        var rs := Without(row[1..], t);
        if rs != [] {
          assert rs[0] in row[1..];
          var k :| 0 < k < |row| && row[k] == rs[0];
          SortedAt(due, stamp, row, 0, k);
          assert ([row[0]] + rs)[1..] == rs;
        }
      }
    }
  }

  /** Fields of timers outside the row do not matter. */
  lemma {:induction false} SortedFrame(due: map<Id, int>, stamp: map<Id, nat>, row: seq<Id>, due': map<Id, int>,
                                       stamp': map<Id, nat>)
    requires Sorted(due, stamp, row)
    requires forall u :: u in row ==> u in due' && u in stamp' && due'[u] == due[u] && stamp'[u] == stamp[u]
    ensures Sorted(due', stamp', row)
  {
    if |row| >= 2 {
      SortedFrame(due, stamp, row[1..], due', stamp');
    }
  }

  ghost predicate Subsequence(a: seq<Id>, b: seq<Id>) {
    a == [] || (b != [] && if a[0] == b[0] then Subsequence(a[1..], b[1..]) else Subsequence(a, b[1..]))
  }

  /** Of two ordered rows, one that lists only timers of the other is a subsequence of it. */
  lemma {:induction false} SortedSubsequence(due: map<Id, int>, stamp: map<Id, nat>, a: seq<Id>, b: seq<Id>)
    requires Sorted(due, stamp, a) && Sorted(due, stamp, b) && forall t :: t in a ==> t in b
    ensures Subsequence(a, b)
    decreases |b|
  {
    if a != [] {
      assert a[0] in b && b == [b[0]] + b[1..];
      forall t | t in a && t != b[0]
        ensures t in b[1..]
      {
        assert t in b;
      }
      if a[0] == b[0] {
        assert a == [a[0]] + a[1..];
        SortedDistinct(due, stamp, a);
        SortedSubsequence(due, stamp, a[1..], b[1..]);
      } else {
        assert b[0] !in a by {
          var k :| 0 < k < |b| && b[k] == a[0];
          SortedAt(due, stamp, b, 0, k);
          forall j | 0 < j < |a|
            ensures a[j] != b[0]
          {
            SortedAt(due, stamp, a, 0, j);
          }
        }
        SortedSubsequence(due, stamp, a, b[1..]);
      }
    }
  }

  /** The head of an ordered row is the next timer to expire. */
  lemma HeadIsNext(due: map<Id, int>, stamp: map<Id, nat>, row: seq<Id>, t: Id)
    requires Sorted(due, stamp, row) && t in row
    ensures due[row[0]] <= due[t]
  {
    var k :| 0 <= k < |row| && row[k] == t;
    if k > 0 { SortedAt(due, stamp, row, 0, k); }
  }

  /** The timers at the head of an ordered row that are due. */
  function ExpiredPrefix(row: seq<Id>, due: map<Id, int>, now: int): (r: seq<Id>)
    requires forall u :: u in row ==> u in due
    ensures forall u :: u in r ==> u in row && due[u] <= now
    ensures row != [] && due[row[0]] <= now ==> r == [row[0]] + ExpiredPrefix(row[1..], due, now)
  {
    if row == [] || due[row[0]] > now then [] else [row[0]] + ExpiredPrefix(row[1..], due, now)
  }

  lemma {:induction false} PrefixIsExpired(due: map<Id, int>, stamp: map<Id, nat>, row: seq<Id>, now: int)
    requires Sorted(due, stamp, row)
    ensures forall u :: u in ExpiredPrefix(row, due, now) <==> u in row && due[u] <= now
  {
    if row != [] {
      if due[row[0]] <= now {
        PrefixIsExpired(due, stamp, row[1..], now);
        assert row == [row[0]] + row[1..];
      } else {
        forall u | u in row
          ensures due[u] > now
        {
          HeadIsNext(due, stamp, row, u);
        }
      }
    }
  }

  /** Taking a timer off a row takes it off what is due. */
  lemma {:induction false} PrefixWithout(due: map<Id, int>, stamp: map<Id, nat>, row: seq<Id>, now: int, t: Id)
    requires Sorted(due, stamp, row)
    ensures ExpiredPrefix(Without(row, t), due, now) == Without(ExpiredPrefix(row, due, now), t)
  {
    if row != [] {
      if row[0] == t {
        if row[1..] != [] { SortedAt(due, stamp, row, 0, 1); }
      } else if due[row[0]] <= now {
        PrefixWithout(due, stamp, row[1..], now, t);
        assert ([row[0]] + Without(row[1..], t))[1..] == Without(row[1..], t);
        assert ([row[0]] + ExpiredPrefix(row[1..], due, now))[1..] == ExpiredPrefix(row[1..], due, now);
      }
    }
  }

  lemma PrefixOf(t: Id, row: seq<Id>, due: map<Id, int>, now: int)
    requires t in due && forall u :: u in row ==> u in due
    ensures ExpiredPrefix([t] + row, due, now) == if due[t] > now then [] else [t] + ExpiredPrefix(row, due, now)
  {
    assert ([t] + row)[1..] == row;
  }

  /** A timer started for later is not due; one started for now is due last. */
  lemma {:induction false} PrefixAfterInsert(due: map<Id, int>, row: seq<Id>, now: int, t: Id)
    requires (forall u :: u in row ==> u in due) && t in due && due[t] >= now
    ensures forall u :: u in Insert(row, t, due) ==> u in due
    ensures ExpiredPrefix(Insert(row, t, due), due, now) ==
            ExpiredPrefix(row, due, now) + (if due[t] == now then [t] else [])
  {
    hide ExpiredPrefix;
    if row == [] {
      NonePrefix(due, now);
      PrefixOf(t, [], due, now);
      assert [t] + [] == [t];
    } else if due[row[0]] <= due[t] {
      PrefixAfterInsert(due, row[1..], now, t);
      assert row == [row[0]] + row[1..];
      PrefixOf(row[0], row[1..], due, now);
      PrefixOf(row[0], Insert(row[1..], t, due), due, now);
    } else {
      assert row == [row[0]] + row[1..];
      PrefixOf(row[0], row[1..], due, now);
      PrefixOf(t, row, due, now);
    }
  }

  lemma NonePrefix(due: map<Id, int>, now: int)
    ensures ExpiredPrefix([], due, now) == []
  {
  }

  lemma {:induction false} PrefixFrame(due: map<Id, int>, row: seq<Id>, now: int, t: Id, d: int)
    requires (forall u :: u in row ==> u in due) && t !in row
    ensures ExpiredPrefix(row, due[t := d], now) == ExpiredPrefix(row, due, now)
  {
    if row != [] {
      PrefixFrame(due, row[1..], now, t, d);
    }
  }

  lemma {:induction false} PrefixDistinct(due: map<Id, int>, stamp: map<Id, nat>, row: seq<Id>, now: int)
    requires Sorted(due, stamp, row)
    ensures ExpiredPrefix(row, due, now) <= row
    ensures forall i, j :: 0 <= i < j < |ExpiredPrefix(row, due, now)| ==>
            ExpiredPrefix(row, due, now)[i] != ExpiredPrefix(row, due, now)[j]
  {
    PrefixIsPrefix(due, row, now);
    SortedDistinct(due, stamp, row);
  }

  lemma ConsPrefix(t: Id, a: seq<Id>, b: seq<Id>)
    requires a <= b
    ensures [t] + a <= [t] + b
  {
  }

  lemma {:induction false} PrefixIsPrefix(due: map<Id, int>, row: seq<Id>, now: int)
    requires forall u :: u in row ==> u in due
    ensures ExpiredPrefix(row, due, now) <= row
  {
    if row != [] && due[row[0]] <= now {
      PrefixIsPrefix(due, row[1..], now);
      ConsPrefix(row[0], ExpiredPrefix(row[1..], due, now), row[1..]);
      assert row == [row[0]] + row[1..];
    }
  }

  /** Starting a timer leaves what else is due. */
  lemma PrefixAfterStart(row0: seq<Id>, due0: map<Id, int>, stamp0: map<Id, nat>, t: Id, d: int, now: int,
                         row: seq<Id>, due: map<Id, int>)
    requires Sorted(due0, stamp0, row0) && d >= now && due == due0[t := d]
    requires (forall u :: u in Without(row0, t) ==> u in due) && row == Insert(Without(row0, t), t, due)
    requires forall u :: u in row ==> u in due
    ensures ExpiredPrefix(row, due, now) == Without(ExpiredPrefix(row0, due0, now), t) + (if d == now then [t] else [])
  {
    RemoveSorted(due0, stamp0, row0, t);
    PrefixFrame(due0, Without(row0, t), now, t, d);
    PrefixAfterInsert(due, Without(row0, t), now, t);
    PrefixWithout(due0, stamp0, row0, now, t);
  }
}
