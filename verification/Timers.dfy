/** The software timers: a skip list of any number of rows, the last of which lists every started timer,
    and the loop that fires the expired ones. */
module Timers {
  import opened Chains
  import opened FirstPasses
  import opened TimerCalls
  import opened TimerOrder
  import opened TimerRounds

  const TICK_MAX := 0xffff_ffff   // RT_TICK_MAX
  const MASK := 3                 // RT_TIMER_SKIP_LIST_MASK

  /** Rows above the last one that the insert counter gives a timer: its trailing zero digits in base 4. */
  function Tower(counter: nat, rows: nat): (h: nat)
    ensures h <= rows
  {
    if rows == 0 || counter % (MASK + 1) != 0 then 0 else 1 + Tower(counter / (MASK + 1), rows - 1)
  }

  function Pow4(h: nat): nat {
    if h == 0 then 1 else 4 * Pow4(h - 1)
  }

  /** The counter is a multiple of the power of four, and of no higher one unless the rows are used up. */
  lemma {:induction false} TowerIs(counter: nat, rows: nat) returns (m: nat)
    ensures var h := Tower(counter, rows); counter == Pow4(h) * m && (h < rows ==> m % 4 != 0)
  {
    if rows == 0 || counter % 4 != 0 {
      m := counter;
    } else {
      m := TowerIs(counter / 4, rows - 1);
      var h := Tower(counter / 4, rows - 1);
      assert counter == 4 * (Pow4(h) * m) == 4 * Pow4(h) * m == Pow4(h + 1) * m;
    }
  }

  ghost predicate Nested(rows: seq<seq<Id>>, l: int)
    requires 0 <= l < |rows| - 1
  {
    forall t :: t in rows[l] ==> t in rows[l + 1]
  }

  /** All rows are ordered, and each lists only timers of the row below it. */
  ghost predicate Rows(rows: seq<seq<Id>>, levels: nat, due: map<Id, int>, stamp: map<Id, nat>) {
    && 0 < levels == |rows|
    && (forall l :: 0 <= l < levels ==> Sorted(due, stamp, rows[l]))
    && forall l :: 0 <= l < levels - 1 ==> Nested(rows, l)
  }

  lemma {:induction false} ListedInLast(rows: seq<seq<Id>>, l: nat)
    requires l < |rows| && forall m :: 0 <= m < |rows| - 1 ==> Nested(rows, m)
    ensures forall t :: t in rows[l] ==> t in rows[|rows| - 1]
    decreases |rows| - l
  {
    if l < |rows| - 1 {
      assert Nested(rows, l);
      ListedInLast(rows, l + 1);
    }
  }

  lemma NotListed(rows: seq<seq<Id>>, t: Id)
    requires 0 < |rows| && t !in rows[|rows| - 1] && forall m :: 0 <= m < |rows| - 1 ==> Nested(rows, m)
    ensures forall l :: 0 <= l < |rows| ==> t !in rows[l]
  {
    forall l | 0 <= l < |rows|
      ensures t !in rows[l]
    {
      ListedInLast(rows, l);
    }
  }

  lemma RemoveRows(rows: seq<seq<Id>>, rows': seq<seq<Id>>, levels: nat, due: map<Id, int>, stamp: map<Id, nat>, t: Id)
    requires Rows(rows, levels, due, stamp) && |rows'| == levels
    requires forall l :: 0 <= l < levels ==> rows'[l] == Without(rows[l], t)
    ensures Rows(rows', levels, due, stamp)
    ensures var last := rows'[levels - 1]; forall u :: u in last <==> u in rows[levels - 1] && u != t
  {
    forall l | 0 <= l < levels
      ensures Sorted(due, stamp, rows'[l]) && forall u :: u in rows'[l] <==> u in rows[l] && u != t
    {
      RemoveSorted(due, stamp, rows[l], t);
    }
    forall l | 0 <= l < levels - 1
      ensures Nested(rows', l)
    {
      assert Nested(rows, l);
    }
  }

  lemma FrameRows(rows: seq<seq<Id>>, levels: nat, due: map<Id, int>, stamp: map<Id, nat>, t: Id, due': map<Id, int>,
                  stamp': map<Id, nat>)
    requires Rows(rows, levels, due, stamp) && t !in rows[levels - 1]
    requires forall u :: u != t ==>
             (u in due ==> u in due' && due'[u] == due[u]) && (u in stamp ==> u in stamp' && stamp'[u] == stamp[u])
    ensures Rows(rows, levels, due', stamp')
  {
    NotListed(rows, t);
    forall l | 0 <= l < levels
      ensures Sorted(due', stamp', rows[l])
    {
      SortedFrame(due, stamp, rows[l], due', stamp');
    }
  }

  /** `rows'` is `rows` with `t` linked into the rows from `top` down. */
  ghost predicate LinkedFrom(rows: seq<seq<Id>>, rows': seq<seq<Id>>, heads: seq<nat>, t: Id, top: int) {
    && |rows| == |rows'| == |heads|
    && forall l :: 0 <= l < |rows| ==> LinkedRow(rows[l], rows'[l], heads[l], t, l >= top)
  }

  ghost predicate LinkedRow(row: seq<Id>, row': seq<Id>, k: nat, t: Id, tall: bool) {
    k <= |row| && row' == if tall then Linked(row, k, t) else row
  }

  lemma InsertRow(row: seq<Id>, row': seq<Id>, due: map<Id, int>, stamp: map<Id, nat>, t: Id, k: nat, tall: bool)
    requires Sorted(due, stamp, row) && t in due && t in stamp && Cut(row, due, t, k) &&
             LinkedRow(row, row', k, t, tall)
    requires forall u :: u in row ==> stamp[u] < stamp[t]
    ensures Sorted(due, stamp, row') && row' == if tall then Insert(row, t, due) else row
    ensures forall u :: u in row' <==> u in row || (tall && u == t)
  {
    LinkSorted(due, stamp, row, t, k);
  }

  /** Linking the newest timer at its place into the rows from `top` down. */
  lemma InsertRows(rows: seq<seq<Id>>, rows': seq<seq<Id>>, levels: nat, due: map<Id, int>, stamp: map<Id, nat>,
                   t: Id, heads: seq<nat>, top: int)
    requires Rows(rows, levels, due, stamp) && t in due && t in stamp && top < levels
    requires forall u :: u in rows[levels - 1] ==> stamp[u] < stamp[t]
    requires LinkedFrom(rows, rows', heads, t, top) && forall l :: 0 <= l < levels ==> Cut(rows[l], due, t, heads[l])
    ensures Rows(rows', levels, due, stamp)
    ensures forall l :: 0 <= l < levels ==> rows'[l] == if l >= top then Insert(rows[l], t, due) else rows[l]
    ensures var last := rows'[levels - 1]; forall u :: u in last <==> u in rows[levels - 1] || u == t
  {
    hide Sorted, Insert, Nested, Cut, LinkedRow;
    forall l | 0 <= l < levels
      ensures Sorted(due, stamp, rows[l]) && Sorted(due, stamp, rows'[l])
      ensures (forall u :: u in rows[l] ==> u in due) && rows'[l] == if l >= top then Insert(rows[l], t, due)
              else rows[l]
      ensures forall u :: u in rows'[l] <==> u in rows[l] || (l >= top && u == t)
    {
      KnownRow(due, stamp, rows[l]);
      InsertRowAt(rows, rows', levels, due, stamp, t, heads, top, l);
    }
    forall l | 0 <= l < levels - 1
      ensures Nested(rows', l)
    {
      NestedAfter(rows, rows', l, t, top);
    }
  }

  lemma KnownRow(due: map<Id, int>, stamp: map<Id, nat>, row: seq<Id>)
    requires Sorted(due, stamp, row)
    ensures forall u :: u in row ==> u in due && u in stamp
  {
  }

  lemma InsertRowAt(rows: seq<seq<Id>>, rows': seq<seq<Id>>, levels: nat, due: map<Id, int>, stamp: map<Id, nat>,
                    t: Id, heads: seq<nat>, top: int, l: nat)
    requires Rows(rows, levels, due, stamp) && t in due && t in stamp && top < levels &&
             l < levels == |rows'| == |heads|
    requires forall u :: u in rows[levels - 1] ==> stamp[u] < stamp[t]
    requires LinkedFrom(rows, rows', heads, t, top) && (forall u :: u in rows[l] ==> u in due) &&
             Cut(rows[l], due, t, heads[l])
    ensures Sorted(due, stamp, rows'[l]) && rows'[l] == if l >= top then Insert(rows[l], t, due) else rows[l]
    ensures forall u :: u in rows'[l] <==> u in rows[l] || (l >= top && u == t)
  {
    hide Sorted, Insert, Nested, Cut, LinkedRow;
    var row, last := rows[l], rows[levels - 1];
    assert forall u :: u in row ==> u in last by { ListedInLast(rows, l); }
    assert LinkedRow(rows[l], rows'[l], heads[l], t, l >= top);
    InsertRow(rows[l], rows'[l], due, stamp, t, heads[l], l >= top);
  }

  lemma NestedAfter(rows: seq<seq<Id>>, rows': seq<seq<Id>>, l: nat, t: Id, top: int)
    requires l + 1 < |rows| == |rows'| && Nested(rows, l)
    requires forall u :: u in rows'[l] <==> u in rows[l] || (l >= top && u == t)
    requires var below := rows'[l + 1]; forall u :: u in below <==> u in rows[l + 1] || (l + 1 >= top && u == t)
    ensures Nested(rows', l)
  {
  }

  /** The listed timers: their expiry on the wrapping counter, less than half a turn ahead of now. */
  ghost predicate TimersOk(row: seq<Id>, timers: set<Id>, timeoutTick: map<Id, nat>,
                           due: map<Id, int>, stamp: map<Id, nat>, clock: nat, starts: nat) {
    forall t :: t in row ==> t in timers && t in timeoutTick && TimerOk(t, timeoutTick[t], due, stamp, clock, starts)
  }

  ghost predicate TimerOk(t: Id, timeout: nat, due: map<Id, int>, stamp: map<Id, nat>, clock: nat, starts: nat) {
    t in due && t in stamp && timeout == due[t] % TICKS && due[t] < clock + HALF && stamp[t] < starts
  }

  lemma ArmTimer(row: seq<Id>, timers: set<Id>, timeoutTick: map<Id, nat>, due: map<Id, int>, stamp: map<Id, nat>,
                 clock: nat, starts: nat, t: Id, timeout: nat, d: int)
    requires TimersOk(row, timers, timeoutTick, due, stamp, clock, starts) && t !in row
    ensures TimersOk(row, timers, timeoutTick[t := timeout], due[t := d], stamp, clock, starts)
  {
  }

  lemma StampTimer(row: seq<Id>, timers: set<Id>, timeoutTick: map<Id, nat>, due: map<Id, int>, stamp: map<Id, nat>,
                   clock: nat, starts: nat, t: Id)
    requires TimersOk(row, timers, timeoutTick, due, stamp, clock, starts) && t !in row
    ensures TimersOk(row, timers, timeoutTick, due, stamp[t := starts], clock, starts + 1)
    ensures forall u :: u in row ==> u in stamp && stamp[t := starts][u] < starts
  {
  }

  class TimerList {
    const levels: nat
    ghost const late: nat            // by how many ticks a listed timer may be overdue
    var rows: seq<seq<Id>>           // row[levels - 1] lists every started timer
    var tick: nat                    // rt_tick
    var timeoutTick: map<Id, nat>
    var initTick: map<Id, nat>
    var periodic: set<Id>            // RT_TIMER_FLAG_PERIODIC
    var activated: set<Id>           // RT_TIMER_FLAG_ACTIVATED
    var randomNr: nat
    ghost var clock: nat             // ticks since start-up, never wrapping
    ghost var due: map<Id, int>
    ghost var stamp: map<Id, nat>
    ghost var starts: nat

    ghost function Bottom(): seq<Id>
      requires 0 < levels == |rows|
      reads `rows
    {
      rows[levels - 1]
    }

    ghost predicate RowsOk()
      reads `rows, `due, `stamp
    {
      Rows(rows, levels, due, stamp)
    }

    ghost predicate Valid()
      reads `rows, `tick, `timeoutTick, `initTick, `randomNr, `clock, `due, `stamp, `starts
    {
      && RowsOk()
      && tick == clock % TICKS && randomNr < TICKS
      && (forall t :: t in initTick ==> t in timeoutTick)
      && TimersOk(Bottom(), initTick.Keys, timeoutTick, due, stamp, clock, starts)
    }

    /** Every row is a subsequence of the row below it. */
    lemma RowsNest(l: nat)
      requires RowsOk() && l + 1 < levels
      ensures Subsequence(rows[l], rows[l + 1])
    {
      assert Nested(rows, l);
      SortedSubsequence(due, stamp, rows[l], rows[l + 1]);
    }

    constructor (levels: nat, ghost late: nat)
      requires levels > 0
      ensures Valid() && this.levels == levels && this.late == late && Bottom() == [] && tick == 0 && initTick == map[]
      ensures periodic == {} && activated == {} && clock == 0
    {
      this.levels, this.late := levels, late;
      rows := seq(levels, i => []);
      tick, timeoutTick, initTick, periodic, activated, randomNr := 0, map[], map[], {}, {}, 0;
      clock, due, stamp, starts := 0, map[], map[], 0;
    }

    method Init(t: Id, time: nat, isPeriodic: bool)
      requires Valid() && t !in Bottom()
      modifies this
      ensures Valid() && rows == old(rows) && clock == old(clock)
      ensures initTick == old(initTick)[t := time] && activated == old(activated) - {t}
      ensures periodic == if isPeriodic then old(periodic) + {t} else old(periodic) - {t}
    {
      periodic := if isPeriodic then periodic + {t} else periodic - {t};
      activated := activated - {t};
      timeoutTick := timeoutTick[t := 0];
      initTick := initTick[t := time];
    }

    method Tick()
      requires Valid()
      modifies `tick, `clock
      ensures Valid() && clock == old(clock) + 1
    {
      ModAdd(clock);
      tick := (tick + 1) % TICKS;
      clock := clock + 1;
    }

    lemma ModAdd(c: nat)
      ensures (c % TICKS + 1) % TICKS == (c + 1) % TICKS
    {
    }

    /** Expiry of the timer that fires next. */
    method NextTimeout() returns (r: nat)
      requires Valid()
      ensures Bottom() == [] ==> r == TICK_MAX
      ensures Bottom() != [] ==> exists t :: t in Bottom() && r == due[t] % TICKS && forall u :: u in Bottom() ==>
              due[t] <= due[u]
    {
      if rows[levels - 1] == [] {
        return TICK_MAX;
      }
      var t := rows[levels - 1][0];
      assert t in Bottom();
      forall u | u in Bottom()
        ensures due[t] <= due[u]
      {
        HeadIsNext(due, stamp, Bottom(), u);
      }
      return timeoutTick[t];
    }

    method RemoveTimer(t: Id)
      requires RowsOk()
      modifies `rows
      ensures RowsOk()
      ensures forall l :: 0 <= l < levels ==> rows[l] == Without(old(rows)[l], t)
      ensures forall u :: u in Bottom() <==> u in old(Bottom()) && u != t
    {
      ghost var rows0 := rows;
      for i := 0 to levels
        invariant |rows| == levels
        invariant forall l :: 0 <= l < levels ==> rows[l] == if l < i then Without(rows0[l], t) else rows0[l]
      {
        rows := rows[i := Without(rows[i], t)];
      }
      RemoveRows(rows0, rows, levels, due, stamp, t);
      assert rows0[levels - 1] == old(Bottom());
    }

    /** Walk row `l` from position `k` to the last timer due no later than `t`. */
    method SearchRow(l: nat, t: Id, k: nat) returns (r: nat)
      requires RowsOk() && l < levels && t in due && t in timeoutTick && timeoutTick[t] == due[t] % TICKS
      requires forall u :: u in rows[l] ==> u in timeoutTick && timeoutTick[u] == due[u] % TICKS
      requires forall u :: u in rows[l] ==> -0x8000_0001 <= due[u] - due[t] <= 0x7fff_fffe
      requires k <= |rows[l]| && forall j :: 0 <= j < k ==> due[rows[l][j]] <= due[t]
      ensures Cut(rows[l], due, t, r)
    {
      r := k;
      while r != |rows[l]|
        invariant 0 <= r <= |rows[l]|
        invariant forall j :: 0 <= j < r ==> due[rows[l][j]] <= due[t]
        decreases |rows[l]| - r
      {
        var u := rows[l][r];
        assert u in rows[l];
        CompareExact(due[u], due[t]);
        if Diff(timeoutTick[u], timeoutTick[t]) != 0 && Diff(timeoutTick[u], timeoutTick[t]) < HALF {
          break;
        }
        r := r + 1;
      }
      forall j | r <= j < |rows[l]|
        ensures due[t] < due[rows[l][j]]
      {
        if j > r { SortedAt(due, stamp, rows[l], r, j); }
      }
    }

    /** The place of a timer of row `l` in the row below, one behind it. */
    method Below(l: nat, k: nat) returns (r: nat)
      requires RowsOk() && l + 1 < levels && 0 < k <= |rows[l]|
      ensures 0 < r <= |rows[l + 1]| && rows[l + 1][r - 1] == rows[l][k - 1]
    {
      var u := rows[l][k - 1];
      assert Nested(rows, l) && u in rows[l];
      r := 0;
      while rows[l + 1][r] != u
        invariant 0 <= r < |rows[l + 1]| && u !in rows[l + 1][..r]
        decreases |rows[l + 1]| - r
      {
        assert rows[l + 1][..r + 1] == rows[l + 1][..r] + [rows[l + 1][r]];
        assert rows[l + 1] == rows[l + 1][..r + 1] + rows[l + 1][r + 1..];
        r := r + 1;
      }
      r := r + 1;
    }

    lemma PrefixNoLater(row: seq<Id>, t: Id, r: nat)
      requires Sorted(due, stamp, row) && t in due && 0 < r <= |row| && due[row[r - 1]] <= due[t]
      ensures forall j :: 0 <= j < r ==> due[row[j]] <= due[t]
    {
      forall j | 0 <= j < r - 1
        ensures due[row[j]] <= due[t]
      {
        SortedAt(due, stamp, row, j, r - 1);
      }
    }

    /** The insertion points in all rows, found going down from the first one. */
    method FindPlaces(t: Id) returns (heads: seq<nat>)
      requires RowsOk() && t in due && t in timeoutTick && timeoutTick[t] == due[t] % TICKS
      requires forall u :: u in Bottom() ==> u in timeoutTick && timeoutTick[u] == due[u] % TICKS
      requires forall u :: u in Bottom() ==> -0x8000_0001 <= due[u] - due[t] <= 0x7fff_fffe
      ensures |heads| == levels && (forall l :: 0 <= l < levels ==> heads[l] <= |rows[l]|) &&
              forall l :: 0 <= l < levels ==> Cut(rows[l], due, t, heads[l])
    {
      heads := [];
      var k := 0;
      for l := 0 to levels
        invariant |heads| == l && forall m :: 0 <= m < l ==> Cut(rows[m], due, t, heads[m])
        invariant l < levels ==> k <= |rows[l]| && forall j :: 0 <= j < k ==> due[rows[l][j]] <= due[t]
      {
        ListedInLast(rows, l);
        k := SearchRow(l, t, k);
        heads := heads + [k];
        if l != levels - 1 && k != 0 {
          var r := Below(l, k);
          PrefixNoLater(rows[l + 1], t, r);
          k := r;
        }
      }
    }

    /** The first row that the insert counter has a timer started now listed in. */
    function Top(): (l: int)
      requires levels > 0
      reads `randomNr
      ensures 0 <= l < levels
    {
      levels - 1 - Tower(randomNr, levels - 1)
    }

    /** Link `t` into the last row and into as many rows above it as the insert counter says. */
    method LinkTimer(t: Id, heads: seq<nat>)
      requires 0 < levels == |rows| == |heads| && forall l :: 0 <= l < levels ==> heads[l] <= |rows[l]|
      modifies `rows
      ensures LinkedFrom(old(rows), rows, heads, t, Top())
    {
      ghost var rows0 := rows;
      var tst: nat := randomNr;
      var l := levels - 1;
      rows := rows[l := Linked(rows[l], heads[l], t)];
      while l > 0 && tst % (MASK + 1) == 0
        invariant 0 <= l < levels == |rows|
        invariant Tower(randomNr, levels - 1) == levels - 1 - l + Tower(tst, l)
        invariant forall m :: 0 <= m < levels ==> rows[m] == if m >= l then Linked(rows0[m], heads[m], t) else rows0[m]
        decreases l
      {
        l := l - 1;
        rows := rows[l := Linked(rows[l], heads[l], t)];
        tst := tst / (MASK + 1);
      }
    }

    /** Nothing that is listed is so late that the comparison with `t`, started now, would wrap. */
    ghost predicate InWindow(t: Id)
      requires Valid() && t in initTick
      reads this
    {
      forall u :: u in Bottom() && u != t ==> due[u] >= clock + initTick[t] - 0x8000_0001
    }

    /** Row `l` as it was when `t` is listed anew: removed, and in the rows the timer is tall enough for
        inserted behind every timer that is due no later. */
    ghost predicate Restarted(row0: seq<Id>, row: seq<Id>, l: int, t: Id)
      requires t in due && (forall u :: u in row0 ==> u in due) && levels > 0
      reads `due, `randomNr
    {
      row == if l >= Top() then Insert(Without(row0, t), t, due) else Without(row0, t)
    }

    /** rt_timer_start: two sections with interrupts disabled.  An interrupt between them may change other
        timers; what `Enlist` asks for does not depend on them, except that none may be too late. */
    method Start(t: Id)
      requires Valid() && t in initTick && initTick[t] < HALF && InWindow(t)
      modifies `rows, `timeoutTick, `activated, `randomNr, `due, `stamp, `starts
      ensures Valid() && activated == old(activated) + {t}
      ensures due == old(due)[t := clock + initTick[t]] && stamp == old(stamp)[t := old(starts)] &&
              starts == old(starts) + 1
      ensures forall l :: 0 <= l < levels ==> Restarted(old(rows)[l], rows[l], l, t)
      ensures forall u :: u in Bottom() <==> u in old(Bottom()) || u == t
    {
      Unlist(t);
      ghost var rows1 := rows;
      Enlist(t);
      assert forall l :: 0 <= l < levels ==> rows1[l] == Without(old(rows)[l], t);
    }

    /** The first section, and the expiry that is set behind it. */
    method Unlist(t: Id)
      requires Valid() && t in initTick && initTick[t] < HALF
      modifies `rows, `timeoutTick, `activated, `due
      ensures Valid() && activated == old(activated) - {t} && |rows| == |old(rows)|
      ensures due == old(due)[t := clock + initTick[t]] && Armed(t)
      ensures forall l :: 0 <= l < levels ==> rows[l] == Without(old(rows)[l], t)
      ensures forall u :: u in Bottom() <==> u in old(Bottom()) && u != t
    {
      RemoveTimer(t);
      activated := activated - {t};
      Arm(t);
    }

    /** The expiry of `t` is set, less than half a turn ahead. */
    ghost predicate Armed(t: Id)
      reads `timeoutTick, `initTick, `due, `clock
    {
      t in initTick && t in due && t in timeoutTick && timeoutTick[t] == due[t] % TICKS && due[t] < clock + HALF
    }

    /** Set the expiry of a timer that is not listed. */
    method Arm(t: Id)
      requires Valid() && t in initTick && initTick[t] < HALF && t !in Bottom()
      modifies `timeoutTick, `due
      ensures Valid() && due == old(due)[t := clock + initTick[t]] && Armed(t)
    {
      hide Sorted, Nested, TimersOk;
      timeoutTick := timeoutTick[t := (tick + initTick[t]) % TICKS];
      TickSum(clock, initTick[t]);
      FrameRows(rows, levels, due, stamp, t, due[t := clock + initTick[t]], stamp);
      ArmTimer(Bottom(), initTick.Keys, old(timeoutTick), due, stamp, clock, starts, t, timeoutTick[t],
        clock + initTick[t]);
      due := due[t := clock + initTick[t]];
    }

    /** The second section: list the armed timer `t` in order, whatever happened to other timers since it was
        armed. */
    method Enlist(t: Id)
      requires Valid() && t !in Bottom() && Armed(t)
      requires forall u :: u in Bottom() ==> -0x8000_0001 <= due[u] - due[t] <= 0x7fff_fffe
      modifies `rows, `activated, `randomNr, `stamp, `starts
      ensures Valid() && activated == old(activated) + {t}
      ensures stamp == old(stamp)[t := old(starts)] && starts == old(starts) + 1
      ensures forall l :: 0 <= l < levels ==> rows[l] == if l >= Top() then Insert(old(rows)[l], t, due)
              else old(rows)[l]
      ensures forall u :: u in Bottom() <==> u in old(Bottom()) || u == t
    {
      hide Nested, Sorted, TimersOk;
      Stamp(t);
      Place(t);
      activated := activated + {t};
    }

    /** The starts are numbered in the order in which timers are listed. */
    ghost method Stamp(t: Id)
      requires Valid() && t !in Bottom() && Armed(t)
      modifies `stamp, `starts
      ensures Valid() && stamp == old(stamp)[t := old(starts)] && starts == old(starts) + 1
      ensures forall u :: u in Bottom() ==> u in stamp && stamp[u] < stamp[t]
    {
      hide Sorted, Nested, TimersOk;
      FrameRows(rows, levels, due, stamp, t, due, stamp[t := starts]);
      StampTimer(Bottom(), initTick.Keys, timeoutTick, due, stamp, clock, starts, t);
      stamp, starts := stamp[t := starts], starts + 1;
    }

    /** Find the place of `t` in all rows and link it. */
    method Place(t: Id)
      requires Valid() && t !in Bottom() && Armed(t) && t in stamp && stamp[t] < starts
      requires forall u :: u in Bottom() ==> u in stamp && stamp[u] < stamp[t]
      requires forall u :: u in Bottom() ==> -0x8000_0001 <= due[u] - due[t] <= 0x7fff_fffe
      modifies `rows, `randomNr
      ensures Valid()
      ensures forall l :: 0 <= l < levels ==> rows[l] == if l >= Top() then Insert(old(rows)[l], t, due)
              else old(rows)[l]
      ensures forall u :: u in Bottom() <==> u in old(Bottom()) || u == t
    {
      var heads := FindPlaces(t);
      randomNr := (randomNr + 1) % TICKS;
      LinkTimer(t, heads);
      InsertRows(old(rows), rows, levels, due, stamp, t, heads, Top());
    }

    lemma TickSum(c: nat, d: nat)
      ensures (c % TICKS + d) % TICKS == (c + d) % TICKS
    {
      ModShift(c % TICKS + d, c / TICKS);
      assert c % TICKS + d + c / TICKS * TICKS == c + d;
    }

    /** Returns false, and does nothing, unless the timer is flagged as activated. */
    method Stop(t: Id) returns (ok: bool)
      requires Valid()
      modifies `rows, `activated
      ensures Valid() && ok == (t in old(activated))
      ensures ok ==> activated == old(activated) - {t} && forall l :: 0 <= l < levels ==>
              rows[l] == Without(old(rows)[l], t)
      ensures forall u :: u in Bottom() <==> u in old(Bottom()) && (ok ==> u != t)
      ensures !ok ==> activated == old(activated) && rows == old(rows)
    {
      if t !in activated {
        return false;
      }
      RemoveTimer(t);
      activated := activated - {t};
      return true;
    }

    /** No listed timer is overdue by more than `late` ticks, which is less than half a turn of the tick. */
    ghost predicate OnTime()
      requires Valid()
      reads `rows, `tick, `timeoutTick, `initTick, `randomNr, `clock, `due, `stamp, `starts
    {
      late < HALF && forall u :: u in Bottom() ==> due[u] + late >= clock
    }

    /** The timers that are due, in the order they will fire. */
    ghost function Expired(): seq<Id>
      requires Valid()
      reads `rows, `tick, `timeoutTick, `initTick, `randomNr, `clock, `due, `stamp, `starts
    {
      ExpiredPrefix(Bottom(), due, clock)
    }

    /** Which timers are listed, flagged and due. */
    ghost function Look(): View
      requires Valid()
      reads `rows, `tick, `timeoutTick, `initTick, `randomNr, `clock, `due, `stamp, `starts, `activated
    {
      View(Bottom(), activated, Expired(), due, stamp)
    }

    /** Timers are listed exactly while they are flagged. */
    ghost predicate Consistent()
      requires 0 < levels == |rows|
      reads `rows, `activated
    {
      forall u :: u in Bottom() <==> u in activated
    }

    /** Start `t`: what else is due stays so, in order, and `t` is due last if it is started for now. */
    method Restart(t: Id)
      requires Valid() && OnTime() && t in initTick && Comparable(late, initTick[t])
      modifies `rows, `timeoutTick, `activated, `randomNr, `due, `stamp, `starts
      ensures Valid() && OnTime() && activated == old(activated) + {t}
      ensures due == old(due)[t := clock + initTick[t]] && stamp == old(stamp)[t := old(starts)]
      ensures forall u :: u in Bottom() <==> u in old(Bottom()) || u == t
      ensures Expired() == Without(old(Expired()), t) + (if initTick[t] == 0 then [t] else [])
    {
      hide TimerOrder.Chain, Nested, Insert, Without, ExpiredPrefix;
      ghost var row0, due0, stamp0 := Bottom(), due, stamp;
      RemoveSorted(due, stamp, row0, t);
      Start(t);
      assert Restarted(row0, Bottom(), levels - 1, t);
      PrefixAfterStart(row0, due0, stamp0, t, clock + initTick[t], clock, Bottom(), due);
    }

    method StartOnTime(t: Id)
      requires Valid() && OnTime() && Allowed(StartTimer(t), initTick, late)
      modifies `rows, `timeoutTick, `activated, `randomNr, `due, `stamp, `starts
      ensures Valid() && OnTime() && Touched([StartTimer(t)], old(Look()), Look())
    {
      hide TimerOrder.Chain, Rows, OnTime, ExpiredPrefix, AfterCalls, Touched;
      ghost var v := Look();
      Seen();
      Restart(t);
      Seen();
      StartTouches(t, v, Look());
    }

    method StopOnTime(t: Id)
      requires Valid() && OnTime()
      modifies `rows, `activated
      ensures Valid() && OnTime() && Touched([StopTimer(t)], old(Look()), Look())
    {
      hide TimerOrder.Chain, Nested, Without, ExpiredPrefix, AfterCalls, Touched;
      ghost var v := Look();
      Seen();
      PrefixWithout(due, stamp, Bottom(), clock, t);
      var ok := Stop(t);
      StopTouches(t, v, Look());
    }

    /** The calls a timeout function makes. */
    method Run(cs: seq<Command>)
      requires Valid() && OnTime() && forall c :: c in cs ==> Allowed(c, initTick, late)
      modifies `rows, `timeoutTick, `activated, `randomNr, `due, `stamp, `starts
      ensures Valid() && OnTime() && Touched(cs, old(Look()), Look())
    {
      hide Valid, OnTime, Look, Touched, AfterCalls;
      ghost var v := Look();
      Seen();
      NoneTouched(v);
      for i := 0 to |cs|
        invariant Valid() && OnTime() && Touched(cs[..i], v, Look())
      {
        ghost var w := Look();
        Execute(cs[i]);
        OneMore(cs[..i], cs[i], v, w, Look());
        assert cs[..i + 1] == cs[..i] + [cs[i]];
      }
      assert cs[..|cs|] == cs;
    }

    method Execute(c: Command)
      requires Valid() && OnTime() && Allowed(c, initTick, late)
      modifies `rows, `timeoutTick, `activated, `randomNr, `due, `stamp, `starts
      ensures Valid() && OnTime() && Touched([c], old(Look()), Look())
    {
      hide Valid, OnTime, Look, Touched;
      match c
      case StartTimer(t) => StartOnTime(t);
      case StopTimer(t) => StopOnTime(t);
    }

    /** Take the timer that is due first off all rows. */
    method RemoveHead(t: Id)
      requires Valid() && OnTime() && HeadDue(t)
      modifies `rows
      ensures Valid() && OnTime()
      ensures old(Expired()) == [t] + Expired() && t !in Expired() && t in initTick
      ensures forall u :: u in Bottom() <==> u in old(Bottom()) && u != t
    {
      PrefixDistinct(due, stamp, Bottom(), clock);
      RemoveSorted(due, stamp, Bottom(), t);
      assert Without(Bottom(), t) == Bottom()[1..];
      assert Expired() == [t] + ExpiredPrefix(Bottom()[1..], due, clock);
      RemoveTimer(t);
    }

    /** Re-list a periodic timer that is still activated, clear the flag of any other one. */
    method Rearm(t: Id)
      requires Valid() && OnTime() && t in initTick &&
               (t in periodic && t in activated ==> Comparable(late, initTick[t]))
      modifies `rows, `timeoutTick, `activated, `randomNr, `due, `stamp, `starts
      ensures Valid() && OnTime()
      ensures forall u :: u != t ==>
              (u in Bottom() <==> u in old(Bottom())) && (u in activated <==> u in old(activated))
      ensures forall u :: u != t && u in Bottom() ==> due[u] == old(due)[u] && stamp[u] == old(stamp)[u]
      ensures if t in periodic && t in old(activated)
              then t in Bottom() && t in activated && due[t] == clock + initTick[t]
              else t !in activated && rows == old(rows) && due == old(due)
      ensures t !in old(Expired()) ==>
              Expired() == old(Expired()) + (if t in periodic && t in old(activated) &&
              initTick[t] == 0 then [t] else [])
    {
      hide Rows, TimersOk, OnTime, ExpiredPrefix;
      if t in periodic && t in activated {
        activated := activated - {t};
        Restart(t);
      } else {
        activated := activated - {t};
      }
    }

    /** Its timeout function leaves the periodic timer `t` active, so that it is listed again. */
    ghost predicate Rearms(t: Id, cs: seq<Command>)
      reads `periodic, `activated
    {
      t in periodic && EndsStarted(cs, t, t in activated)
    }

    /** Take the head timer off the list and call its timeout function. */
    method Expire(t: Id, cs: seq<Command>)
      requires Valid() && OnTime() && HeadDue(t)
      requires forall c :: c in cs ==> Allowed(c, initTick, late)
      modifies `rows, `timeoutTick, `activated, `randomNr, `due, `stamp, `starts
      ensures Valid() && OnTime() && t in initTick && Expires(t, cs, old(Look()), Look())
    {
      hide Valid, OnTime, Touched, AfterCalls;
      ghost var v := Look();
      RemoveHead(t);
      ghost var w := Look();
      Run(cs);
      ExpiresIntro(t, cs, v, w, Look());
    }

    /** Every listed timer has an expiry, and those that have reached it are due. */
    lemma Seen()
      requires Valid()
      ensures Look().Ok() && forall u :: u in Look().expired <==> u in Look().row && Look().due[u] <= clock
    {
      PrefixIsExpired(due, stamp, Bottom(), clock);
      PrefixDistinct(due, stamp, Bottom(), clock);
    }

    /** The end of a round. */
    method Relist(t: Id)
      requires Valid() && OnTime() && t in initTick && t !in Look().expired
      requires t in periodic && t in activated ==> Comparable(late, initTick[t])
      modifies `rows, `timeoutTick, `activated, `randomNr, `due, `stamp, `starts
      ensures Valid() && OnTime() && Relisted(t, t in periodic, clock, initTick[t], old(Look()), Look())
    {
      hide Rows, TimersOk, OnTime, ExpiredPrefix, Relisted;
      ghost var w := Look();
      Seen();
      Rearm(t);
      Seen();
      RelistedIntro(t, t in periodic, clock, initTick[t], w, Look());
    }

    /** One round of the firing loop for the head timer `t`, whose timeout function makes the calls `cs`. */
    method Fire(t: Id, cs: seq<Command>)
      requires Valid() && OnTime() && HeadDue(t) && t in initTick
      requires (forall c :: c in cs ==> Allowed(c, initTick, late)) && (Rearms(t, cs) ==> Comparable(late, initTick[t]))
      modifies `rows, `timeoutTick, `activated, `randomNr, `due, `stamp, `starts
      ensures Valid() && OnTime() && Round(t, cs, t in periodic, clock, initTick[t], old(Look()), Look())
      // a period of no ticks: the timer is due again at once, until a timeout function stops it
      ensures forall u :: old(Stuck(u)) && (if u == t then old(Rearms(t, cs)) else Unnamed(cs, u)) ==> Stuck(u)
      // flags and list part exactly if a one-shot timer is started by its own timeout function
      ensures old(Consistent()) ==> (Consistent() <==> t in periodic || !EndsStarted(cs, t, false))
    {
      hide Valid, OnTime, Expired, HeadDue, Expires, Relisted, Round, AfterCalls, EndsStarted;
      ghost var v := Look();
      Expire(t, cs);
      ghost var w := Look();
      LastInCalls(t, cs, v, w);
      Relist(t);
      RoundIntro(t, cs, t in periodic, clock, initTick[t], v, w, Look());
      RoundKeeps(t, cs, t in periodic, clock, initTick[t], v, Look());
    }

    /** The timers that fire while the loop works off those that are due now, in this order. */
    ghost function Fires(script: map<Id, seq<Command>>): seq<Id>
      requires Valid()
      reads this
    {
      FirstPass(Look().expired, script, Look().flagged)
    }

    /** What the loop asks of the timers that fire: the calls they make, and periods that can be compared. */
    ghost predicate Fit(script: map<Id, seq<Command>>)
      requires Valid()
      reads this
    {
      Playable(script, Look(), periodic, initTick, late)
    }

    /** The due timer `u` has a period of no ticks, and no timer that fires stops it. */
    ghost predicate KeepsGoing(u: Id, script: map<Id, seq<Command>>)
      requires Valid()
      reads this
    {
      GoesOn(script, Look().expired, Look().flagged, periodic, initTick, u)
    }

    /** Whether `u` will be listed after the loop: if it fires, its own timeout function decides. */
    ghost predicate StaysListed(u: Id, script: map<Id, seq<Command>>)
      requires Valid()
      reads this
    {
      if u in Fires(script) then EndsStarted(Calls(script, u), u, u in periodic && u in activated) else u in Bottom()
    }

    /** A listed timer that is due and has a period of no ticks. */
    ghost predicate Stuck(u: Id)
      requires Valid()
      reads this
    {
      u in Bottom() && due[u] <= clock && u in periodic && u in activated && u in initTick && initTick[u] == 0
    }

    ghost predicate HeadDue(t: Id)
      requires Valid()
      reads this
    {
      Bottom() != [] && Bottom()[0] == t && due[t] <= clock
    }

    ghost predicate AllLater()
      requires Valid()
      reads this
    {
      Expired() == [] && forall u :: u in Bottom() ==> due[u] > clock
    }

    /** The timer that is due first, if it is due by now. */
    method DueNow() returns (t: Id, yes: bool)
      requires Valid() && OnTime()
      ensures yes ==> HeadDue(t) && Look().expired != [] && Look().expired[0] == t && t in initTick
      ensures !yes ==> AllLater()
    {
      t, yes := 0, false;
      if rows[levels - 1] != [] {
        t := rows[levels - 1][0];
        assert t in Bottom();
        ExpiredExact(clock, due[t]);
        yes := Diff(tick, timeoutTick[t]) < HALF;
      }
      if !yes {
        NoneDue();
      }
    }

    /** One round of the loop, in which the timer due first fires. */
    method Turn(t: Id, script: map<Id, seq<Command>>)
      requires Valid() && OnTime() && Fit(script) && HeadDue(t) && Look().expired != [] && Look().expired[0] == t &&
               t in initTick
      modifies `rows, `timeoutTick, `activated, `randomNr, `due, `stamp, `starts
      ensures Valid() && OnTime() && Fit(script)
      ensures PlayableAt(script, old(Look()), periodic, initTick, late, t)
      ensures Round(t, Calls(script, t), t in periodic, clock, initTick[t], old(Look()), Look())
      ensures forall u :: old(KeepsGoing(u, script)) ==> KeepsGoing(u, script)
    {
      hide Valid, OnTime, Expired, HeadDue, Allowed, Round, GoesOn, Stuck, Playable, FirstPass;
      ghost var v := Look();
      PlaysFirst(script, v, periodic, initTick, late);
      Fire(t, Calls(script, t));
      PlayableAfter(script, v, Look(), periodic, initTick, late, clock, t);
      forall u | old(KeepsGoing(u, script))
        ensures KeepsGoing(u, script)
      {
        GoesOnAfter(script, v, Look(), periodic, initTick, late, clock, t, u);
      }
    }

    /** The firing loop; `script` says which calls each timeout function makes.  It ends, unless a timer keeps it
        going.  Exactly the timers of the first pass have fired, once each, and nothing listed is due. */
    method Check(script: map<Id, seq<Command>>) returns (fired: seq<Id>)
      requires Valid() && OnTime() && Fit(script) && forall u :: !KeepsGoing(u, script)
      modifies `rows, `timeoutTick, `activated, `randomNr, `due, `stamp, `starts
      ensures Valid() && OnTime() && AllLater()
      ensures fired == old(Fires(script)) && Distinct(fired) && forall t :: t in fired ==> t in old(Expired())
      // whatever the timeout functions do: where every timer ends up
      ensures forall u :: Look().MarkOf(u) == AfterRounds(fired, script, u, old(Look()).MarkOf(u), u in periodic)
      ensures old(Consistent()) ==> (Consistent() <==> forall u :: !Loose(fired, script, u, u in periodic))
      ensures forall u :: Private(fired, script, u) ==> (u in Bottom() <==> old(StaysListed(u, script)))
      // no timeout function interferes with a timer still to be fired
      ensures Undisturbed(old(Expired()), script) ==> fired == old(Expired())
    {
      hide Valid, OnTime, Playable, GoesOn, Progress, Distinct, AfterRounds, Loose, Private, EndsStarted, FirstPass;
      ghost var v := Look();
      Seen();
      BeginProgress(script, v, periodic, initTick);
      GoingIs(script);
      ghost var first, again;
      fired, first, again := FireAll(script, v);
      EndOfLoop(script, v, fired, first, again);
      ProgressDone(script, v, fired, Look(), periodic, initTick);
    }

    lemma GoingIs(script: map<Id, seq<Command>>)
      requires Valid()
      ensures forall u :: KeepsGoing(u, script) <==>
              GoesOn(script, Look().expired, Look().flagged, periodic, initTick, u)
    {
    }

    /** Nothing is due, so nothing is left to fire. */
    lemma EndOfLoop(script: map<Id, seq<Command>>, v: View, fired: seq<Id>, first: seq<Id>, again: seq<Id>)
      requires Valid() && AllLater() && Progress(script, v, fired, first, again, Look(), periodic, initTick)
      ensures first == [] && again == []
    {
      assert |first + again| == 0;
    }

    method FireAll(script: map<Id, seq<Command>>, ghost v: View) returns (fired: seq<Id>, ghost first: seq<Id>,
                   ghost again: seq<Id>)
      requires Valid() && OnTime() && Fit(script) && v == Look() &&
               Progress(script, v, [], v.expired, [], v, periodic, initTick)
      requires forall u :: !GoesOn(script, v.expired, v.flagged, periodic, initTick, u)
      modifies `rows, `timeoutTick, `activated, `randomNr, `due, `stamp, `starts
      ensures Valid() && OnTime() && AllLater() && Progress(script, v, fired, first, again, Look(), periodic, initTick)
    {
      hide *;
      fired, first, again := [], v.expired, [];
      var t, more := DueNow();
      while more
        invariant Valid() && OnTime() && Fit(script)
        invariant if more then HeadDue(t) && Look().expired != [] && Look().expired[0] == t && t in initTick
                  else AllLater()
        invariant Progress(script, v, fired, first, again, Look(), periodic, initTick)
        decreases |first|
      {
        ghost var w := Look();
        if first == [] {
          AgainGoesOn(script, v, fired, again, w, periodic, initTick);
        }
        HeadWaits(script, v, fired, first, again, w, periodic, initTick);
        Turn(t, script);
        first, again := ProgressStep(script, v, fired, first, again, w, Look(), periodic, initTick, late, clock);
        fired := fired + [t];
        t, more := DueNow();
      }
    }

    /** The firing loop, cut short after `n` rounds.  Given at least as many rounds as there are timers in the
        first pass, it has come to its end if and only if no timer keeps it going; one that does is still due
        after any number of rounds. */
    method CheckFor(script: map<Id, seq<Command>>, n: nat) returns (fired: seq<Id>)
      requires Valid() && OnTime() && Fit(script)
      modifies `rows, `timeoutTick, `activated, `randomNr, `due, `stamp, `starts
      ensures Valid() && OnTime() && |fired| <= n
      ensures n >= |old(Fires(script))| ==> (AllLater() <==> forall u :: !old(KeepsGoing(u, script)))
      ensures forall u :: old(KeepsGoing(u, script)) ==> |fired| == n && KeepsGoing(u, script) && !AllLater()
    {
      hide Valid, OnTime, Look, HeadDue, AllLater, Fit, Fires, KeepsGoing, Playable, PlayableAt, Round, GoesOn,
        Progress, Distinct, FirstPass;
      ghost var v := Look();
      Seen();
      ScanIs(script);
      GoingIs(script);
      BeginProgress(script, v, periodic, initTick);
      fired := [];
      ghost var first, again := v.expired, [];
      var t, more := DueNow();
      while more && |fired| < n
        invariant Valid() && OnTime() && Fit(script) && |fired| <= n
        invariant if more then HeadDue(t) && Look().expired != [] && Look().expired[0] == t && t in initTick
                  else AllLater()
        invariant forall u :: old(KeepsGoing(u, script)) ==> KeepsGoing(u, script)
        invariant (forall u :: !old(KeepsGoing(u, script))) ==>
                  Progress(script, v, fired, first, again, Look(), periodic, initTick)
        decreases n - |fired|
      {
        ghost var w := Look();
        Turn(t, script);
        if forall u :: !old(KeepsGoing(u, script)) {
          if first == [] {
            AgainGoesOn(script, v, fired, again, w, periodic, initTick);
          }
          HeadWaits(script, v, fired, first, again, w, periodic, initTick);
          first, again := ProgressStep(script, v, fired, first, again, w, Look(), periodic, initTick, late, clock);
        }
        fired := fired + [t];
        t, more := DueNow();
      }
      StillDue(script);
      if more && forall u :: !old(KeepsGoing(u, script)) {
        if first == [] {
          AgainGoesOn(script, v, fired, again, Look(), periodic, initTick);
        }
        HeadWaits(script, v, fired, first, again, Look(), periodic, initTick);
      }
    }

    lemma ScanIs(script: map<Id, seq<Command>>)
      requires Valid()
      ensures Fires(script) == FirstPass(Look().expired, script, Look().flagged) && Distinct(Look().expired)
    {
      Seen();
    }

    lemma StillDue(script: map<Id, seq<Command>>)
      requires Valid()
      ensures (exists u :: KeepsGoing(u, script)) || Look().expired != [] ==> !AllLater()
      ensures forall u :: KeepsGoing(u, script) ==> !AllLater()
    {
      hide FirstPass, ExpiredPrefix;
    }

    lemma NoneDue()
      requires Valid() && (Bottom() == [] || due[Bottom()[0]] > clock)
      ensures AllLater()
    {
      forall u | u in Bottom()
        ensures due[u] > clock
      {
        HeadIsNext(due, stamp, Bottom(), u);
      }
    }
  }

  /** A list with one started timer. */
  method Alone(time: nat, isPeriodic: bool) returns (l: TimerList)
    requires time < HALF
    ensures fresh(l) && l.Valid() && l.late == 0 && l.clock == 0 && l.initTick == map[0 := time]
    ensures (forall u :: u in l.Bottom() <==> u == 0) && l.activated == {0} && (0 in l.periodic <==> isPeriodic)
    ensures 0 in l.due && l.due[0] == time
  {
    hide Nested, Sorted;
    l := new TimerList(1, 0);
    l.Init(0, time, isPeriodic);
    l.Start(0);
  }

  lemma OnlyItem(row: seq<Id>)
    requires forall u :: u in row <==> u == 0
    ensures row != [] && row[0] == 0
  {
    assert 0 in row && row[0] in row;
  }

  /** A one-shot timer that its own timeout function starts again ends up listed but not flagged. */
  method SelfRestart() returns (l: TimerList)
    ensures fresh(l) && l.Valid() && 0 in l.Bottom() && 0 !in l.activated
  {
    hide Nested, Sorted, TimersOk, ExpiredPrefix, AfterFiring, AfterCalls;
    l := Alone(1, false);
    l.Tick();
    OnlyItem(l.Bottom());
    assert l.Consistent();
    ghost var m := l.Look().MarkOf(0);
    FiringDecides([StartTimer(0)], 0, m, false);
    l.Fire(0, [StartTimer(0)]);
    assert l.Look().MarkOf(0) == AfterFiring([StartTimer(0)], 0, m, false);
  }

  /** A started timer with a period of no ticks keeps the loop going for any number of rounds. */
  method NoTicks(n: nat) returns (l: TimerList, fired: seq<Id>)
    ensures fresh(l) && l.Valid() && |fired| == n && !l.AllLater()
  {
    hide Rows, TimersOk, ExpiredPrefix, FirstPass;
    l := Alone(0, true);
    l.Seen();
    assert l.KeepsGoing(0, map[]);
    fired := l.CheckFor(map[], n);
  }
}
