/** The offset chain of the small-memory heap: `next` runs through all blocks to the end marker, which
    points to itself; `prev` inverts it everywhere except at the end marker. */
module SmallMemLinks {
  import opened Arena
  import opened BlockLayout
  import opened LayoutChanges

  const ALIGN_SIZE := 4    // RT_ALIGN_SIZE
  const HEADER := 12       // SIZEOF_STRUCT_MEM of a 32-bit build

  ghost predicate LinkedAt(used: map<int, bool>, next: map<int, int>, prev: map<int, int>,
                           bs: seq<Block>, end: int, i: int)
    requires 0 <= i <= |bs|
  {
    var a := AddrAt(bs, i, end);
    && a in used && a in next
    && used[a] == (i == |bs| || bs[i].used)
    && next[a] == (if i == |bs| then end else AddrAt(bs, i + 1, end))
    && (i < |bs| ==> a in prev && prev[a] == if i == 0 then a else bs[i - 1].addr)
  }

  ghost predicate Linked(used: map<int, bool>, next: map<int, int>, prev: map<int, int>, bs: seq<Block>, end: int) {
    && Tiles(bs, 0, end, HEADER) && end % ALIGN_SIZE == 0
    && (forall b :: b in bs ==> b.addr % ALIGN_SIZE == 0 && b.size % ALIGN_SIZE == 0)
    && forall i :: 0 <= i <= |bs| ==> LinkedAt(used, next, prev, bs, end, i)
  }

  /** `prev` of the end marker may hold anything. */
  ghost predicate SameButAt(m: map<int, int>, m': map<int, int>, e: int) {
    forall x :: x in m && x != e ==> x in m' && m'[x] == m[x]
  }

  lemma MarkedLinked(used: map<int, bool>, next: map<int, int>, prev: map<int, int>, bs: seq<Block>, end: int,
                     i: int, v: bool, used': map<int, bool>)
    requires Linked(used, next, prev, bs, end) && 0 <= i < |bs|
    requires used' == used[bs[i].addr := v]
    ensures Linked(used', next, prev, Marked(bs, i, v), end)
  {
    var rs := Marked(bs, i, v);
    assert Abuts(bs, i, end, HEADER) && bs[i] in bs;
    ReplaceTiles(bs, 0, end, HEADER, i, 1, [rs[i]]);
    forall j | 0 <= j <= |rs|
      ensures LinkedAt(used', next, prev, rs, end, j)
    {
      assert LinkedAt(used, next, prev, bs, end, j);
      if i < j { AddrDistinct(bs, end, HEADER, i, j); }
      if j < i { AddrDistinct(bs, end, HEADER, j, i); }
    }
  }

  /** A new unused header at `a` inside block `i`. */
  lemma CutLinked(used: map<int, bool>, next: map<int, int>, prev: map<int, int>, bs: seq<Block>, end: int,
                  i: int, a: int, used': map<int, bool>, next': map<int, int>, prev': map<int, int>)
    requires Linked(used, next, prev, bs, end) && 0 <= i < |bs|
    requires bs[i].addr + HEADER <= a && a + HEADER <= AddrAt(bs, i + 1, end) && a % ALIGN_SIZE == 0
    requires bs[i].addr in next
    requires used' == used[a := false]
    requires next' == next[a := next[bs[i].addr]][bs[i].addr := a]
    requires SameButAt(prev[a := bs[i].addr][next[bs[i].addr] := a], prev', end)
    ensures Linked(used', next', prev', CutAt(bs, end, HEADER, i, a), end)
  {
    hide LinkedAt, Linked, Tiles, CutAt, SameButAt, AddrAt;
    FromLinked(used, next, prev, bs, end);
    CutTiles(bs, end, i, a);
    CutAligned(used, next, prev, bs, end, i, a);
    NextIs(used, next, prev, bs, end, i);
    forall j | 0 <= j <= |CutAt(bs, end, HEADER, i, a)|
      ensures LinkedAt(used', next', prev', CutAt(bs, end, HEADER, i, a), end, j)
    {
      CutLinkedAt(used, next, prev, bs, end, i, a, used', next', prev', j);
    }
    ToLinked(used', next', prev', CutAt(bs, end, HEADER, i, a), end);
  }

  lemma FromLinked(used: map<int, bool>, next: map<int, int>, prev: map<int, int>, bs: seq<Block>, end: int)
    requires Linked(used, next, prev, bs, end)
    ensures Tiles(bs, 0, end, HEADER)
  {
  }

  lemma ToLinked(used: map<int, bool>, next: map<int, int>, prev: map<int, int>, bs: seq<Block>, end: int)
    requires Tiles(bs, 0, end, HEADER) && end % ALIGN_SIZE == 0
    requires forall b :: b in bs ==> b.addr % ALIGN_SIZE == 0 && b.size % ALIGN_SIZE == 0
    requires forall i :: 0 <= i <= |bs| ==> LinkedAt(used, next, prev, bs, end, i)
    ensures Linked(used, next, prev, bs, end)
  {
  }

  /** The pieces of a block cut at an aligned place are aligned. */
  lemma CutAligned(used: map<int, bool>, next: map<int, int>, prev: map<int, int>, bs: seq<Block>, end: int, i: int,
                   a: int)
    requires Linked(used, next, prev, bs, end) && 0 <= i < |bs| && a % ALIGN_SIZE == 0
    ensures end % ALIGN_SIZE == 0
    ensures forall b :: b in CutAt(bs, end, HEADER, i, a) ==> b.addr % ALIGN_SIZE == 0 && b.size % ALIGN_SIZE == 0
  {
    hide LinkedAt, Tiles;
    assert bs[i] in bs && (i + 1 < |bs| ==> bs[i + 1] in bs);
  }

  lemma NextIs(used: map<int, bool>, next: map<int, int>, prev: map<int, int>, bs: seq<Block>, end: int, i: int)
    requires Linked(used, next, prev, bs, end) && 0 <= i < |bs|
    ensures bs[i].addr in next && next[bs[i].addr] == AddrAt(bs, i + 1, end)
  {
    assert LinkedAt(used, next, prev, bs, end, i);
  }

  lemma CutTiles(bs: seq<Block>, end: int, i: int, a: int)
    requires Tiles(bs, 0, end, HEADER) && 0 <= i < |bs|
    requires bs[i].addr + HEADER <= a && a + HEADER <= AddrAt(bs, i + 1, end)
    ensures Tiles(CutAt(bs, end, HEADER, i, a), 0, end, HEADER) && |CutAt(bs, end, HEADER, i, a)| == |bs| + 1
  {
    var rs := CutAt(bs, end, HEADER, i, a);
    var mid := [rs[i], rs[i + 1]];
    assert Abuts(mid, 0, AddrAt(bs, i + 1, end), HEADER) && Abuts(mid, 1, AddrAt(bs, i + 1, end), HEADER);
    assert rs == Replace(bs, i, 1, mid);
    assert Abuts(bs, i, end, HEADER);
    ReplaceTiles(bs, 0, end, HEADER, i, 1, mid);
  }

  /** Where the blocks of a layout are after block `i` was cut at `a`, and which are used. */
  lemma CutShape(bs: seq<Block>, end: int, i: int, a: int, j: int)
    requires 0 <= i < |bs| && 0 <= j <= |bs| + 1
    ensures var rs := CutAt(bs, end, HEADER, i, a);
      && |rs| == |bs| + 1
      && AddrAt(rs, j, end) == (if j <= i then AddrAt(bs, j, end) else if j == i + 1 then a else AddrAt(bs, j - 1, end))
      && (j < |rs| ==> rs[j].used == if j <= i then bs[j].used else j > i + 1 && bs[j - 1].used)
  {
    var rs := CutAt(bs, end, HEADER, i, a);
    assert |rs| == |bs| + 1;
    if j > i + 1 && j < |rs| {
      assert rs[j] == bs[i + 1..][j - i - 2] == bs[j - 1];
    } else if j < i {
      assert rs[j] == bs[..i][j] == bs[j];
    }
  }

  lemma CutLinkedAt(used: map<int, bool>, next: map<int, int>, prev: map<int, int>, bs: seq<Block>, end: int,
                    i: int, a: int, used': map<int, bool>, next': map<int, int>, prev': map<int, int>, j: int)
    requires Linked(used, next, prev, bs, end) && 0 <= i < |bs| && 0 <= j <= |bs| + 1
    requires bs[i].addr + HEADER <= a && a + HEADER <= AddrAt(bs, i + 1, end)
    requires bs[i].addr in next && next[bs[i].addr] == AddrAt(bs, i + 1, end)
    requires used' == used[a := false]
    requires next' == next[a := next[bs[i].addr]][bs[i].addr := a]
    requires SameButAt(prev[a := bs[i].addr][next[bs[i].addr] := a], prev', end)
    ensures LinkedAt(used', next', prev', CutAt(bs, end, HEADER, i, a), end, j)
  {
    hide CutAt, Tiles;
    var rs := CutAt(bs, end, HEADER, i, a);
    CutShape(bs, end, i, a, j);
    if j > 0 { CutShape(bs, end, i, a, j - 1); }
    if j < |rs| { CutShape(bs, end, i, a, j + 1); }
    if j < i {
      AddrDistinct(bs, end, HEADER, j, i);
      AddrDistinct(bs, end, HEADER, j, i + 1);
      AddrDistinct(bs, end, HEADER, j, |bs|);
      assert LinkedAt(used, next, prev, bs, end, j);
    } else if j > i + 1 {
      AddrDistinct(bs, end, HEADER, i, j - 1);
      if j > i + 2 { AddrDistinct(bs, end, HEADER, i + 1, j - 1); }
      if j <= |bs| { AddrDistinct(bs, end, HEADER, j - 1, |bs|); }
      assert LinkedAt(used, next, prev, bs, end, j - 1);
    } else {
      assert LinkedAt(used, next, prev, bs, end, i);
      AddrDistinct(bs, end, HEADER, i, i + 1);
      AddrDistinct(bs, end, HEADER, i, |bs|);
      if i + 1 < |bs| { AddrDistinct(bs, end, HEADER, i + 1, |bs|); }
    }
  }

  lemma JoinedLinked(used: map<int, bool>, next: map<int, int>, prev: map<int, int>, bs: seq<Block>, end: int,
                     i: int, next': map<int, int>, prev': map<int, int>)
    requires Linked(used, next, prev, bs, end) && 0 <= i < |bs| - 1
    requires bs[i + 1].addr in next
    requires next' == next[bs[i].addr := next[bs[i + 1].addr]]
    requires prev' == prev[next[bs[i + 1].addr] := bs[i].addr]
    ensures Linked(used, next', prev', Joined(bs, HEADER, i), end)
  {
    hide LinkedAt, Linked, Tiles, Joined, AddrAt;
    FromLinked(used, next, prev, bs, end);
    JoinedTiles(bs, end, i);
    JoinedAligned(used, next, prev, bs, end, i);
    NextIs(used, next, prev, bs, end, i + 1);
    forall j | 0 <= j <= |Joined(bs, HEADER, i)|
      ensures LinkedAt(used, next', prev', Joined(bs, HEADER, i), end, j)
    {
      JoinedLinkedAt(used, next, prev, bs, end, i, next', prev', j);
    }
    ToLinked(used, next', prev', Joined(bs, HEADER, i), end);
  }

  lemma JoinedTiles(bs: seq<Block>, end: int, i: int)
    requires Tiles(bs, 0, end, HEADER) && 0 <= i < |bs| - 1
    ensures Tiles(Joined(bs, HEADER, i), 0, end, HEADER) && |Joined(bs, HEADER, i)| == |bs| - 1
  {
    var rs := Joined(bs, HEADER, i);
    assert Abuts(bs, i, end, HEADER) && Abuts(bs, i + 1, end, HEADER);
    assert Abuts([rs[i]], 0, AddrAt(bs, i + 2, end), HEADER);
    ReplaceTiles(bs, 0, end, HEADER, i, 2, [rs[i]]);
  }

  lemma JoinedAligned(used: map<int, bool>, next: map<int, int>, prev: map<int, int>, bs: seq<Block>, end: int, i: int)
    requires Linked(used, next, prev, bs, end) && 0 <= i < |bs| - 1
    ensures end % ALIGN_SIZE == 0
    ensures forall b :: b in Joined(bs, HEADER, i) ==> b.addr % ALIGN_SIZE == 0 && b.size % ALIGN_SIZE == 0
  {
    hide LinkedAt, Tiles;
    assert bs[i] in bs && bs[i + 1] in bs;
  }

  lemma JoinedLinkedAt(used: map<int, bool>, next: map<int, int>, prev: map<int, int>, bs: seq<Block>, end: int,
                       i: int, next': map<int, int>, prev': map<int, int>, j: int)
    requires Linked(used, next, prev, bs, end) && 0 <= i < |bs| - 1 && 0 <= j < |bs|
    requires bs[i + 1].addr in next && next[bs[i + 1].addr] == AddrAt(bs, i + 2, end)
    requires next' == next[bs[i].addr := next[bs[i + 1].addr]]
    requires prev' == prev[next[bs[i + 1].addr] := bs[i].addr]
    ensures LinkedAt(used, next', prev', Joined(bs, HEADER, i), end, j)
  {
    var rs := Joined(bs, HEADER, i);
    if j < i {
      AddrDistinct(bs, end, HEADER, j, i);
      AddrDistinct(bs, end, HEADER, j, i + 2);
      assert rs[j] == bs[j] && AddrAt(rs, j + 1, end) == AddrAt(bs, j + 1, end);
      assert LinkedAt(used, next, prev, bs, end, j);
      assert j > 0 ==> rs[j - 1] == bs[j - 1];
    } else if j > i {
      AddrDistinct(bs, end, HEADER, i, j + 1);
      if j > i + 1 { AddrDistinct(bs, end, HEADER, i + 2, j + 1); }
      assert LinkedAt(used, next, prev, bs, end, j + 1);
      assert AddrAt(rs, j, end) == AddrAt(bs, j + 1, end);
    } else {
      assert LinkedAt(used, next, prev, bs, end, i);
      assert rs[i].addr == bs[i].addr && (i > 0 ==> rs[i - 1] == bs[i - 1]);
      assert AddrAt(rs, i + 1, end) == AddrAt(bs, i + 2, end);
      AddrDistinct(bs, end, HEADER, i, i + 2);
    }
  }

  lemma CutForgets(used: map<int, bool>, next: map<int, int>, prev: map<int, int>, bs: seq<Block>, end: int,
                   i: int, a: int)
    requires Linked(used, next, prev, bs, end) && 0 <= i < |bs|
    requires bs[i].addr + HEADER <= a && a + HEADER <= AddrAt(bs, i + 1, end)
    ensures Linked(Forget(used, a, HEADER), Forget(next, a, HEADER), Forget(prev, a, HEADER), bs, end)
  {
    forall j | 0 <= j <= |bs|
      ensures LinkedAt(Forget(used, a, HEADER), Forget(next, a, HEADER), Forget(prev, a, HEADER), bs, end, j)
    {
      assert LinkedAt(used, next, prev, bs, end, j);
      if i < j { AddrDistinct(bs, end, HEADER, i, j); }
      if j < i { AddrDistinct(bs, end, HEADER, j, i); }
      if i + 1 < j { AddrDistinct(bs, end, HEADER, i + 1, j); }
    }
  }
}
