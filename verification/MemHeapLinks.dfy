/** The two pointer structures of a memory-heap object, stated over the header fields: the circular
    list of all blocks in address order, and the circular list of the free ones.  Each lemma is one
    pointer manipulation of the allocator. */
module MemHeapLinks {
  import opened Arena
  import opened BlockLayout
  import opened LayoutChanges

  const ALIGN_SIZE := 4     // RT_ALIGN_SIZE
  const HEADER := 24        // RT_MEMHEAP_SIZE: six words
  const NIL := -2           // RT_NULL
  const FREE_HEADER := -1   // &heap->free_header, which lies outside the pool

  ghost predicate LinkedAt(used: map<int, bool>, next: map<int, int>, prev: map<int, int>,
                           bs: seq<Block>, tail: int, i: int)
    requires 0 <= i <= |bs|
  {
    var a := AddrAt(bs, i, tail);
    && a in used && a in next && a in prev
    && used[a] == (i == |bs| || bs[i].used)
    && next[a] == (if i == |bs| then AddrAt(bs, 0, tail) else AddrAt(bs, i + 1, tail))
    && prev[a] == (if i == 0 then tail else bs[i - 1].addr)
  }

  /** `next` and `prev` run through the blocks in address order, then the used tailer, and around. */
  ghost predicate PhysLinked(used: map<int, bool>, next: map<int, int>, prev: map<int, int>,
                             bs: seq<Block>, tail: int) {
    forall i :: 0 <= i <= |bs| ==> LinkedAt(used, next, prev, bs, tail, i)
  }

  function RingAt(ring: seq<int>, i: int): int
    requires 0 <= i <= |ring| + 1
  {
    if 0 < i <= |ring| then ring[i - 1] else FREE_HEADER
  }

  ghost predicate RingStep(nextFree: map<int, int>, prevFree: map<int, int>, ring: seq<int>, i: int)
    requires 0 <= i <= |ring|
  {
    && RingAt(ring, i) in nextFree && nextFree[RingAt(ring, i)] == RingAt(ring, i + 1)
    && RingAt(ring, i + 1) in prevFree && prevFree[RingAt(ring, i + 1)] == RingAt(ring, i)
  }

  /** `next_free`/`prev_free` form a ring through the free-list header and `ring`, in this order. */
  ghost predicate RingLinked(nextFree: map<int, int>, prevFree: map<int, int>, ring: seq<int>) {
    && (forall i :: 0 <= i <= |ring| ==> RingStep(nextFree, prevFree, ring, i))
    && (forall i, j :: 0 <= i < j < |ring| ==> ring[i] != ring[j])
    && FREE_HEADER !in ring
  }

  function Without(ring: seq<int>, k: int): seq<int>
    requires 0 <= k < |ring|
  {
    ring[..k] + ring[k + 1..]
  }

  lemma WithoutMembers(ring: seq<int>, k: int)
    requires 0 <= k < |ring| && forall i, j :: 0 <= i < j < |ring| ==> ring[i] != ring[j]
    ensures forall x :: x in Without(ring, k) <==> x in ring && x != ring[k]
  {
    assert ring == ring[..k] + [ring[k]] + ring[k + 1..];
  }

  lemma RingUnlink(nextFree: map<int, int>, prevFree: map<int, int>, ring: seq<int>, k: int,
                   nextFree': map<int, int>, prevFree': map<int, int>)
    requires RingLinked(nextFree, prevFree, ring) && 0 <= k < |ring|
    requires ring[k] in nextFree && ring[k] in prevFree
    requires nextFree' == nextFree[prevFree[ring[k]] := nextFree[ring[k]]]
    requires prevFree' == prevFree[nextFree[ring[k]] := prevFree[ring[k]]]
    ensures RingLinked(nextFree', prevFree', Without(ring, k))
  {
    var rs := Without(ring, k);
    assert RingStep(nextFree, prevFree, ring, k) && RingStep(nextFree, prevFree, ring, k + 1);
    forall i | 0 <= i <= |rs|
      ensures RingStep(nextFree', prevFree', rs, i)
    {
      if i < k {
        assert RingStep(nextFree, prevFree, ring, i);
      } else if i > k {
        assert RingStep(nextFree, prevFree, ring, i + 1);
      }
    }
  }

  lemma RingPush(nextFree: map<int, int>, prevFree: map<int, int>, ring: seq<int>, a: int,
                 nextFree': map<int, int>, prevFree': map<int, int>)
    requires RingLinked(nextFree, prevFree, ring) && a !in ring && a != FREE_HEADER
    requires FREE_HEADER in nextFree
    requires nextFree' == nextFree[a := nextFree[FREE_HEADER]][FREE_HEADER := a]
    requires prevFree' == prevFree[a := FREE_HEADER][nextFree[FREE_HEADER] := a]
    ensures RingLinked(nextFree', prevFree', [a] + ring)
  {
    var rs := [a] + ring;
    assert RingStep(nextFree, prevFree, ring, 0);
    forall i | 0 <= i <= |rs|
      ensures RingStep(nextFree', prevFree', rs, i)
    {
      if i >= 2 {
        assert RingStep(nextFree, prevFree, ring, i - 1);
      }
    }
  }

  /** Fields of nodes outside the ring do not matter to it. */
  lemma RingFrame(nextFree: map<int, int>, prevFree: map<int, int>, ring: seq<int>,
                  nextFree': map<int, int>, prevFree': map<int, int>)
    requires RingLinked(nextFree, prevFree, ring)
    requires forall a :: (a in ring || a == FREE_HEADER) && a in nextFree ==>
             a in nextFree' && nextFree'[a] == nextFree[a]
    requires forall a :: (a in ring || a == FREE_HEADER) && a in prevFree ==>
             a in prevFree' && prevFree'[a] == prevFree[a]
    ensures RingLinked(nextFree', prevFree', ring)
  {
    forall i | 0 <= i <= |ring|
      ensures RingStep(nextFree', prevFree', ring, i)
    {
      assert RingStep(nextFree, prevFree, ring, i);
    }
  }

  lemma LinkSetUsed(used: map<int, bool>, next: map<int, int>, prev: map<int, int>, bs: seq<Block>, tail: int,
                    i: int, x: Block, used': map<int, bool>)
    requires PhysLinked(used, next, prev, bs, tail) && Tiles(bs, 0, tail, HEADER)
    requires 0 <= i < |bs| && x.addr == bs[i].addr
    requires used' == used[x.addr := x.used]
    ensures PhysLinked(used', next, prev, Replace(bs, i, 1, [x]), tail)
  {
    var rs := Replace(bs, i, 1, [x]);
    forall j | 0 <= j <= |rs|
      ensures LinkedAt(used', next, prev, rs, tail, j)
    {
      assert LinkedAt(used, next, prev, bs, tail, j);
      if i < j { AddrDistinct(bs, tail, HEADER, i, j); }
      if j < i { AddrDistinct(bs, tail, HEADER, j, i); }
    }
  }

  lemma LinkSplit(used: map<int, bool>, next: map<int, int>, prev: map<int, int>, bs: seq<Block>, tail: int,
                  i: int, x: Block, y: Block,
                  used': map<int, bool>, next': map<int, int>, prev': map<int, int>)
    requires PhysLinked(used, next, prev, bs, tail) && Tiles(bs, 0, tail, HEADER)
    requires 0 <= i < |bs| && x.addr == bs[i].addr && x.used == bs[i].used && !y.used
    requires x.addr < y.addr < AddrAt(bs, i + 1, tail) && x.addr in next
    requires used' == used[y.addr := false]
    requires next' == next[y.addr := next[x.addr]][x.addr := y.addr]
    requires prev' == prev[y.addr := x.addr][next[x.addr] := y.addr]
    ensures PhysLinked(used', next', prev', Replace(bs, i, 1, [x, y]), tail)
  {
    var rs := Replace(bs, i, 1, [x, y]);
    assert |rs| == |bs| + 1;
    assert LinkedAt(used, next, prev, bs, tail, i);
    forall j | 0 <= j <= |rs|
      ensures LinkedAt(used', next', prev', rs, tail, j)
    {
      if j < i {
        AddrDistinct(bs, tail, HEADER, j, i);
        AddrDistinct(bs, tail, HEADER, j, i + 1);
        assert rs[j] == bs[j] && AddrAt(rs, j + 1, tail) == AddrAt(bs, j + 1, tail);
        assert LinkedAt(used, next, prev, bs, tail, j);
        assert j > 0 ==> rs[j - 1] == bs[j - 1];
      } else if j > i + 1 {
        AddrDistinct(bs, tail, HEADER, i, j - 1);
        if j > i + 2 { AddrDistinct(bs, tail, HEADER, i + 1, j - 1); }
        assert LinkedAt(used, next, prev, bs, tail, j - 1);
        assert AddrAt(rs, j, tail) == AddrAt(bs, j - 1, tail);
      } else {
        assert rs[i] == x && rs[i + 1] == y;
        assert i > 0 ==> rs[i - 1] == bs[i - 1];
        assert AddrAt(rs, i + 2, tail) == AddrAt(bs, i + 1, tail);
        AddrDistinct(bs, tail, HEADER, i, i + 1);
      }
    }
  }

  lemma LinkMerge(used: map<int, bool>, next: map<int, int>, prev: map<int, int>, bs: seq<Block>, tail: int,
                  i: int, x: Block, next': map<int, int>, prev': map<int, int>)
    requires PhysLinked(used, next, prev, bs, tail) && Tiles(bs, 0, tail, HEADER)
    requires 0 <= i < |bs| - 1 && x.addr == bs[i].addr && x.used == bs[i].used
    requires bs[i + 1].addr in next
    requires next' == next[x.addr := next[bs[i + 1].addr]]
    requires prev' == prev[next[bs[i + 1].addr] := x.addr]
    ensures PhysLinked(used, next', prev', Replace(bs, i, 2, [x]), tail)
  {
    var rs := Replace(bs, i, 2, [x]);
    assert |rs| == |bs| - 1;
    assert LinkedAt(used, next, prev, bs, tail, i) && LinkedAt(used, next, prev, bs, tail, i + 1);
    forall j | 0 <= j <= |rs|
      ensures LinkedAt(used, next', prev', rs, tail, j)
    {
      if j < i {
        AddrDistinct(bs, tail, HEADER, j, i);
        AddrDistinct(bs, tail, HEADER, j, i + 2);
        assert rs[j] == bs[j] && AddrAt(rs, j + 1, tail) == AddrAt(bs, j + 1, tail);
        assert LinkedAt(used, next, prev, bs, tail, j);
        assert j > 0 ==> rs[j - 1] == bs[j - 1];
      } else if j > i {
        AddrDistinct(bs, tail, HEADER, i, j + 1);
        if j > i + 1 { AddrDistinct(bs, tail, HEADER, i + 2, j + 1); }
        assert LinkedAt(used, next, prev, bs, tail, j + 1);
        assert AddrAt(rs, j, tail) == AddrAt(bs, j + 1, tail);
      } else {
        assert rs[i] == x;
        assert i > 0 ==> rs[i - 1] == bs[i - 1];
        assert AddrAt(rs, i + 1, tail) == AddrAt(bs, i + 2, tail);
        AddrDistinct(bs, tail, HEADER, i, i + 2);
      }
    }
  }

  ghost predicate Aligned(bs: seq<Block>) {
    forall b :: b in bs ==> b.addr % ALIGN_SIZE == 0 && b.size % ALIGN_SIZE == 0
  }

  /** The layout and its links agree. */
  ghost predicate Linked(used: map<int, bool>, next: map<int, int>, prev: map<int, int>, bs: seq<Block>, tail: int) {
    Tiles(bs, 0, tail, HEADER) && Aligned(bs) && tail % ALIGN_SIZE == 0 && PhysLinked(used, next, prev, bs, tail)
  }

  lemma MarkedLinked(used: map<int, bool>, next: map<int, int>, prev: map<int, int>, bs: seq<Block>, tail: int,
                     i: int, v: bool, used': map<int, bool>)
    requires Linked(used, next, prev, bs, tail) && 0 <= i < |bs|
    requires used' == used[bs[i].addr := v]
    ensures Linked(used', next, prev, Marked(bs, i, v), tail)
  {
    var x := Block(bs[i].addr, bs[i].size, v);
    LinkSetUsed(used, next, prev, bs, tail, i, x, used');
    assert Abuts(bs, i, tail, HEADER) && bs[i] in bs;
    ReplaceTiles(bs, 0, tail, HEADER, i, 1, [x]);
  }

  lemma CutLinked(used: map<int, bool>, next: map<int, int>, prev: map<int, int>, bs: seq<Block>, tail: int,
                  i: int, a: int, used': map<int, bool>, next': map<int, int>, prev': map<int, int>)
    requires Linked(used, next, prev, bs, tail) && 0 <= i < |bs|
    requires bs[i].addr + HEADER <= a && a + HEADER <= AddrAt(bs, i + 1, tail) && a % ALIGN_SIZE == 0
    requires bs[i].addr in next
    requires used' == used[a := false]
    requires next' == next[a := next[bs[i].addr]][bs[i].addr := a]
    requires prev' == prev[a := bs[i].addr][next[bs[i].addr] := a]
    ensures Linked(used', next', prev', CutAt(bs, tail, HEADER, i, a), tail)
  {
    hide PhysLinked, Tiles, Aligned;
    var end := AddrAt(bs, i + 1, tail);
    var x, y := Block(bs[i].addr, a - bs[i].addr - HEADER, bs[i].used), Block(a, end - a - HEADER, false);
    LinkSplit(used, next, prev, bs, tail, i, x, y, used', next', prev');
    CutTiles(bs, tail, i, a);
    CutAligned(bs, tail, i, a);
  }

  lemma CutTiles(bs: seq<Block>, tail: int, i: int, a: int)
    requires Tiles(bs, 0, tail, HEADER) && 0 <= i < |bs|
    requires bs[i].addr + HEADER <= a && a + HEADER <= AddrAt(bs, i + 1, tail)
    ensures Tiles(CutAt(bs, tail, HEADER, i, a), 0, tail, HEADER)
  {
    var end := AddrAt(bs, i + 1, tail);
    var mid := [Block(bs[i].addr, a - bs[i].addr - HEADER, bs[i].used), Block(a, end - a - HEADER, false)];
    assert Abuts(mid, 0, end, HEADER) && Abuts(mid, 1, end, HEADER) && Abuts(bs, i, tail, HEADER);
    ReplaceTiles(bs, 0, tail, HEADER, i, 1, mid);
  }

  lemma CutAligned(bs: seq<Block>, tail: int, i: int, a: int)
    requires Aligned(bs) && tail % ALIGN_SIZE == 0 && 0 <= i < |bs| && a % ALIGN_SIZE == 0
    ensures Aligned(CutAt(bs, tail, HEADER, i, a))
  {
    assert bs[i] in bs && (i + 1 < |bs| ==> bs[i + 1] in bs);
  }

  lemma JoinedLinked(used: map<int, bool>, next: map<int, int>, prev: map<int, int>, bs: seq<Block>, tail: int,
                     i: int, next': map<int, int>, prev': map<int, int>)
    requires Linked(used, next, prev, bs, tail) && 0 <= i < |bs| - 1
    requires bs[i + 1].addr in next
    requires next' == next[bs[i].addr := next[bs[i + 1].addr]]
    requires prev' == prev[next[bs[i + 1].addr] := bs[i].addr]
    ensures Linked(used, next', prev', Joined(bs, HEADER, i), tail)
  {
    hide LinkedAt;
    var x := Block(bs[i].addr, bs[i].size + HEADER + bs[i + 1].size, bs[i].used);
    LinkMerge(used, next, prev, bs, tail, i, x, next', prev');
    assert Abuts(bs, i, tail, HEADER) && Abuts(bs, i + 1, tail, HEADER);
    assert Abuts([x], 0, AddrAt(bs, i + 2, tail), HEADER);
    ReplaceTiles(bs, 0, tail, HEADER, i, 2, [x]);
    assert bs[i] in bs && bs[i + 1] in bs;
  }

  /** A header inside block `i`, clear of the next one, overlaps no header in use. */
  lemma CutForgets(used: map<int, bool>, next: map<int, int>, prev: map<int, int>, bs: seq<Block>, tail: int,
                   nextFree: map<int, int>, prevFree: map<int, int>, ring: seq<int>, i: int, a: int)
    requires Linked(used, next, prev, bs, tail) && 0 <= i < |bs|
    requires bs[i].addr + HEADER <= a && a + HEADER <= AddrAt(bs, i + 1, tail)
    requires RingLinked(nextFree, prevFree, ring)
    requires forall r :: r in ring ==> exists b :: b in bs && b.addr == r
    ensures Linked(Forget(used, a, HEADER), Forget(next, a, HEADER), Forget(prev, a, HEADER), bs, tail)
    ensures RingLinked(Forget(nextFree, a, HEADER), Forget(prevFree, a, HEADER), ring)
  {
    AllOrdered(bs, 0, tail, HEADER);
    assert forall j :: 0 <= j < |bs| ==> bs[j].addr <= a - HEADER || bs[j].addr >= a + HEADER;
    LinkForget(used, next, prev, bs, tail, a);
    RingFrame(nextFree, prevFree, ring, Forget(nextFree, a, HEADER), Forget(prevFree, a, HEADER));
  }

  lemma LinkForget(used: map<int, bool>, next: map<int, int>, prev: map<int, int>, bs: seq<Block>, tail: int, a: int)
    requires PhysLinked(used, next, prev, bs, tail)
    requires forall i :: 0 <= i < |bs| ==> bs[i].addr <= a - HEADER || bs[i].addr >= a + HEADER
    requires a <= tail - HEADER
    ensures PhysLinked(Forget(used, a, HEADER), Forget(next, a, HEADER), Forget(prev, a, HEADER), bs, tail)
  {
    forall i | 0 <= i <= |bs|
      ensures LinkedAt(Forget(used, a, HEADER), Forget(next, a, HEADER), Forget(prev, a, HEADER), bs, tail, i)
    {
      assert LinkedAt(used, next, prev, bs, tail, i);
    }
  }
}
