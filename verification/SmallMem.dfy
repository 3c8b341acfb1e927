/** The small-memory system heap: one chain of blocks by offset, the lowest free block, first fit from
    there, and holes plugged on release. */
module SmallMem {
  import opened Arena
  import opened BlockLayout
  import opened LayoutChanges
  import opened SmallMemLinks

  const MIN_SIZE := 12     // MIN_SIZE, and MIN_SIZE_ALIGNED
  const NIL := -1          // RT_NULL

  function Align(n: nat): (r: nat)
    ensures r % ALIGN_SIZE == 0 && n <= r < n + ALIGN_SIZE
  {
    (n + ALIGN_SIZE - 1) / ALIGN_SIZE * ALIGN_SIZE
  }

  /** Payload bytes an allocation of `n` bytes asks for. */
  function Request(n: nat): (r: nat)
    ensures r % ALIGN_SIZE == 0 && r >= n && r >= MIN_SIZE && (r < n + ALIGN_SIZE || r == MIN_SIZE)
  {
    if Align(n) < MIN_SIZE then MIN_SIZE else Align(n)
  }

  /** It is the least aligned size that is large enough. */
  lemma RequestIsLeast(n: nat, m: nat)
    requires m % ALIGN_SIZE == 0 && m >= n && m >= MIN_SIZE
    ensures Request(n) <= m
  {
    hide Align;
  }

  /** The search takes a hole with room for `n` bytes whose offset is below the search bound. */
  ghost predicate Takes(b: Block, n: int, memSize: int) {
    !b.used && b.size >= n && b.addr < memSize - n
  }

  ghost predicate IsLowestFree(bs: seq<Block>, end: int, a: int) {
    (a == end || IsFree(bs, a)) && forall x :: IsFree(bs, x) ==> a <= x
  }

  /** The lowest block the search takes is carved and its front is granted. */
  ghost predicate LowestGrant(bs: seq<Block>, bs': seq<Block>, memSize: int, n: int, p: int, i: int) {
    && 0 <= i < |bs| && Takes(bs[i], n, memSize)
    && (forall j :: 0 <= j < i ==> !Takes(bs[j], n, memSize))
    && TakesFront(bs, bs', i, n, HEADER, MIN_SIZE) && i < |bs'|
    && IsGrant(Live(bs), Live(bs'), bs'[i], p, n, HEADER)
  }

  class SmallHeap {
    const arena: array<bv8>
    // the fields of the block headers, by header offset
    var used: map<int, bool>
    var next: map<int, int>
    var prev: map<int, int>
    var lfree: int
    var usedMem: int
    var maxMem: int
    ghost var blocks: seq<Block>   // in address order, without the end marker
    ghost var shield: set<Block>   // payloads the running operation must leave alone

    function End(): int {
      arena.Length - HEADER
    }

    function MemSize(): int {
      arena.Length - 2 * HEADER
    }

    ghost predicate LinkedHeap()
      reads `used, `next, `prev, `blocks
    {
      arena.Length >= 2 * HEADER && Linked(used, next, prev, blocks, End())
    }

    ghost predicate Valid()
      reads `used, `next, `prev, `lfree, `usedMem, `maxMem, `blocks
    {
      && LinkedHeap()
      && NoTwoFree(blocks)
      && IsLowestFree(blocks, End(), lfree)
      && usedMem == UsedSpan(blocks, HEADER)
      && maxMem >= usedMem
      && forall b :: b in blocks && b.used ==> b.size > 0
    }

    ghost predicate InHeap(b: Block) {
      Inside(b, HEADER, arena.Length)
    }

    ghost function Payload(b: Block): seq<bv8>
      requires InHeap(b)
      reads arena
    {
      Bytes(arena, b, HEADER)
    }

    /** A header at `a` does not overlap a shielded payload. */
    ghost predicate Safe(a: int)
      reads `shield
    {
      0 <= a <= End() && forall b :: b in shield ==> InHeap(b) && (a <= b.addr || b.addr + HEADER + b.size <= a)
    }

    ghost predicate Guard()
      reads `shield, `blocks
    {
      Safe(End()) && forall b :: b in blocks ==> Safe(b.addr)
    }

    ghost predicate IndexOf(a: int, i: int)
      reads `blocks
    {
      0 <= i < |blocks| && blocks[i].addr == a
    }

    ghost predicate IsLive(p: int)
      reads `blocks
    {
      exists b :: b in Live(blocks) && b.addr + HEADER == p
    }

    /** One hole, and the end marker. */
    constructor (size: nat)
      requires size % ALIGN_SIZE == 0 && size >= 2 * HEADER
      ensures Valid() && fresh(arena) && arena.Length == size
      ensures blocks == [Block(0, MemSize(), false)] && lfree == 0 && usedMem == 0 && maxMem == 0
    {
      var end := size - HEADER;
      arena := new bv8[size];
      used := map[0 := false, end := true];
      next := map[0 := end, end := end];
      prev := map[0 := 0, end := end];
      lfree, usedMem, maxMem := 0, 0, 0;
      blocks := [Block(0, size - 2 * HEADER, false)];
      shield := {};
      new;
      assert LinkedAt(used, next, prev, blocks, End(), 0) && LinkedAt(used, next, prev, blocks, End(), 1);
      CountOne(blocks[0], HEADER);
      assert blocks[0] in blocks && IsFree(blocks, 0);
    }

    method SetUsed(a: int, v: bool)
      requires Safe(a)
      modifies `used, arena
      ensures used == old(used)[a := v]
      ensures forall b :: b in shield ==> Payload(b) == old(Payload(b))
    {
      used := used[a := v];
      WriteHeader(arena, a, HEADER, shield);
    }

    method SetNext(a: int, v: int)
      requires Safe(a)
      modifies `next, arena
      ensures next == old(next)[a := v]
      ensures forall b :: b in shield ==> Payload(b) == old(Payload(b))
    {
      next := next[a := v];
      WriteHeader(arena, a, HEADER, shield);
    }

    method SetPrev(a: int, v: int)
      requires Safe(a)
      modifies `prev, arena
      ensures prev == old(prev)[a := v]
      ensures forall b :: b in shield ==> Payload(b) == old(Payload(b))
    {
      prev := prev[a := v];
      WriteHeader(arena, a, HEADER, shield);
    }

    /** A new unused header linked to `p` and `n`; whatever header record it overlaps is gone. */
    method NewHeader(a: int, p: int, n: int)
      requires Safe(a)
      modifies `used, `next, `prev, arena
      ensures used == Forget(old(used), a, HEADER)[a := false]
      ensures next == Forget(old(next), a, HEADER)[a := n] && prev == Forget(old(prev), a, HEADER)[a := p]
      ensures forall b :: b in shield ==> Payload(b) == old(Payload(b))
    {
      used, next, prev := Forget(used, a, HEADER)[a := false], Forget(next, a, HEADER)[a := n],
        Forget(prev, a, HEADER)[a := p];
      WriteHeader(arena, a, HEADER, shield);
    }

    method MarkUsed(h: int, v: bool, ghost i: int)
      requires LinkedHeap() && Guard() && IndexOf(h, i)
      modifies `used, `blocks, arena
      ensures LinkedHeap() && Guard() && blocks == Marked(old(blocks), i, v)
      ensures forall b :: b in shield ==> Payload(b) == old(Payload(b))
    {
      assert blocks[i] in blocks;
      SetUsed(h, v);
      MarkedLinked(old(used), next, prev, blocks, End(), i, v, used);
      blocks := Marked(blocks, i, v);
    }

    /** Put a new hole at `a`, inside block `h`. */
    method SplitBlock(h: int, a: int, ghost i: int)
      requires LinkedHeap() && Guard() && Safe(a) && IndexOf(h, i)
      requires h + HEADER <= a && a + HEADER <= AddrAt(blocks, i + 1, End()) && a % ALIGN_SIZE == 0
      modifies `used, `next, `prev, `blocks, arena
      ensures LinkedHeap() && Guard() && blocks == CutAt(old(blocks), End(), HEADER, i, a)
      ensures forall b :: b in shield ==> Payload(b) == old(Payload(b))
    {
      CutForgets(used, next, prev, blocks, End(), i, a);
      ghost var used0, next0, prev0 := Forget(used, a, HEADER), Forget(next, a, HEADER), Forget(prev, a, HEADER);
      assert LinkedAt(used0, next0, prev0, blocks, End(), i) && LinkedAt(used, next, prev, blocks, End(), i);
      assert Safe(AddrAt(blocks, i + 1, End())) by { if i + 1 < |blocks| { assert blocks[i + 1] in blocks; } }
      assert Safe(h) by { assert blocks[i] in blocks; }
      NewHeader(a, h, next[h]);
      SetNext(h, a);
      if next[a] != MemSize() + HEADER {
        SetPrev(next[a], a);
      }
      CutLinked(used0, next0, prev0, blocks, End(), i, a, used, next, prev);
      blocks := CutAt(blocks, End(), HEADER, i, a);
    }

    /** Merge the holes `i` and `i + 1`. */
    method AbsorbHole(h: int, ghost i: int)
      requires LinkedHeap() && Guard() && IndexOf(h, i) && i + 1 < |blocks| && BothFree(blocks, i)
      modifies `next, `prev, `blocks, arena
      ensures LinkedHeap() && Guard()
      ensures |blocks| == old(|blocks|) - 1 && IndexOf(h, i) && !blocks[i].used
      ensures h in prev && h in old(prev) && prev[h] == old(prev[h])
      ensures Live(blocks) == old(Live(blocks)) && UsedSpan(blocks, HEADER) == old(UsedSpan(blocks, HEADER))
      ensures forall a :: IsFree(blocks, a) <==> old(IsFree(blocks, a)) && a != old(blocks)[i + 1].addr
      ensures forall j :: 0 <= j < |blocks| - 1 && BothFree(blocks, j) ==>
              BothFree(old(blocks), if j < i then j else j + 1)
      ensures forall b :: b in shield ==> Payload(b) == old(Payload(b))
    {
      JoinFacts(blocks, End(), HEADER, i);
      Absorb(h, i);
    }

    method Absorb(h: int, ghost i: int)
      requires LinkedHeap() && Guard() && IndexOf(h, i) && i + 1 < |blocks|
      modifies `next, `prev, `blocks, arena
      ensures LinkedHeap() && Guard() && blocks == Joined(old(blocks), HEADER, i)
      ensures h in prev && h in old(prev) && prev[h] == old(prev[h])
      ensures forall b :: b in shield ==> Payload(b) == old(Payload(b))
    {
      assert LinkedAt(used, next, prev, blocks, End(), i) && LinkedAt(used, next, prev, blocks, End(), i + 1);
      assert Safe(AddrAt(blocks, i + 2, End())) by { if i + 2 < |blocks| { assert blocks[i + 2] in blocks; } }
      assert blocks[i] in blocks && blocks[i + 1] in blocks;
      AddrDistinct(blocks, End(), HEADER, i, i + 1);
      AddrDistinct(blocks, End(), HEADER, i, i + 2);
      var n := next[h];
      SetNext(h, next[n]);
      SetPrev(next[n], h);
      JoinedLinked(used, old(next), old(prev), blocks, End(), i, next, prev);
      blocks := Joined(blocks, HEADER, i);
    }

    /** What the chain says about block `i` and its neighbours. */
    lemma Around(h: int, i: int)
      requires LinkedHeap() && IndexOf(h, i)
      ensures h in used && used[h] == blocks[i].used && h in next && next[h] - h - HEADER == blocks[i].size >= 0
      ensures next[h] == AddrAt(blocks, i + 1, End()) && h < next[h] <= End() && next[h] in used && next[h] in next
      ensures next[h] == End() <==> i + 1 == |blocks|
      ensures used[next[h]] <==> i + 1 == |blocks| || blocks[i + 1].used
      ensures h in prev && prev[h] in used && (prev[h] == h <==> i == 0)
      ensures i > 0 ==> prev[h] == blocks[i - 1].addr < h && used[prev[h]] == blocks[i - 1].used
      ensures 0 <= h < End() && h % ALIGN_SIZE == 0 && InHeap(blocks[i])
    {
      assert LinkedAt(used, next, prev, blocks, End(), i) && LinkedAt(used, next, prev, blocks, End(), i + 1);
      assert Abuts(blocks, i, End(), HEADER) && blocks[i] in blocks;
      AddrDistinct(blocks, End(), HEADER, i, |blocks|);
      if i + 1 < |blocks| { AddrDistinct(blocks, End(), HEADER, i + 1, |blocks|); }
      if i > 0 {
        AddrDistinct(blocks, End(), HEADER, 0, i);
        AddrDistinct(blocks, End(), HEADER, i - 1, i);
        assert LinkedAt(used, next, prev, blocks, End(), i - 1);
      }
    }

    lemma GuardSub()
      requires LinkedHeap() && shield <= Live(blocks)
      ensures Guard()
    {
      AllOrdered(blocks, 0, End(), HEADER);
    }

    /** Merge the hole `h` with the holes around it, at most one on each side.  `lfree` may be at a hole
        that is merged away; it ends up at the lowest one. */
    method PlugHoles(h: int, ghost i: int)
      requires LinkedHeap() && Guard() && IndexOf(h, i) && !blocks[i].used && h in next && h in prev
      requires forall j :: 0 <= j < |blocks| - 1 && j != i && j != i - 1 ==> !BothFree(blocks, j)
      requires NearLowestFree(blocks, End(), lfree, h, next[h], prev[h])
      modifies `next, `prev, `lfree, `blocks, arena
      ensures LinkedHeap() && Guard() && NoTwoFree(blocks) && IsLowestFree(blocks, End(), lfree)
      ensures Live(blocks) == old(Live(blocks)) && UsedSpan(blocks, HEADER) == old(UsedSpan(blocks, HEADER))
      ensures forall b :: b in shield ==> Payload(b) == old(Payload(b))
    {
      hide Linked, UsedSpan, Live, NearLowestFree;
      PlugForward(h, i);
      Around(h, i);
      var p := prev[h];
      assert IsFree(blocks, h) by { assert blocks[i] in blocks; }
      if p != h && !used[p] {
        assert IsFree(blocks, p) by { assert blocks[i - 1] in blocks; }
        assert BothFree(blocks, i - 1);
        if lfree == h {
          lfree := p;
        }
        AbsorbHole(p, i - 1);
      } else {
        assert i > 0 ==> !BothFree(blocks, i - 1);
        assert forall j :: 0 <= j < |blocks| - 1 ==> !BothFree(blocks, j);
        assert !IsFree(blocks, p) || p == h by { if i > 0 { UsedNotFree(i - 1); } }
      }
    }

    method PlugForward(h: int, ghost i: int)
      requires LinkedHeap() && Guard() && IndexOf(h, i) && !blocks[i].used && h in next && h in prev
      requires forall j :: 0 <= j < |blocks| - 1 && j != i && j != i - 1 ==> !BothFree(blocks, j)
      requires NearLowestFree(blocks, End(), lfree, h, next[h], prev[h])
      modifies `next, `prev, `lfree, `blocks, arena
      ensures LinkedHeap() && Guard() && IndexOf(h, i) && !blocks[i].used && h in prev
      ensures lfree == End() || IsFree(blocks, lfree)
      ensures forall x :: IsFree(blocks, x) ==> lfree <= x || (x == prev[h] && lfree == h)
      ensures forall j :: 0 <= j < |blocks| - 1 && j != i - 1 ==> !BothFree(blocks, j)
      ensures Live(blocks) == old(Live(blocks)) && UsedSpan(blocks, HEADER) == old(UsedSpan(blocks, HEADER))
      ensures forall b :: b in shield ==> Payload(b) == old(Payload(b))
    {
      hide Linked, UsedSpan, Live;
      Around(h, i);
      assert IsFree(blocks, h) by { assert blocks[i] in blocks; }
      var n := next[h];
      if h != n && !used[n] && n != End() {
        assert BothFree(blocks, i);
        assert i + 2 < |blocks| ==> !BothFree(blocks, i + 1);
        if lfree == n {
          lfree := h;
        }
        AbsorbHole(h, i);
        Around(h, i);
      } else {
        assert !IsFree(blocks, n) by { if i + 1 < |blocks| { UsedNotFree(i + 1); } else { EndNotFree(); } }
      }
    }

    /** Mark block `i` unused. */
    method Release(h: int, ghost i: int)
      requires LinkedHeap() && Guard() && IndexOf(h, i) && blocks[i].used
      modifies `used, `blocks, arena
      ensures LinkedHeap() && Guard() && IndexOf(h, i) && !blocks[i].used
      ensures Live(blocks) == old(Live(blocks)) - {old(blocks)[i]}
      ensures UsedSpan(blocks, HEADER) == old(UsedSpan(blocks, HEADER)) - HEADER - old(blocks)[i].size
      ensures forall a :: IsFree(blocks, a) <==> old(IsFree(blocks, a)) || a == h
      ensures |blocks| == |old(blocks)| &&
              forall j :: 0 <= j < |blocks| - 1 && j != i && j != i - 1 && BothFree(blocks, j) ==>
              BothFree(old(blocks), j)
      ensures forall b :: b in shield ==> Payload(b) == old(Payload(b))
    {
      ReleaseFacts(blocks, End(), HEADER, i);
      MarkUsed(h, false, i);
    }

    /** Account for the new hole `h`: lower `lfree` if need be, then plug. */
    method EnterHole(h: int, ghost i: int)
      requires LinkedHeap() && Guard() && IndexOf(h, i) && !blocks[i].used
      requires forall j :: 0 <= j < |blocks| - 1 && j != i && j != i - 1 ==> !BothFree(blocks, j)
      requires (lfree == End() || IsFree(blocks, lfree)) && forall x :: IsFree(blocks, x) && x != h ==> lfree <= x
      modifies `next, `prev, `lfree, `blocks, arena
      ensures LinkedHeap() && Guard() && NoTwoFree(blocks) && IsLowestFree(blocks, End(), lfree)
      ensures Live(blocks) == old(Live(blocks)) && UsedSpan(blocks, HEADER) == old(UsedSpan(blocks, HEADER))
      ensures forall b :: b in shield ==> Payload(b) == old(Payload(b))
    {
      Around(h, i);
      assert IsFree(blocks, h) by { assert blocks[i] in blocks; }
      if h < lfree {
        lfree := h;
      }
      PlugHoles(h, i);
    }

    method FreeAt(h: int, ghost i: int)
      requires Valid() && IndexOf(h, i) && blocks[i].used && shield == Live(blocks) - {blocks[i]}
      modifies this, arena
      ensures Valid() && Live(blocks) == old(Live(blocks)) - {old(blocks)[i]}
      ensures maxMem == old(maxMem)
      ensures forall b :: b in Live(blocks) ==> InHeap(b) && Payload(b) == old(Payload(b))
    {
      hide Linked, Live, UsedSpan;
      LiveIsUsed();
      GuardSub();
      Around(h, i);
      Release(h, i);
      usedMem := usedMem - (next[h] - h);
      EnterHole(h, i);
      LiveIsUsed();
    }

    lemma LiveIsUsed()
      ensures forall b :: b in blocks && b.used <==> b in Live(blocks)
    {
    }

    lemma LiveIndex(p: int) returns (i: int)
      requires Valid() && IsLive(p)
      ensures IndexOf(p - HEADER, i) && blocks[i].used && 0 <= p < End()
      ensures Live(blocks) - {blocks[i]} == set b | b in Live(blocks) && b.addr + HEADER != p
    {
      i :| 0 <= i < |blocks| && blocks[i].addr + HEADER == p && blocks[i].used;
      AllOrdered(blocks, 0, End(), HEADER);
      assert blocks[i] in blocks;
    }

    /** Give a block back; an address outside the heap is ignored.  What is left is exactly the other
        live blocks, their contents untouched. */
    method Free(p: int)
      requires Valid() && (p < 0 || p >= End() || IsLive(p))
      modifies this, arena
      ensures Valid()
      ensures p < 0 || p >= End() ==> blocks == old(blocks)
      ensures Live(blocks) == set b | b in old(Live(blocks)) && b.addr + HEADER != p
      ensures maxMem == old(maxMem)
      ensures forall b :: b in Live(blocks) ==> InHeap(b) && Payload(b) == old(Payload(b))
    {
      if p < 0 || p >= End() {
        LiveInside();
        return;
      }
      ghost var i := LiveIndex(p);
      shield := Live(blocks) - {blocks[i]};
      FreeAt(p - HEADER, i);
    }

    lemma LiveInside()
      requires Valid()
      ensures forall b :: b in Live(blocks) ==> InHeap(b) && 0 <= b.addr && b.addr + HEADER < End()
    {
      AllOrdered(blocks, 0, End(), HEADER);
    }

    /** The search of `Malloc`: the lowest block it takes, or none. */
    method FindFree(n: int) returns (h: int, ghost i: int)
      requires Valid() && n > 0 && MemSize() >= n
      ensures h == NIL <==> forall b :: b in blocks ==> !Takes(b, n, MemSize())
      ensures h != NIL ==> IndexOf(h, i) && Takes(blocks[i], n, MemSize()) && forall j :: 0 <= j < i ==>
              !Takes(blocks[j], n, MemSize())
    {
      i := LowestIndex();
      var ptr := lfree;
      while ptr < MemSize() - n
        invariant 0 <= i <= |blocks| && ptr == AddrAt(blocks, i, End())
        invariant forall j :: 0 <= j < i ==> !Takes(blocks[j], n, MemSize())
        decreases |blocks| - i
      {
        Around(ptr, i);
        if !used[ptr] && next[ptr] - (ptr + HEADER) >= n {
          assert blocks[i] in blocks;
          return ptr, i;
        }
        ptr := next[ptr];
        i := i + 1;
      }
      h := NIL;
      AllOrdered(blocks, 0, End(), HEADER);
    }

    lemma LowestIndex() returns (i: int)
      requires LinkedHeap() && IsLowestFree(blocks, End(), lfree)
      ensures 0 <= i <= |blocks| && lfree == AddrAt(blocks, i, End())
      ensures forall j :: 0 <= j < i ==> blocks[j].used
    {
      AllOrdered(blocks, 0, End(), HEADER);
      if lfree == End() {
        i := |blocks|;
      } else {
        i :| 0 <= i < |blocks| && blocks[i].addr == lfree && !blocks[i].used;
      }
      forall j | 0 <= j < i
        ensures blocks[j].used
      {
        if !blocks[j].used { assert IsFree(blocks, blocks[j].addr) by { assert blocks[j] in blocks; } }
      }
    }

    /** Mark the hole `h` used, splitting it when the rest can hold a minimal block. */
    method Grab(h: int, n: int, ghost i: int)
      requires Valid() && shield == Live(blocks) && IndexOf(h, i) && !blocks[i].used && blocks[i].size >= n > 0 &&
               n % ALIGN_SIZE == 0
      modifies `used, `next, `prev, `usedMem, `maxMem, `blocks, arena
      ensures LinkedHeap() && blocks == Replace(old(blocks), i, 1, Carve(old(blocks)[i], HEADER, MIN_SIZE, n))
      ensures usedMem == old(usedMem) + HEADER + Carve(old(blocks)[i], HEADER, MIN_SIZE, n)[0].size
      ensures maxMem == if old(maxMem) < usedMem then usedMem else old(maxMem)
      ensures forall b :: b in old(Live(blocks)) ==> InHeap(b) && Payload(b) == old(Payload(b))
    {
      hide LinkedAt, Tiles, UsedSpan, NoTwoFree, IsLowestFree, Replace, CutAt;
      CarveIs(blocks, End(), HEADER, MIN_SIZE, i, n);
      HoleSafe(i);
      Around(h, i);
      LiveInside();
      if next[h] - (h + HEADER) >= n + HEADER + MIN_SIZE {
        SplitUsed(h, h + n + HEADER, i);
        usedMem := usedMem + (n + HEADER);
      } else {
        MarkUsed(h, true, i);
        usedMem := usedMem + (next[h] - h);
      }
      if maxMem < usedMem {
        maxMem := usedMem;
      }
    }

    /** Cut the hole `h` at `a` and mark its front used. */
    method SplitUsed(h: int, a: int, ghost i: int)
      requires LinkedHeap() && Guard() && Safe(a) && IndexOf(h, i)
      requires h + HEADER <= a && a + HEADER <= AddrAt(blocks, i + 1, End()) && a % ALIGN_SIZE == 0
      modifies `used, `next, `prev, `blocks, arena
      ensures LinkedHeap() && blocks == Marked(CutAt(old(blocks), End(), HEADER, i, a), i, true)
      ensures forall b :: b in shield ==> Payload(b) == old(Payload(b))
    {
      SplitBlock(h, a, i);
      MarkUsed(h, true, i);
    }

    lemma HoleSafe(i: int)
      requires LinkedHeap() && shield == Live(blocks) && 0 <= i < |blocks| && !blocks[i].used
      ensures Guard()
      ensures forall a :: blocks[i].addr + HEADER <= a <= blocks[i].addr + blocks[i].size ==> Safe(a)
    {
      AllOrdered(blocks, 0, End(), HEADER);
    }

    /** Move `lfree` past used blocks. */
    method AdvanceLowest(ghost k: int)
      requires LinkedHeap() && 0 <= k < |blocks| && lfree == blocks[k].addr && forall j :: 0 <= j < k ==> blocks[j].used
      modifies `lfree
      ensures IsLowestFree(blocks, End(), lfree)
    {
      hide Linked, Tiles, LinkedAt, IsLowestFree;
      ghost var i := k;
      Around(lfree, k);
      while used[lfree] && lfree != End()
        invariant 0 <= i <= |blocks| && lfree == AddrAt(blocks, i, End()) && lfree in used
        invariant forall j :: 0 <= j < i ==> blocks[j].used
        decreases |blocks| - i
      {
        Around(lfree, i);
        lfree := next[lfree];
        i := i + 1;
      }
      if i < |blocks| {
        Around(lfree, i);
      }
      FirstHole(i);
    }

    /** The first block that is not used, or the end marker. */
    lemma FirstHole(i: int)
      requires LinkedHeap() && 0 <= i <= |blocks| && (i < |blocks| ==> !blocks[i].used)
      requires lfree == AddrAt(blocks, i, End()) && forall j :: 0 <= j < i ==> blocks[j].used
      ensures IsLowestFree(blocks, End(), lfree)
    {
      hide LinkedAt, SameButAt;
      AllOrdered(blocks, 0, End(), HEADER);
      if i < |blocks| {
        assert blocks[i] in blocks;
      }
    }

    method TakeHole(h: int, n: int, ghost i: int)
      requires Valid() && shield == Live(blocks) && IndexOf(h, i) && !blocks[i].used && blocks[i].size >= n > 0 &&
               n % ALIGN_SIZE == 0
      modifies this, arena
      ensures Valid() && blocks == Replace(old(blocks), i, 1, Carve(old(blocks)[i], HEADER, MIN_SIZE, n))
      ensures IsGrant(old(Live(blocks)), Live(blocks), Carve(old(blocks)[i], HEADER, MIN_SIZE, n)[0], h + HEADER, n,
              HEADER)
      ensures maxMem == if old(maxMem) < usedMem then usedMem else old(maxMem)
      ensures forall b :: b in old(Live(blocks)) ==> InHeap(b) && Payload(b) == old(Payload(b))
    {
      ghost var lowest := h == lfree;
      LowestIsHole(h, i);
      Grab(h, n, i);
      if h == lfree {
        AdvanceLowest(i);
      }
      Taken(old(blocks), i, n, old(lfree), lowest);
    }

    lemma LowestIsHole(h: int, i: int)
      requires Valid() && IndexOf(h, i) && !blocks[i].used
      ensures lfree <= h && (h == lfree ==> forall j :: 0 <= j < i ==> blocks[j].used)
    {
      AllOrdered(blocks, 0, End(), HEADER);
      assert IsFree(blocks, h) by { assert blocks[i] in blocks; }
      forall j | 0 <= j < i && !blocks[j].used
        ensures IsFree(blocks, blocks[j].addr)
      {
        assert blocks[j] in blocks;
      }
    }

    lemma Taken(bs: seq<Block>, i: int, n: int, lf: int, lowest: bool)
      requires Tiles(bs, 0, End(), HEADER) && NoTwoFree(bs) && 0 <= i < |bs| && !bs[i].used && bs[i].size >= n > 0
      requires IsLowestFree(bs, End(), lf) && lf <= bs[i].addr && lowest == (lf == bs[i].addr)
      requires forall b :: b in bs && b.used ==> b.size > 0
      requires LinkedHeap() && blocks == Replace(bs, i, 1, Carve(bs[i], HEADER, MIN_SIZE, n))
      requires if lowest then IsLowestFree(blocks, End(), lfree) else lfree == lf
      requires usedMem == UsedSpan(bs, HEADER) + HEADER + Carve(bs[i], HEADER, MIN_SIZE, n)[0].size && maxMem >= usedMem
      ensures Valid()
      ensures IsGrant(Live(bs), Live(blocks), Carve(bs[i], HEADER, MIN_SIZE, n)[0], bs[i].addr + HEADER, n, HEADER)
    {
      hide LinkedHeap, Tiles, NoTwoFree, UsedSpan, FreeBytes, Replace;
      CarveFacts(bs, End(), HEADER, MIN_SIZE, i, n);
      assert forall b :: b in blocks && b.used ==> b in Live(blocks);
      assert Carve(bs[i], HEADER, MIN_SIZE, n)[0] !in Live(bs) by { AllOrdered(bs, 0, End(), HEADER); }
      if !lowest {
        assert bs[i].addr > lf;
        assert End() > bs[i].addr by { AllOrdered(bs, 0, End(), HEADER); }
      }
    }

    /** First fit from the lowest free block.  Fails exactly when the request is empty, too large, or no
        hole below the search bound has room for it. */
    method Malloc(size: nat) returns (p: int)
      requires Valid() && MemSize() >= MIN_SIZE
      modifies this, arena
      ensures Valid()
      ensures p == NIL <==> size == 0 || Align(size) > MemSize() || forall b :: b in old(blocks) ==>
              !Takes(b, Request(size), MemSize())
      ensures p == NIL ==> blocks == old(blocks) && lfree == old(lfree)
      ensures p == NIL ==> usedMem == old(usedMem) && maxMem == old(maxMem)
      ensures p != NIL ==> exists i :: LowestGrant(old(blocks), blocks, MemSize(), Request(size), p, i)
      ensures p != NIL ==> exists c :: IsGrant(old(Live(blocks)), Live(blocks), c, p, Request(size), HEADER)
      ensures p != NIL ==> maxMem == if old(maxMem) < usedMem then usedMem else old(maxMem)
      ensures forall b :: b in old(Live(blocks)) ==> InHeap(b) && Payload(b) == old(Payload(b))
    {
      LiveInside();
      if size == 0 {
        return NIL;
      }
      var n := Align(size);
      if n > MemSize() {
        return NIL;
      }
      if n < MIN_SIZE {
        n := MIN_SIZE;
      }
      var h;
      ghost var i;
      h, i := FindFree(n);
      if h == NIL {
        return NIL;
      }
      Around(h, i);
      assert blocks[i] in blocks;
      shield := Live(blocks);
      TakeHole(h, n, i);
      p := h + HEADER;
      CarveTakesFront(old(blocks), i, n, HEADER, MIN_SIZE);
      assert LowestGrant(old(blocks), blocks, MemSize(), Request(size), p, i);
    }

    /** Cut the end off the used block `h`. */
    method CutOff(h: int, a: int, ghost i: int)
      requires LinkedHeap() && NoTwoFree(blocks) && Guard() && Safe(a) && IndexOf(h, i) && blocks[i].used
      requires h + HEADER <= a && a <= h + blocks[i].size && a % ALIGN_SIZE == 0
      modifies `used, `next, `prev, `blocks, arena
      ensures LinkedHeap() && Guard() && IndexOf(a, i + 1) && !blocks[i + 1].used
      ensures Live(blocks) == old(Live(blocks)) - {old(blocks)[i]} + {Block(h, a - h - HEADER, true)}
      ensures UsedSpan(blocks, HEADER) == old(UsedSpan(blocks, HEADER)) - old(blocks)[i].size + (a - h - HEADER)
      ensures forall x :: IsFree(blocks, x) <==> old(IsFree(blocks, x)) || x == a
      ensures forall j :: 0 <= j < |blocks| - 1 && j != i + 1 ==> !BothFree(blocks, j)
      ensures forall b :: b in shield ==> Payload(b) == old(Payload(b))
    {
      CutFacts(blocks, End(), HEADER, i, a);
      Around(h, i);
      SplitBlock(h, a, i);
    }

    method ShrinkAt(h: int, n: int, ghost i: int)
      requires Valid() && IndexOf(h, i) && blocks[i].used && 0 < n && n + HEADER + MIN_SIZE < blocks[i].size &&
               n % ALIGN_SIZE == 0
      requires shield == Live(blocks) - {blocks[i]} + {Block(h, n, true)}
      modifies this, arena
      ensures Valid() && shield == old(shield)
      ensures Live(blocks) == old(Live(blocks)) - {old(blocks)[i]} + {Block(h, n, true)}
      ensures maxMem == old(maxMem)
      ensures forall b :: b in shield ==> InHeap(b) && Payload(b) == old(Payload(b))
    {
      hide LinkedHeap, NoTwoFree, UsedSpan, IsLowestFree, Guard;
      PrefixSafe(h, n, i);
      Around(h, i);
      var a := h + HEADER + n;
      usedMem := usedMem - ((next[h] - h - HEADER) - n);
      CutEnter(h, a, i);
      assert forall b :: b in blocks && b.used ==> b in Live(blocks);
    }

    method CutEnter(h: int, a: int, ghost i: int)
      requires LinkedHeap() && NoTwoFree(blocks) && Guard() && Safe(a) && IndexOf(h, i) && blocks[i].used
      requires h + HEADER <= a && a <= h + blocks[i].size && a % ALIGN_SIZE == 0
      requires IsLowestFree(blocks, End(), lfree)
      modifies `used, `next, `prev, `lfree, `blocks, arena
      ensures LinkedHeap() && NoTwoFree(blocks) && IsLowestFree(blocks, End(), lfree)
      ensures Live(blocks) == old(Live(blocks)) - {old(blocks)[i]} + {Block(h, a - h - HEADER, true)}
      ensures UsedSpan(blocks, HEADER) == old(UsedSpan(blocks, HEADER)) - old(blocks)[i].size + (a - h - HEADER)
      ensures forall b :: b in shield ==> Payload(b) == old(Payload(b))
    {
      CutOff(h, a, i);
      EnterHole(a, i + 1);
    }

    lemma PrefixSafe(h: int, n: int, i: int)
      requires LinkedHeap() && IndexOf(h, i) && blocks[i].used && 0 <= n <= blocks[i].size - HEADER
      requires shield == Live(blocks) - {blocks[i]} + {Block(h, n, true)}
      ensures Guard() && Safe(h + HEADER + n)
      ensures forall b :: b in shield ==> InHeap(b)
    {
      hide LinkedAt, Tiles, SameButAt;
      AllOrdered(blocks, 0, End(), HEADER);
    }

    /** How a successful resize of the live block `b` to the live block `c` changes the heap: nothing
        else, and the common prefix of the contents is kept. */
    twostate predicate Resized(b: Block, c: Block, n: nat)
      requires InHeap(b) && InHeap(c)
      reads this, arena
    {
      && b in old(Live(blocks)) && c.used && c.size >= n
      && Live(blocks) == old(Live(blocks)) - {b} + {c}
      && Payload(c)[..if b.size < n then b.size else n] == old(Payload(b))[..if b.size < n then b.size else n]
      && forall o :: o in old(Live(blocks)) && o != b ==> InHeap(o) && Payload(o) == old(Payload(o))
    }

    /** Outcome `r` of resizing the block at `p`, which is block `i`: in place when the size is the same
        or the cut-off part can hold a minimal block, else as an allocation decides, even to shrink. */
    twostate predicate ResizeOutcome(p: int, r: int, n: nat, i: int)
      reads this, arena
    {
      && 0 <= i < |old(blocks)| && old(blocks)[i].addr + HEADER == p && InHeap(old(blocks)[i])
      && (r != NIL ==> exists c :: InHeap(c) && c.addr + HEADER == r && Resized(old(blocks)[i], c, n))
      && (r == p <==> n == old(blocks)[i].size || n + HEADER + MIN_SIZE < old(blocks)[i].size)
      && (r == p ==> Block(p - HEADER, n, true) in Live(blocks))
      && (r == NIL <==> r != p && forall b :: b in old(blocks) ==> !Takes(b, Request(n), MemSize()))
    }

    method Realloc(p: int, newSize: nat) returns (r: int)
      requires Valid() && MemSize() >= MIN_SIZE && (p < 0 || p >= End() || IsLive(p))
      modifies this, arena
      ensures Valid()
      ensures newSize == 0 ==> r == NIL && Live(blocks) == set b | b in old(Live(blocks)) && b.addr + HEADER != p
      ensures newSize > 0 && (r == NIL || (p != NIL && (p < 0 || p >= End()))) ==>
              blocks == old(blocks) && lfree == old(lfree) && usedMem == old(usedMem)
      ensures newSize > 0 && r == NIL ==> forall b :: b in Live(blocks) ==> InHeap(b) && Payload(b) == old(Payload(b))
      ensures forall b :: b in old(Live(blocks)) && b.addr + HEADER != p ==> InHeap(b) && Payload(b) == old(Payload(b))
      ensures Align(newSize) > MemSize() ==> r == NIL
      ensures newSize > 0 && p == NIL ==>
                (r == NIL <==> Align(newSize) > MemSize() || forall b :: b in old(blocks) ==>
                  !Takes(b, Request(Align(newSize)), MemSize()))
      ensures 0 < Align(newSize) <= MemSize() && p != NIL && (p < 0 || p >= End()) ==> r == p
      ensures newSize > 0 && p == NIL && r != NIL ==>
              exists c :: IsGrant(old(Live(blocks)), Live(blocks), c, r, Request(Align(newSize)), HEADER)
      ensures 0 < Align(newSize) <= MemSize() && 0 <= p < End() ==> exists i :: ResizeOutcome(p, r, Align(newSize), i)
    {
      LiveInside();
      var n := Align(newSize);
      if n > MemSize() {
        return NIL;
      } else if n == 0 {
        Free(p);
        return NIL;
      }
      if p == NIL {
        r := Malloc(n);
        return;
      }
      if p < 0 || p >= End() {
        return p;
      }
      ghost var i := LiveIndex(p);
      r := Resize(p, n, i);
      assert ResizeOutcome(p, r, n, i);
    }

    method Resize(p: int, n: nat, ghost i: int) returns (r: int)
      requires Valid() && MemSize() >= MIN_SIZE && IndexOf(p - HEADER, i) && blocks[i].used
      requires 0 < n <= MemSize() && Align(n) == n && 0 <= p
      modifies this, arena
      ensures Valid() && ResizeOutcome(p, r, n, i)
      ensures r == NIL ==> blocks == old(blocks) && lfree == old(lfree) && usedMem == old(usedMem)
      ensures r == NIL ==> forall b :: b in Live(blocks) ==> InHeap(b) && Payload(b) == old(Payload(b))
    {
      var h := p - HEADER;
      Around(h, i);
      LiveInside();
      var size := next[h] - h - HEADER;
      if size == n {
        assert Live(blocks) == Live(blocks) - {blocks[i]} + {blocks[i]};
        return p;
      }
      if n + HEADER + MIN_SIZE < size {
        Shrink(h, n, i);
        return p;
      }
      r := Move(p, n, i);
    }

    method Shrink(h: int, n: nat, ghost i: int)
      requires Valid() && IndexOf(h, i) && blocks[i].used && InHeap(blocks[i])
      requires 0 < n && n + HEADER + MIN_SIZE < blocks[i].size && n % ALIGN_SIZE == 0
      modifies this, arena
      ensures Valid() && InHeap(Block(h, n, true)) && Resized(old(blocks)[i], Block(h, n, true), n)
    {
      ghost var b, c := blocks[i], Block(h, n, true);
      shield := Live(blocks) - {b} + {c};
      BytesPrefix(arena, b, HEADER, n);
      BytesPrefix(arena, c, HEADER, n);
      ShrinkAt(h, n, i);
      assert Payload(c)[..n] == Payload(c);
    }

    /** Resize by moving, which keeps the shorter of the two lengths. */
    method Move(p: int, n: nat, ghost i: int) returns (r: int)
      requires Valid() && MemSize() >= MIN_SIZE && IndexOf(p - HEADER, i) && blocks[i].used && InHeap(blocks[i])
      requires 0 < n <= MemSize() && Align(n) == n
      modifies this, arena
      ensures Valid() && r != p
      ensures r == NIL <==> forall b :: b in old(blocks) ==> !Takes(b, Request(n), MemSize())
      ensures r == NIL ==> blocks == old(blocks) && lfree == old(lfree) && usedMem == old(usedMem)
      ensures r == NIL ==> forall b :: b in Live(blocks) ==> InHeap(b) && Payload(b) == old(Payload(b))
      ensures r != NIL ==> exists c :: InHeap(c) && c.addr + HEADER == r && Resized(old(blocks)[i], c, n)
    {
      ghost var b, live := blocks[i], Live(blocks);
      assert b in live;
      Around(p - HEADER, i);
      var size := next[p - HEADER] - p;
      r := Malloc(n);
      if r != NIL {
        ghost var c :| IsGrant(live, Live(blocks), c, r, Request(n), HEADER);
        assert IsGrant(live, Live(blocks), c, r, n, HEADER);
        MoveInto(p, r, if size < n then size else n, b, c, live);
        assert Resized(b, c, n);
      }
    }

    /** Copy the first `len` bytes of `b` into the new block `c` and release `b`. */
    method MoveInto(p: int, r: int, len: nat, ghost b: Block, ghost c: Block, ghost live: set<Block>)
      requires Valid() && b in live && b.addr + HEADER == p && len <= b.size && len <= c.size
      requires IsGrant(live, Live(blocks), c, r, c.size, HEADER)
      modifies this, arena
      ensures Valid() && Live(blocks) == live - {b} + {c} && r != p
      ensures InHeap(b) && InHeap(c) && Payload(c)[..len] == old(Payload(b))[..len]
      ensures forall o :: o in live && o != b ==> InHeap(o) && Payload(o) == old(Payload(o))
    {
      assert b in Live(blocks) && c in Live(blocks);
      CopyPayload(p, r, len, b, c);
      Free(p);
    }

    method CopyPayload(p: int, r: int, len: nat, ghost b: Block, ghost c: Block)
      requires LinkedHeap() && b in Live(blocks) && c in Live(blocks) && b != c && len <= b.size && len <= c.size
      requires b.addr + HEADER == p && c.addr + HEADER == r
      modifies arena
      ensures InHeap(b) && InHeap(c) && Payload(c)[..len] == old(Payload(b))[..len]
      ensures forall o :: o in Live(blocks) && o != c ==> InHeap(o) && Payload(o) == old(Payload(o))
      ensures forall o :: o in Live(blocks) && o != b ==> o.addr != b.addr
    {
      hide LinkedHeap, Live;
      Apart(b, c);
      BytesPrefix(arena, b, HEADER, len);
      CopyBytes(arena, r, p, len, HEADER, Live(blocks) - {c});
      BytesPrefix(arena, c, HEADER, len);
    }

    lemma Apart(b: Block, c: Block)
      requires LinkedHeap() && b in Live(blocks) && c in Live(blocks) && b != c
      ensures InHeap(b) && InHeap(c)
      ensures b.addr + HEADER + b.size <= c.addr || c.addr + HEADER + c.size <= b.addr
      ensures forall o :: o in Live(blocks) && o != b && o != c ==>
                InHeap(o) && (o.addr + HEADER + o.size <= c.addr || c.addr + HEADER + c.size <= o.addr) &&
                  o.addr != b.addr
    {
      AllOrdered(blocks, 0, End(), HEADER);
    }

    lemma UsedNotFree(i: int)
      requires LinkedHeap() && 0 <= i < |blocks| && blocks[i].used
      ensures !IsFree(blocks, blocks[i].addr)
    {
      AllOrdered(blocks, 0, End(), HEADER);
    }

    lemma EndNotFree()
      requires LinkedHeap()
      ensures !IsFree(blocks, End())
    {
      AllOrdered(blocks, 0, End(), HEADER);
    }
  }

  /** `a` is the lowest hole, or one that merging the hole `h` with its neighbours `n` and `p` removes
      in favour of the lowest one. */
  ghost predicate NearLowestFree(bs: seq<Block>, end: int, a: int, h: int, n: int, p: int) {
    && (a == end || IsFree(bs, a))
    && forall x :: IsFree(bs, x) ==> a <= x || (IsFree(bs, a) && ((x == h && a == n) || (x == p && a == h)))
  }

  /** The search bound is strict: a hole with room for `n` bytes is refused exactly when it is the last
      block and `n` fills it completely. */
  lemma RefusedIffFillsTheEnd(bs: seq<Block>, memSize: int, i: int, n: int)
    requires Tiles(bs, 0, memSize + HEADER, HEADER) && 0 <= i < |bs| && !bs[i].used && bs[i].size >= n >= MIN_SIZE
    ensures !Takes(bs[i], n, memSize) <==> i == |bs| - 1 && bs[i].size == n
  {
    var end := memSize + HEADER;
    assert Abuts(bs, i, end, HEADER);
    if i < |bs| - 1 {
      AllOrdered(bs, 0, end, HEADER);
    }
  }

  /** So a fresh heap cannot hand out all of its memory, although one hole spans it. */
  lemma WholeHeapRefused(memSize: nat)
    requires memSize >= MIN_SIZE
    ensures var bs := [Block(0, memSize, false)];
      && Tiles(bs, 0, memSize + HEADER, HEADER) && bs[0].size == memSize
      && !Takes(bs[0], memSize, memSize)
  {
    var bs := [Block(0, memSize, false)];
    assert Abuts(bs, 0, memSize + HEADER, HEADER);
    RefusedIffFillsTheEnd(bs, memSize, 0, memSize);
  }

  /** The search bound `mem_size_aligned - size` as the unsigned 32-bit value it is. */
  function SearchBound(memSize: nat, n: nat): (r: nat)
    requires memSize < 0x1_0000_0000 && n < 0x1_0000_0000
  {
    (memSize - n + 0x1_0000_0000) % 0x1_0000_0000
  }

  /** Offset the search has reached after `k` steps from the first block. */
  ghost function Walk(bs: seq<Block>, end: int, k: nat): int {
    if k <= |bs| then AddrAt(bs, k, end) else end
  }

  ghost predicate StopsAt(bs: seq<Block>, memSize: nat, n: nat, k: nat)
    requires memSize < 0x1_0000_0000 && n < 0x1_0000_0000
  {
    Walk(bs, memSize + HEADER, k) >= SearchBound(memSize, n)
  }

  /** A search that finds no room: in a heap smaller than a minimal block the bound wraps around, and the search
      runs past the last block and stays at the end marker for ever; with room for one minimal block it never
      does. */
  lemma SearchStopsIff(bs: seq<Block>, memSize: nat, n: nat)
    requires memSize + HEADER < 0x1_0000_0000 && Tiles(bs, 0, memSize + HEADER, HEADER)
    requires n == MIN_SIZE || MIN_SIZE < n <= memSize   // what the size test and the clamp let through
    ensures (exists k :: StopsAt(bs, memSize, n, k)) <==> memSize >= n
  {
    AllOrdered(bs, 0, memSize + HEADER, HEADER);
    if memSize >= n {
      assert StopsAt(bs, memSize, n, |bs|);
    } else {
      forall k: nat
        ensures !StopsAt(bs, memSize, n, k)
      {
      }
    }
  }
}
