/** The memory-heap object: a circular list of physical blocks, a circular list of the free ones,
    splitting and merging in place.  Addresses are offsets in the pool. */
module MemHeaps {
  import opened Arena
  import opened BlockLayout
  import opened LayoutChanges
  import opened MemHeapLinks

  const MIN_ALLOC := 12   // RT_MEMHEAP_MINIALLOC

  function Align(n: nat): (r: nat)
    ensures r % ALIGN_SIZE == 0 && n <= r < n + ALIGN_SIZE
  {
    (n + ALIGN_SIZE - 1) / ALIGN_SIZE * ALIGN_SIZE
  }

  /** Payload bytes a request of `n` bytes asks for. */
  function Request(n: nat): (r: nat)
    ensures r % ALIGN_SIZE == 0 && r >= n && r >= MIN_ALLOC && (r < n + ALIGN_SIZE || r == MIN_ALLOC)
  {
    if Align(n) < MIN_ALLOC then MIN_ALLOC else Align(n)
  }

  /** It is the least aligned size that is large enough. */
  lemma RequestIsLeast(n: nat, m: nat)
    requires m % ALIGN_SIZE == 0 && m >= n && m >= MIN_ALLOC
    ensures Request(n) <= m
  {
    hide Align;
  }

  /** The hole at `a` can serve a request of `n` payload bytes. */
  ghost predicate Fits(bs: seq<Block>, a: int, n: int) {
    exists b :: b in bs && b.addr == a && !b.used && b.size >= n
  }

  lemma CarveNew(bs: seq<Block>, tail: int, i: int, n: int)
    requires Tiles(bs, 0, tail, HEADER) && 0 <= i < |bs| && !bs[i].used
    ensures Carve(bs[i], HEADER, MIN_ALLOC, n)[0] !in Live(bs)
  {
    AllOrdered(bs, 0, tail, HEADER);
  }

  class MemHeap {
    const arena: array<bv8>
    // the fields of the block headers, by header offset
    var used: map<int, bool>
    var next: map<int, int>
    var prev: map<int, int>
    var nextFree: map<int, int>
    var prevFree: map<int, int>
    var availableSize: int
    var maxUsedSize: int
    ghost var blocks: seq<Block>   // in address order, without the tailer
    ghost var ring: seq<int>       // the free list from its header on
    ghost var shield: set<Block>   // payloads the running operation must leave alone

    /** One hole spanning the pool, and the used tailer. */
    constructor (size: nat)
      requires size / ALIGN_SIZE * ALIGN_SIZE >= 2 * HEADER
      ensures Valid() && fresh(arena) && arena.Length == size / ALIGN_SIZE * ALIGN_SIZE
      ensures blocks == [Block(0, arena.Length - 2 * HEADER, false)] && ring == [0]
      ensures availableSize == arena.Length - 2 * HEADER && maxUsedSize == 2 * HEADER
    {
      var poolSize := size / ALIGN_SIZE * ALIGN_SIZE;
      var tailer := poolSize - HEADER;
      arena := new bv8[poolSize];
      availableSize := poolSize - 2 * HEADER;
      maxUsedSize := poolSize - (poolSize - 2 * HEADER);
      used := map[0 := false, tailer := true];
      next := map[0 := tailer, tailer := 0];
      prev := map[0 := tailer, tailer := 0];
      nextFree := map[FREE_HEADER := 0, 0 := FREE_HEADER, tailer := NIL];
      prevFree := map[FREE_HEADER := 0, 0 := FREE_HEADER, tailer := NIL];
      blocks := [Block(0, poolSize - 2 * HEADER, false)];
      ring := [0];
      shield := {};
      new;
      assert LinkedAt(used, next, prev, blocks, Tail(), 0) && LinkedAt(used, next, prev, blocks, Tail(), 1);
      assert RingStep(nextFree, prevFree, ring, 0) && RingStep(nextFree, prevFree, ring, 1);
      CountOne(blocks[0], HEADER);
      assert blocks[0] in blocks;
    }

    ghost function Tail(): int {
      arena.Length - HEADER
    }

    ghost predicate LinkedHeap()
      reads `used, `next, `prev, `blocks
    {
      arena.Length >= 2 * HEADER && Linked(used, next, prev, blocks, Tail())
    }

    ghost predicate Valid()
      reads `used, `next, `prev, `nextFree, `prevFree, `availableSize, `maxUsedSize, `blocks, `ring
    {
      && LinkedHeap()
      && NoTwoFree(blocks)
      && RingLinked(nextFree, prevFree, ring)
      && (forall a :: a in ring <==> IsFree(blocks, a))
      && availableSize == FreeBytes(blocks)
      && maxUsedSize >= arena.Length - availableSize
    }

    ghost predicate InPool(b: Block) {
      Inside(b, HEADER, arena.Length)
    }

    ghost function Payload(b: Block): seq<bv8>
      requires InPool(b)
      reads arena
    {
      Bytes(arena, b, HEADER)
    }

    ghost predicate Shielded()
      reads `shield
    {
      forall b :: b in shield ==> InPool(b)
    }

    /** A header at `a` does not overlap a shielded payload. */
    ghost predicate Safe(a: int)
      reads `shield
    {
      a == FREE_HEADER ||
      (&& 0 <= a <= Tail()
       && forall b :: b in shield ==> a <= b.addr || b.addr + HEADER + b.size <= a)
    }

    ghost predicate RingSafe()
      reads `shield, `ring
    {
      forall r :: r in ring ==> Safe(r)
    }

    ghost predicate Guard()
      reads `shield, `blocks
    {
      Shielded() && Safe(Tail()) && forall b :: b in blocks ==> Safe(b.addr)
    }

    lemma GuardLive(i: int, sub: int)
      requires LinkedHeap()
      requires -1 <= i < |blocks| && (i >= 0 ==> 0 <= sub <= blocks[i].size)
      requires shield == Live(blocks) - (if i < 0 then {} else {blocks[i]}) +
                         (if i < 0 || !blocks[i].used then {} else {Block(blocks[i].addr, sub, true)})
      ensures Guard()
      ensures i >= 0 ==> var b, kept := blocks[i], if blocks[i].used then sub else 0;
                forall a :: b.addr + HEADER + kept <= a <= b.addr + b.size ==> Safe(a)
    {
      AllOrdered(blocks, 0, Tail(), HEADER);
    }

    method Clobber(a: int)
      requires Shielded() && Safe(a)
      modifies arena
      ensures forall b :: b in shield ==> Payload(b) == old(Payload(b))
    {
      if a != FREE_HEADER {
        WriteHeader(arena, a, HEADER, shield);
      }
    }

    method SetUsed(a: int, v: bool)
      requires Shielded() && Safe(a)
      modifies `used, arena
      ensures used == old(used)[a := v]
      ensures forall b :: b in shield ==> Payload(b) == old(Payload(b))
    {
      used := used[a := v];
      Clobber(a);
    }

    method SetNext(a: int, v: int)
      requires Shielded() && Safe(a)
      modifies `next, arena
      ensures next == old(next)[a := v]
      ensures forall b :: b in shield ==> Payload(b) == old(Payload(b))
    {
      next := next[a := v];
      Clobber(a);
    }

    method SetPrev(a: int, v: int)
      requires Shielded() && Safe(a)
      modifies `prev, arena
      ensures prev == old(prev)[a := v]
      ensures forall b :: b in shield ==> Payload(b) == old(Payload(b))
    {
      prev := prev[a := v];
      Clobber(a);
    }

    method SetNextFree(a: int, v: int)
      requires Shielded() && Safe(a)
      modifies `nextFree, arena
      ensures nextFree == old(nextFree)[a := v]
      ensures forall b :: b in shield ==> Payload(b) == old(Payload(b))
    {
      nextFree := nextFree[a := v];
      Clobber(a);
    }

    method SetPrevFree(a: int, v: int)
      requires Shielded() && Safe(a)
      modifies `prevFree, arena
      ensures prevFree == old(prevFree)[a := v]
      ensures forall b :: b in shield ==> Payload(b) == old(Payload(b))
    {
      prevFree := prevFree[a := v];
      Clobber(a);
    }

    /** A new header, unused and linked to `p` and `n`; whatever header record it overlaps is gone. */
    method NewHeader(a: int, p: int, n: int)
      requires Shielded() && Safe(a)
      modifies `used, `next, `prev, `nextFree, `prevFree, arena
      ensures used == Forget(old(used), a, HEADER)[a := false]
      ensures next == Forget(old(next), a, HEADER)[a := n] && prev == Forget(old(prev), a, HEADER)[a := p]
      ensures nextFree == Forget(old(nextFree), a, HEADER) && prevFree == Forget(old(prevFree), a, HEADER)
      ensures forall b :: b in shield ==> Payload(b) == old(Payload(b))
    {
      used, next, prev := Forget(used, a, HEADER)[a := false], Forget(next, a, HEADER)[a := n],
        Forget(prev, a, HEADER)[a := p];
      nextFree, prevFree := Forget(nextFree, a, HEADER), Forget(prevFree, a, HEADER);
      Clobber(a);
    }

    method MarkUsed(h: int, v: bool, ghost i: int)
      requires LinkedHeap() && Guard() && 0 <= i < |blocks| && blocks[i].addr == h
      modifies `used, `blocks, arena
      ensures LinkedHeap() && Guard() && blocks == Marked(old(blocks), i, v)
      ensures forall b :: b in shield ==> Payload(b) == old(Payload(b))
    {
      assert blocks[i] in blocks;
      SetUsed(h, v);
      MarkedLinked(old(used), next, prev, blocks, Tail(), i, v, used);
      blocks := Marked(blocks, i, v);
    }

    /** Put a new hole at `a`, inside block `h`. */
    method SplitBlock(h: int, a: int, ghost i: int)
      requires LinkedHeap() && Guard() && Safe(a)
      requires 0 <= i < |blocks| && blocks[i].addr == h
      requires h + HEADER <= a && a + HEADER <= AddrAt(blocks, i + 1, Tail()) && a % ALIGN_SIZE == 0
      requires RingLinked(nextFree, prevFree, ring)
      requires forall r :: r in ring ==> exists b :: b in blocks && b.addr == r
      modifies `used, `next, `prev, `nextFree, `prevFree, `blocks, arena
      ensures LinkedHeap() && Guard() && blocks == CutAt(old(blocks), Tail(), HEADER, i, a)
      ensures RingLinked(nextFree, prevFree, ring)
      ensures forall b :: b in shield ==> Payload(b) == old(Payload(b))
    {
      hide Linked, RingLinked, CutAt, Safe, Shielded, Forget;
      ghost var used0, next0, prev0 := Forget(used, a, HEADER), Forget(next, a, HEADER), Forget(prev, a, HEADER);
      CutSafe(h, a, i);
      CutForgets(used, next, prev, blocks, Tail(), nextFree, prevFree, ring, i, a);
      NewHeader(a, h, next[h]);
      SetPrev(next[h], a);
      SetNext(h, a);
      CutLinked(used0, next0, prev0, blocks, Tail(), i, a, used, next, prev);
      blocks := CutAt(blocks, Tail(), HEADER, i, a);
    }

    /** The headers around a cut are clear of the shielded payloads, and those in use are kept. */
    lemma CutSafe(h: int, a: int, i: int)
      requires LinkedHeap() && Guard() && Safe(a) && IndexOf(h, i)
      requires h + HEADER <= a && a + HEADER <= AddrAt(blocks, i + 1, Tail())
      ensures h in next && Safe(next[h]) && Safe(h) && h != a && next[h] != a
      ensures h in Forget(next, a, HEADER) && Forget(next, a, HEADER)[h] == next[h]
      ensures forall b :: b in CutAt(blocks, Tail(), HEADER, i, a) ==> Safe(b.addr)
    {
      assert LinkedAt(used, next, prev, blocks, Tail(), i) && blocks[i] in blocks;
      if i + 1 < |blocks| { assert blocks[i + 1] in blocks; }
    }

    /** Merge block `h` with the block behind it. */
    method AbsorbNext(h: int, ghost i: int)
      requires LinkedHeap() && Guard()
      requires 0 <= i < |blocks| - 1 && blocks[i].addr == h
      modifies `next, `prev, `blocks, arena
      ensures LinkedHeap() && Guard() && blocks == Joined(old(blocks), HEADER, i)
      ensures forall b :: b in shield ==> Payload(b) == old(Payload(b))
    {
      assert LinkedAt(used, next, prev, blocks, Tail(), i) && LinkedAt(used, next, prev, blocks, Tail(), i + 1);
      assert Safe(AddrAt(blocks, i + 2, Tail())) by { if i + 2 < |blocks| { assert blocks[i + 2] in blocks; } }
      assert blocks[i] in blocks && blocks[i + 1] in blocks;
      AddrDistinct(blocks, Tail(), HEADER, i, i + 1);
      var n := next[h];
      SetPrev(next[n], h);
      SetNext(h, next[n]);
      JoinedLinked(used, old(next), old(prev), blocks, Tail(), i, next, prev);
      blocks := Joined(blocks, HEADER, i);
    }

    method UnlinkFree(a: int, ghost k: int)
      requires Guard() && RingLinked(nextFree, prevFree, ring)
      requires 0 <= k < |ring| && ring[k] == a
      requires RingSafe()
      modifies `nextFree, `prevFree, `ring, arena
      ensures RingLinked(nextFree, prevFree, ring) && ring == Without(old(ring), k)
      ensures forall x :: x in ring <==> x in old(ring) && x != a
      ensures forall b :: b in shield ==> Payload(b) == old(Payload(b))
    {
      ghost var nextFree0, prevFree0 := nextFree, prevFree;
      assert RingStep(nextFree, prevFree, ring, k) && RingStep(nextFree, prevFree, ring, k + 1);
      assert Safe(RingAt(ring, k)) && Safe(RingAt(ring, k + 2));
      assert nextFree[a] != a;
      SetPrevFree(nextFree[a], prevFree[a]);
      SetNextFree(prevFree[a], nextFree[a]);
      RingUnlink(nextFree0, prevFree0, ring, k, nextFree, prevFree);
      WithoutMembers(ring, k);
      ring := Without(ring, k);
    }

    method LinkFree(a: int)
      requires Guard() && Safe(a) && RingLinked(nextFree, prevFree, ring)
      requires a !in ring && a != FREE_HEADER
      requires RingSafe()
      modifies `nextFree, `prevFree, `ring, arena
      ensures RingLinked(nextFree, prevFree, ring) && ring == [a] + old(ring)
      ensures forall b :: b in shield ==> Payload(b) == old(Payload(b))
    {
      ghost var nextFree0, prevFree0 := nextFree, prevFree;
      assert RingStep(nextFree, prevFree, ring, 0) && Safe(RingAt(ring, 1));
      SetNextFree(a, nextFree[FREE_HEADER]);
      SetPrevFree(a, FREE_HEADER);
      SetPrevFree(nextFree[FREE_HEADER], a);
      SetNextFree(FREE_HEADER, a);
      RingPush(nextFree0, prevFree0, ring, a, nextFree, prevFree);
      ring := [a] + ring;
    }

    ghost predicate IndexOf(a: int, i: int)
      reads `blocks
    {
      0 <= i < |blocks| && blocks[i].addr == a
    }

    /** What a free-list entry is: one of the holes, with its payload size in its links. */
    lemma RingEntry(a: int) returns (i: int)
      requires LinkedHeap() && IsFree(blocks, a)
      ensures IndexOf(a, i) && !blocks[i].used && a in next && next[a] - a - HEADER == blocks[i].size
      ensures forall n :: Fits(blocks, a, n) <==> blocks[i].size >= n
    {
      i :| 0 <= i < |blocks| && blocks[i].addr == a && !blocks[i].used;
      assert LinkedAt(used, next, prev, blocks, Tail(), i) && Abuts(blocks, i, Tail(), HEADER);
      AllOrdered(blocks, 0, Tail(), HEADER);
      forall n | Fits(blocks, a, n)
        ensures blocks[i].size >= n
      {
        var b :| b in blocks && b.addr == a && !b.used && b.size >= n;
      }
      forall n | blocks[i].size >= n
        ensures Fits(blocks, a, n)
      {
        assert blocks[i] in blocks;
      }
    }

    /** First entry of the free list with room for `n` payload bytes. */
    method FindFree(n: int) returns (h: int, freeSize: int, ghost k: int)
      requires Valid() && n > 0
      ensures freeSize >= n <==> exists a :: a in ring && Fits(blocks, a, n)
      ensures freeSize >= n ==>
              0 <= k < |ring| && h == ring[k] && Fits(blocks, h, n) && h in next && freeSize == next[h] - h - HEADER
      ensures freeSize >= n ==> forall j :: 0 <= j < k ==> !Fits(blocks, ring[j], n)
    {
      assert RingStep(nextFree, prevFree, ring, 0);
      freeSize, h, k := 0, nextFree[FREE_HEADER], 0;
      while h != FREE_HEADER && freeSize < n
        invariant 0 <= k <= |ring| && h == RingAt(ring, k + 1)
        invariant forall j :: 0 <= j < k ==> !Fits(blocks, ring[j], n)
        invariant freeSize >= n ==> k < |ring| && Fits(blocks, h, n) && h in next && freeSize == next[h] - h - HEADER
        decreases |ring| - k, freeSize < n
      {
        assert h == ring[k] && h in ring;
        ghost var i := RingEntry(h);
        freeSize := next[h] - h - HEADER;
        if freeSize < n {
          assert RingStep(nextFree, prevFree, ring, k + 1);
          h := nextFree[h];
          k := k + 1;
        }
      }
      if freeSize >= n {
        assert ring[k] in ring;
      }
    }

    /** Cut a hole off the end of the hole `h`; only the rest stays on the free list. */
    method SplitHole(h: int, n: int, ghost i: int, ghost k: int)
      requires Valid() && shield == Live(blocks)
      requires IndexOf(h, i) && !blocks[i].used && blocks[i].size >= n + HEADER && n >= 0 && n % ALIGN_SIZE == 0
      requires 0 <= k < |ring| && ring[k] == h
      modifies `used, `next, `prev, `nextFree, `prevFree, `blocks, `ring, arena
      ensures LinkedHeap() && Guard() && RingLinked(nextFree, prevFree, ring)
      ensures blocks == CutAt(old(blocks), Tail(), HEADER, i, h + n + HEADER)
      ensures forall x :: x in ring <==> (x in old(ring) && x != h) || x == h + n + HEADER
      ensures forall b :: b in shield ==> Payload(b) == old(Payload(b))
    {
      SplitReady(h, n, i);
      SplitBlock(h, h + n + HEADER, i);
      Relink(h, h + n + HEADER, k);
    }

    lemma SplitReady(h: int, n: int, i: int)
      requires Valid() && shield == Live(blocks)
      requires IndexOf(h, i) && !blocks[i].used && blocks[i].size >= n + HEADER && n >= 0 && n % ALIGN_SIZE == 0
      ensures Guard() && RingSafe() && Safe(h + n + HEADER)
      ensures h + n + 2 * HEADER <= AddrAt(blocks, i + 1, Tail()) && (h + n + HEADER) % ALIGN_SIZE == 0
      ensures h + n + HEADER !in ring && h >= 0
      ensures forall r :: r in ring ==> exists b :: b in blocks && b.addr == r
    {
      hide Tiles, RingLinked, FreeBytes, NoTwoFree, PhysLinked, Live;
      HoleNotLive(i);
      GuardLive(i, 0);
      EndOf(i);
      HolesAreBlocks();
      NoHeaderInside(blocks, Tail(), HEADER, i, h + n + HEADER);
    }

    lemma HoleNotLive(i: int)
      requires 0 <= i < |blocks| && !blocks[i].used
      ensures Live(blocks) == Live(blocks) - {blocks[i]}
    {
    }

    lemma EndOf(i: int)
      requires LinkedHeap() && 0 <= i < |blocks|
      ensures blocks[i].addr + HEADER + blocks[i].size == AddrAt(blocks, i + 1, Tail())
      ensures blocks[i].addr % ALIGN_SIZE == 0
    {
      assert Abuts(blocks, i, Tail(), HEADER) && blocks[i] in blocks;
    }

    lemma HolesAreBlocks()
      requires forall a :: a in ring <==> IsFree(blocks, a)
      ensures forall r :: r in ring ==> exists b :: b in blocks && b.addr == r
    {
    }

    /** Entry `h` leaves the free list, `a` enters it. */
    method Relink(h: int, a: int, ghost k: int)
      requires Guard() && Safe(a) && RingLinked(nextFree, prevFree, ring) && RingSafe()
      requires 0 <= k < |ring| && ring[k] == h && a !in ring && a != FREE_HEADER
      modifies `nextFree, `prevFree, `ring, arena
      ensures RingLinked(nextFree, prevFree, ring)
      ensures forall x :: x in ring <==> (x in old(ring) && x != h) || x == a
      ensures forall b :: b in shield ==> Payload(b) == old(Payload(b))
    {
      UnlinkFree(h, k);
      LinkFree(a);
    }

    /** Take the hole `h` off the free list, splitting it when the rest can hold a minimal block. */
    method Detach(h: int, n: int, freeSize: int, ghost i: int, ghost k: int)
      requires Valid() && shield == Live(blocks)
      requires IndexOf(h, i) && !blocks[i].used && blocks[i].size == freeSize >= n >= MIN_ALLOC && n % ALIGN_SIZE == 0
      requires 0 <= k < |ring| && ring[k] == h
      modifies this, arena
      ensures LinkedHeap() && Guard() && RingLinked(nextFree, prevFree, ring) && shield == old(shield)
      ensures var split := freeSize >= n + HEADER + MIN_ALLOC;
        && blocks == (if split then CutAt(old(blocks), Tail(), HEADER, i, h + n + HEADER) else old(blocks))
        && (forall x :: x in ring <==> (x in old(ring) && x != h) || (split && x == h + n + HEADER))
        && availableSize == old(availableSize) - (if split then n + HEADER else freeSize)
      ensures maxUsedSize == Max(old(maxUsedSize), arena.Length - availableSize)
      ensures forall b :: b in shield ==> Payload(b) == old(Payload(b))
    {
      if freeSize >= n + HEADER + MIN_ALLOC {
        SplitHole(h, n, i, k);
        availableSize := availableSize - n - HEADER;
      } else {
        GuardLive(-1, 0);
        assert RingSafe();
        UnlinkFree(h, k);
        availableSize := availableSize - freeSize;
      }
      maxUsedSize := Max(maxUsedSize, arena.Length - availableSize);
    }

    lemma Carved(bs: seq<Block>, holes: seq<int>, available: int, i: int, n: int)
      requires Tiles(bs, 0, Tail(), HEADER) && NoTwoFree(bs) && available == FreeBytes(bs)
      requires forall a :: a in holes <==> IsFree(bs, a)
      requires 0 <= i < |bs| && !bs[i].used && bs[i].size >= n >= MIN_ALLOC
      requires LinkedHeap() && RingLinked(nextFree, prevFree, ring)
      requires var mid := Carve(bs[i], HEADER, MIN_ALLOC, n);
        && blocks == Replace(bs, i, 1, mid)
        && (forall x :: x in ring <==> (x in holes && x != bs[i].addr) || (|mid| == 2 && x == mid[1].addr))
        && availableSize == available - (if |mid| == 2 then n + HEADER else bs[i].size)
      requires maxUsedSize >= arena.Length - availableSize
      ensures Valid()
      ensures IsGrant(Live(bs), Live(blocks), Carve(bs[i], HEADER, MIN_ALLOC, n)[0], bs[i].addr + HEADER, n, HEADER)
    {
      CarveFacts(bs, Tail(), HEADER, MIN_ALLOC, i, n);
      CarveNew(bs, Tail(), i, n);
    }

    method TakeHole(h: int, n: int, freeSize: int, ghost i: int, ghost k: int)
      requires Valid() && shield == Live(blocks)
      requires IndexOf(h, i) && !blocks[i].used && blocks[i].size == freeSize >= n >= MIN_ALLOC && n % ALIGN_SIZE == 0
      requires 0 <= k < |ring| && ring[k] == h
      modifies this, arena
      ensures Valid() && blocks == Replace(old(blocks), i, 1, Carve(old(blocks)[i], HEADER, MIN_ALLOC, n))
      ensures IsGrant(old(Live(blocks)), Live(blocks), Carve(old(blocks)[i], HEADER, MIN_ALLOC, n)[0], h + HEADER, n,
              HEADER)
      ensures maxUsedSize == Max(old(maxUsedSize), arena.Length - availableSize)
      ensures forall b :: b in old(Live(blocks)) ==> InPool(b) && Payload(b) == old(Payload(b))
    {
      Grab(h, n, freeSize, i, k);
      Carved(old(blocks), old(ring), old(availableSize), i, n);
    }

    method Grab(h: int, n: int, freeSize: int, ghost i: int, ghost k: int)
      requires Valid() && shield == Live(blocks)
      requires IndexOf(h, i) && !blocks[i].used && blocks[i].size == freeSize >= n >= MIN_ALLOC && n % ALIGN_SIZE == 0
      requires 0 <= k < |ring| && ring[k] == h
      modifies this, arena
      ensures LinkedHeap() && RingLinked(nextFree, prevFree, ring)
      ensures var mid := Carve(old(blocks)[i], HEADER, MIN_ALLOC, n);
        && blocks == Replace(old(blocks), i, 1, mid)
        && (forall x :: x in ring <==> (x in old(ring) && x != h) || (|mid| == 2 && x == mid[1].addr))
        && availableSize == old(availableSize) - (if |mid| == 2 then n + HEADER else freeSize)
      ensures maxUsedSize == Max(old(maxUsedSize), arena.Length - availableSize)
      ensures forall b :: b in old(Live(blocks)) ==> InPool(b) && Payload(b) == old(Payload(b))
    {
      hide PhysLinked, Tiles, Aligned, RingLinked, FreeBytes, NoTwoFree, CutAt, Replace;
      CarveIs(blocks, Tail(), HEADER, MIN_ALLOC, i, n);
      CutKeepsStart(blocks, Tail(), HEADER, i, h + n + HEADER);
      Detach(h, n, freeSize, i, k);
      MarkUsed(h, true, i);
    }

    /** First fit over the free list.  Fails exactly when no hole is large enough or the request is not
        strictly below the available bytes. */
    method Alloc(size: nat) returns (p: int)
      requires Valid()
      modifies this, arena
      ensures Valid()
      ensures p == NIL <==> Request(size) >= old(availableSize) || forall a :: a in old(ring) ==>
              !Fits(old(blocks), a, Request(size))
      ensures p == NIL ==> blocks == old(blocks) && ring == old(ring)
      ensures p == NIL ==> availableSize == old(availableSize) && maxUsedSize == old(maxUsedSize)
      ensures p != NIL ==> exists i, k :: FirstFitGrant(old(blocks), old(ring), blocks, Request(size), p, i, k)
      ensures p != NIL ==> exists c :: IsGrant(old(Live(blocks)), Live(blocks), c, p, Request(size), HEADER)
      ensures p != NIL ==> maxUsedSize == Max(old(maxUsedSize), arena.Length - availableSize)
      ensures forall b :: b in old(Live(blocks)) ==> InPool(b) && Payload(b) == old(Payload(b))
    {
      hide PhysLinked, Tiles, Aligned, RingLinked, FreeBytes, NoTwoFree, Carve, Replace, TakesFront;
      p := NIL;
      var n := Request(size);
      shield := Live(blocks);
      GuardLive(-1, 0);
      if n < availableSize {
        ghost var k;
        var h, freeSize;
        h, freeSize, k := FindFree(n);
        if freeSize >= n {
          assert h in ring;
          ghost var i := RingEntry(h);
          assert FirstFit(blocks, ring, n, i, k);
          assert h >= 0 by { AllOrdered(blocks, 0, Tail(), HEADER); }
          TakeHole(h, n, freeSize, i, k);
          p := h + HEADER;
          CarveTakesFront(old(blocks), i, n, HEADER, MIN_ALLOC);
          assert FirstFitGrant(old(blocks), old(ring), blocks, n, p, i, k);
        }
      }
    }

    /** Merge the holes `i` and `i + 1`. */
    method AbsorbHole(h: int, ghost i: int)
      requires LinkedHeap() && Guard()
      requires IndexOf(h, i) && i + 1 < |blocks| && BothFree(blocks, i)
      modifies `next, `prev, `blocks, arena
      ensures LinkedHeap() && Guard()
      ensures |blocks| == old(|blocks|) - 1
      ensures blocks[i] == Block(h, old(blocks)[i].size + HEADER + old(blocks)[i + 1].size, false)
      ensures Live(blocks) == old(Live(blocks)) && FreeBytes(blocks) == old(FreeBytes(blocks)) + HEADER
      ensures forall a :: IsFree(blocks, a) <==> old(IsFree(blocks, a)) && a != old(blocks)[i + 1].addr
      ensures forall j :: 0 <= j < |blocks| - 1 && BothFree(blocks, j) ==>
              BothFree(old(blocks), if j < i then j else j + 1)
      ensures forall b :: b in shield ==> Payload(b) == old(Payload(b))
    {
      JoinFacts(blocks, Tail(), HEADER, i);
      AbsorbNext(h, i);
    }

    /** Whether the block behind `h`, or before it, is a hole can be read off its neighbour's header. */
    lemma Neighbours(h: int, i: int)
      requires LinkedHeap() && Guard() && IndexOf(h, i)
      ensures h in next && next[h] in used && (!used[next[h]] <==> i + 1 < |blocks| && !blocks[i + 1].used)
      ensures i + 1 < |blocks| ==> next[h] == blocks[i + 1].addr && next[h] != h && blocks[i + 1] in blocks
      ensures h in prev && prev[h] in used && (!used[prev[h]] <==> i > 0 && !blocks[i - 1].used)
      ensures i > 0 ==> prev[h] == blocks[i - 1].addr && prev[h] != h && blocks[i - 1] in blocks
      ensures next[h] - h - HEADER == blocks[i].size && Safe(h) && blocks[i] in blocks
    {
      assert LinkedAt(used, next, prev, blocks, Tail(), i) && LinkedAt(used, next, prev, blocks, Tail(), i + 1);
      assert LinkedAt(used, next, prev, blocks, Tail(), if i > 0 then i - 1 else |blocks|);
      assert Abuts(blocks, i, Tail(), HEADER);
      AllOrdered(blocks, 0, Tail(), HEADER);
    }

    /** All of `Valid`, except that the hole `h`, block `i`, may have another hole behind it and is not
        entered in the free list yet when `insert` is set. */
    ghost predicate Pending(h: int, insert: bool, i: int)
      reads `used, `next, `prev, `nextFree, `prevFree, `availableSize, `maxUsedSize, `blocks, `ring, `shield
    {
      && LinkedHeap() && Guard() && RingLinked(nextFree, prevFree, ring)
      && IndexOf(h, i) && !blocks[i].used
      && (forall j :: 0 <= j < |blocks| - 1 && j != i ==> !BothFree(blocks, j))
      && (forall a :: a in ring <==> IsFree(blocks, a) && (insert ==> a != h))
      && availableSize == FreeBytes(blocks) && maxUsedSize >= arena.Length - availableSize
    }

    /** The last step of a release: merge the hole `h` with a hole behind it, which leaves the free
        list, and enter `h` itself unless a left merge has made it part of an entry. */
    method MergeRight(h: int, insert: bool, ghost i: int)
      requires Pending(h, insert, i)
      modifies `next, `prev, `nextFree, `prevFree, `availableSize, `blocks, `ring, arena
      ensures Valid() && Live(blocks) == old(Live(blocks))
      ensures forall b :: b in shield ==> Payload(b) == old(Payload(b))
    {
      assert RingSafe();
      Neighbours(h, i);
      assert IsFree(blocks, h);
      if !used[next[h]] {
        MergeHole(h, next[h], i);
      } else {
        assert forall j :: 0 <= j < |blocks| - 1 ==> !BothFree(blocks, j);
      }
      if insert {
        LinkFree(h);
      }
    }

    method MergeHole(h: int, n: int, ghost i: int)
      requires LinkedHeap() && Guard() && RingLinked(nextFree, prevFree, ring) && RingSafe()
      requires IndexOf(h, i) && i + 1 < |blocks| && blocks[i + 1].addr == n != h && BothFree(blocks, i)
      requires forall j :: 0 <= j < |blocks| - 1 && j != i ==> !BothFree(blocks, j)
      requires n in ring
      modifies `next, `prev, `nextFree, `prevFree, `availableSize, `blocks, `ring, arena
      ensures LinkedHeap() && Guard() && RingLinked(nextFree, prevFree, ring) && RingSafe()
      ensures NoTwoFree(blocks) && Live(blocks) == old(Live(blocks))
      ensures FreeBytes(blocks) - availableSize == old(FreeBytes(blocks) - availableSize) &&
              availableSize == old(availableSize) + HEADER
      ensures forall a :: IsFree(blocks, a) <==> old(IsFree(blocks, a)) && a != n
      ensures forall a :: a in ring <==> a in old(ring) && a != n
      ensures forall b :: b in shield ==> Payload(b) == old(Payload(b))
    {
      AbsorbHole(h, i);
      availableSize := availableSize + HEADER;
      ghost var k :| 0 <= k < |ring| && ring[k] == n;
      UnlinkFree(n, k);
    }

    /** Mark block `i` unused and count its payload as available. */
    method Release(h: int, ghost i: int)
      requires LinkedHeap() && Guard() && IndexOf(h, i) && blocks[i].used
      modifies `used, `availableSize, `blocks, arena
      ensures LinkedHeap() && Guard() && IndexOf(h, i) && !blocks[i].used
      ensures |blocks| == old(|blocks|) && forall j :: 0 <= j < |blocks| && j != i ==> blocks[j] == old(blocks)[j]
      ensures Live(blocks) == old(Live(blocks)) - {old(blocks)[i]}
      ensures FreeBytes(blocks) - availableSize == old(FreeBytes(blocks) - availableSize) &&
              availableSize >= old(availableSize)
      ensures forall a :: IsFree(blocks, a) <==> old(IsFree(blocks, a)) || a == h
      ensures forall j :: 0 <= j < |blocks| - 1 && j != i && j != i - 1 && BothFree(blocks, j) ==>
              BothFree(old(blocks), j)
      ensures forall b :: b in shield ==> Payload(b) == old(Payload(b))
    {
      ReleaseFacts(blocks, Tail(), HEADER, i);
      Neighbours(h, i);
      assert blocks[i].size >= 0 by { assert Abuts(blocks, i, Tail(), HEADER); }
      MarkUsed(h, false, i);
      availableSize := availableSize + (next[h] - h - HEADER);
    }

    ghost predicate IsLive(p: int)
      reads `blocks
    {
      exists b :: b in Live(blocks) && b.addr + HEADER == p
    }

    /** Merge the released block into the hole before it, if there is one. */
    method MergeLeft(h: int, ghost i: int) returns (l: int, insert: bool, ghost k: int)
      requires LinkedHeap() && Guard() && RingLinked(nextFree, prevFree, ring)
      requires IndexOf(h, i) && !blocks[i].used
      requires forall j :: 0 <= j < |blocks| - 1 && j != i && j != i - 1 ==> !BothFree(blocks, j)
      requires forall a :: a in ring <==> IsFree(blocks, a) && a != h
      requires availableSize == FreeBytes(blocks) && maxUsedSize >= arena.Length - availableSize
      modifies `next, `prev, `availableSize, `blocks, arena
      ensures Pending(l, insert, k) && Live(blocks) == old(Live(blocks))
      ensures forall b :: b in shield ==> Payload(b) == old(Payload(b))
    {
      Neighbours(h, i);
      l, insert, k := h, true, i;
      if !used[prev[h]] {
        l, insert, k := prev[h], false, i - 1;
        assert BothFree(blocks, i - 1);
        availableSize := availableSize + HEADER;
        AbsorbHole(l, i - 1);
      }
    }

    method FreeAt(h: int, ghost i: int)
      requires Valid() && IndexOf(h, i) && blocks[i].used
      requires shield == Live(blocks) - {blocks[i]} && h !in ring
      modifies this, arena
      ensures Valid() && Live(blocks) == old(Live(blocks)) - {old(blocks)[i]}
      ensures maxUsedSize == old(maxUsedSize)
      ensures forall b :: b in Live(blocks) ==> InPool(b) && Payload(b) == old(Payload(b))
    {
      GuardSub();
      Release(h, i);
      var l, insert;
      ghost var k;
      l, insert, k := MergeLeft(h, i);
      MergeRight(l, insert, k);
    }

    /** Give a block back.  What is left is exactly the other live blocks, their contents untouched;
        `Valid` makes the rest of the layout the one with all holes merged. */
    method Free(p: int)
      requires Valid() && (p == NIL || IsLive(p))
      modifies this, arena
      ensures Valid()
      ensures p == NIL ==> blocks == old(blocks) && ring == old(ring)
      ensures Live(blocks) == set b | b in old(Live(blocks)) && b.addr + HEADER != p
      ensures maxUsedSize == old(maxUsedSize)
      ensures forall b :: b in Live(blocks) ==> InPool(b) && Payload(b) == old(Payload(b))
    {
      if p == NIL {
        AllOrdered(blocks, 0, Tail(), HEADER);
        return;
      }
      ghost var i := LiveIndex(p);
      shield := Live(blocks) - {blocks[i]};
      FreeAt(p - HEADER, i);
    }

    lemma LiveIndex(p: int) returns (i: int)
      requires Valid() && IsLive(p)
      ensures IndexOf(p - HEADER, i) && blocks[i].used && blocks[i] in Live(blocks) && p - HEADER !in ring
      ensures Live(blocks) - {blocks[i]} == set b | b in Live(blocks) && b.addr + HEADER != p
    {
      i :| 0 <= i < |blocks| && blocks[i].addr + HEADER == p && blocks[i].used;
      AllOrdered(blocks, 0, Tail(), HEADER);
    }

    lemma LiveSafe(i: int, keep: Block)
      requires LinkedHeap() && 0 <= i < |blocks| && blocks[i].used
      requires keep.addr == blocks[i].addr && 0 <= keep.size <= blocks[i].size
      requires shield == Live(blocks) - {blocks[i]} + {keep}
      ensures Guard()
      ensures forall a :: keep.addr + HEADER + keep.size <= a <= blocks[i].addr + blocks[i].size ==> Safe(a)
      ensures i + 1 < |blocks| && !blocks[i + 1].used ==>
                forall a :: keep.addr + HEADER + keep.size <= a <= blocks[i + 1].addr + blocks[i + 1].size ==> Safe(a)
    {
      hide PhysLinked, Aligned;
      AllOrdered(blocks, 0, Tail(), HEADER);
    }

    /** Grow block `h` into the hole behind it; what is left of the hole becomes a new entry. */
    method GrowAt(h: int, n: int, ghost i: int)
      requires Valid() && IndexOf(h, i) && blocks[i].used && i + 1 < |blocks| && !blocks[i + 1].used
      requires shield == Live(blocks)
      requires blocks[i].size < n && n + MIN_ALLOC < blocks[i].size + blocks[i + 1].size && n % ALIGN_SIZE == 0
      modifies this, arena
      ensures Valid() && shield == old(shield)
      ensures Live(blocks) == old(Live(blocks)) - {old(blocks)[i]} + {Block(h, n, true)}
      ensures maxUsedSize == Max(old(maxUsedSize), arena.Length - availableSize)
      ensures forall b :: b in shield ==> InPool(b) && Payload(b) == old(Payload(b))
    {
      hide PhysLinked, RingLinked, NoTwoFree, Live, FreeBytes, IsFree, RingSafe, Safe;
      GrowReady(h, n, i);
      var next0 := next[h];
      ghost var k :| 0 <= k < |ring| && ring[k] == next0;
      availableSize := availableSize - (n - (next[h] - h - HEADER));
      maxUsedSize := Max(maxUsedSize, arena.Length - availableSize);
      GrowLinks(h, h + HEADER + n, i, k);
    }

    method GrowLinks(h: int, a: int, ghost i: int, ghost k: int)
      requires LinkedHeap() && Guard() && RingLinked(nextFree, prevFree, ring) && RingSafe() && Safe(a)
      requires IndexOf(h, i) && i + 1 < |blocks| && NoTwoFree(blocks) && blocks[i].used && !blocks[i + 1].used
      requires h + HEADER <= a && a + HEADER <= blocks[i + 1].addr + HEADER + blocks[i + 1].size && a % ALIGN_SIZE == 0
      requires forall r :: r in ring <==> IsFree(blocks, r)
      requires 0 <= k < |ring| && ring[k] == blocks[i + 1].addr && a !in ring && h in next && next[h] == ring[k]
      modifies `used, `next, `prev, `nextFree, `prevFree, `blocks, `ring, arena
      ensures LinkedHeap() && RingLinked(nextFree, prevFree, ring) && NoTwoFree(blocks)
      ensures Live(blocks) == old(Live(blocks)) - {old(blocks)[i]} + {Block(h, a - h - HEADER, true)}
      ensures FreeBytes(blocks) == old(FreeBytes(blocks)) - (a - h - HEADER - old(blocks)[i].size)
      ensures forall x :: x in ring <==> IsFree(blocks, x)
      ensures forall b :: b in shield ==> Payload(b) == old(Payload(b))
    {
      UnlinkFree(next[h], k);
      ShiftBoundary(h, a, i);
      LinkFree(a);
    }

    lemma GrowReady(h: int, n: int, i: int)
      requires Valid() && IndexOf(h, i) && blocks[i].used && i + 1 < |blocks| && !blocks[i + 1].used
      requires shield == Live(blocks)
      requires blocks[i].size < n && n + MIN_ALLOC < blocks[i].size + blocks[i + 1].size
      ensures Guard() && RingSafe() && Safe(h + HEADER + n)
      ensures h in next && next[h] == blocks[i + 1].addr == h + HEADER + blocks[i].size && blocks[i].size >= 0
      ensures next[h] in ring && h + HEADER + n !in ring
    {
      assert shield == Live(blocks) - {blocks[i]} + {blocks[i]} && Abuts(blocks, i, Tail(), HEADER);
      LiveSafe(i, blocks[i]);
      Neighbours(h, i);
      assert IsFree(blocks, next[h]);
      AllOrdered(blocks, 0, Tail(), HEADER);
    }

    method ShiftBoundary(h: int, a: int, ghost i: int)
      requires LinkedHeap() && Guard() && RingLinked(nextFree, prevFree, ring) && IndexOf(h, i) && i + 1 < |blocks|
      requires h + HEADER <= a && a + HEADER <= blocks[i + 1].addr + HEADER + blocks[i + 1].size &&
               a % ALIGN_SIZE == 0 && Safe(a)
      requires forall r :: r in ring ==> IsFree(blocks, r) && r != blocks[i + 1].addr
      requires NoTwoFree(blocks) && blocks[i].used && !blocks[i + 1].used
      modifies `used, `next, `prev, `nextFree, `prevFree, `blocks, arena
      ensures LinkedHeap() && Guard() && RingLinked(nextFree, prevFree, ring)
      ensures NoTwoFree(blocks)
      ensures Live(blocks) == old(Live(blocks)) - {old(blocks)[i]} + {Block(h, a - h - HEADER, true)}
      ensures FreeBytes(blocks) == old(FreeBytes(blocks)) - (a - h - HEADER - old(blocks)[i].size)
      ensures forall x :: IsFree(blocks, x) <==> (old(IsFree(blocks, x)) && x != old(blocks)[i + 1].addr) || x == a
      ensures forall b :: b in shield ==> Payload(b) == old(Payload(b))
    {
      hide PhysLinked, Tiles, Aligned, RingLinked;
      ShiftFacts(blocks, Tail(), HEADER, i, a);
      RingKept(blocks, i);
      RebuildNext(h, a, i);
    }

    /** Remove the header behind block `h` and build a new one at `a`. */
    method RebuildNext(h: int, a: int, ghost i: int)
      requires LinkedHeap() && Guard() && RingLinked(nextFree, prevFree, ring) && IndexOf(h, i) && i + 1 < |blocks|
      requires h + HEADER <= a && a + HEADER <= blocks[i + 1].addr + HEADER + blocks[i + 1].size &&
               a % ALIGN_SIZE == 0 && Safe(a)
      requires forall r :: r in ring ==> exists b :: b in Joined(blocks, HEADER, i) && b.addr == r
      modifies `used, `next, `prev, `nextFree, `prevFree, `blocks, arena
      ensures LinkedHeap() && Guard() && RingLinked(nextFree, prevFree, ring)
      ensures blocks == CutAt(Joined(old(blocks), HEADER, i), Tail(), HEADER, i, a)
      ensures forall b :: b in shield ==> Payload(b) == old(Payload(b))
    {
      assert Abuts(blocks, i + 1, Tail(), HEADER);
      AbsorbNext(h, i);
      SplitBlock(h, a, i);
    }

    lemma RingKept(bs: seq<Block>, i: int)
      requires 0 <= i < |bs| - 1 && forall r :: r in ring ==> IsFree(bs, r) && r != bs[i + 1].addr
      ensures forall r :: r in ring ==> exists b :: b in Joined(bs, HEADER, i) && b.addr == r
    {
      var js := Joined(bs, HEADER, i);
      forall r | r in ring
        ensures exists b :: b in js && b.addr == r
      {
        var k :| 0 <= k < |bs| && bs[k].addr == r && k != i + 1;
        assert js[if k <= i then k else k - 1].addr == r;
      }
    }

    /** Cut the end off block `h`; the cut-off part merges with a hole behind it. */
    method ShrinkAt(h: int, n: int, ghost i: int)
      requires Valid() && IndexOf(h, i) && blocks[i].used && n >= 0 && n % ALIGN_SIZE == 0
      requires n + HEADER + MIN_ALLOC < blocks[i].size
      requires shield == Live(blocks) - {blocks[i]} + {Block(h, n, true)}
      modifies this, arena
      ensures Valid() && shield == old(shield)
      ensures Live(blocks) == old(Live(blocks)) - {old(blocks)[i]} + {Block(h, n, true)}
      ensures maxUsedSize == old(maxUsedSize)
      ensures forall b :: b in shield ==> InPool(b) && Payload(b) == old(Payload(b))
    {
      ShrinkReady(h, n, i);
      CutOff(h, h + n + HEADER, i);
      MergeCut(h + n + HEADER, i + 1);
    }

    lemma ShrinkReady(h: int, n: int, i: int)
      requires Valid() && IndexOf(h, i) && blocks[i].used && 0 <= n < blocks[i].size - HEADER
      requires shield == Live(blocks) - {blocks[i]} + {Block(h, n, true)}
      ensures Guard() && RingSafe() && Safe(h + n + HEADER)
    {
      LiveSafe(i, Block(h, n, true));
    }

    method CutOff(h: int, a: int, ghost i: int)
      requires Valid() && Guard() && Safe(a) && IndexOf(h, i) && blocks[i].used && h + HEADER <= a &&
               a + MIN_ALLOC < h + blocks[i].size && a % ALIGN_SIZE == 0
      modifies `used, `next, `prev, `nextFree, `prevFree, `blocks, arena
      ensures LinkedHeap() && Guard() && RingLinked(nextFree, prevFree, ring) && a !in ring
      ensures IndexOf(a, i + 1) && blocks[i + 1] == Block(a, h + old(blocks)[i].size - a, false)
      ensures Live(blocks) == old(Live(blocks)) - {old(blocks)[i]} + {Block(h, a - h - HEADER, true)}
      ensures FreeBytes(blocks) == old(FreeBytes(blocks)) + blocks[i + 1].size
      ensures forall x :: IsFree(blocks, x) <==> old(IsFree(blocks, x)) || x == a
      ensures forall j :: 0 <= j < |blocks| - 1 && j != i + 1 ==> !BothFree(blocks, j)
      ensures forall b :: b in shield ==> Payload(b) == old(Payload(b))
    {
      hide PhysLinked, RingLinked, CutAt, Safe;
      assert a !in ring && Abuts(blocks, i, Tail(), HEADER) by { AllOrdered(blocks, 0, Tail(), HEADER); }
      CutFacts(blocks, Tail(), HEADER, i, a);
      SplitBlock(h, a, i);
    }

    method MergeCut(a: int, ghost i: int)
      requires LinkedHeap() && Guard() && RingLinked(nextFree, prevFree, ring) && RingSafe() && a !in ring
      requires IndexOf(a, i) && !blocks[i].used && Safe(a)
      requires FreeBytes(blocks) == availableSize + blocks[i].size && blocks[i].size >= 0
      requires forall x :: IsFree(blocks, x) <==> x in ring || x == a
      requires forall j :: 0 <= j < |blocks| - 1 && j != i ==> !BothFree(blocks, j)
      requires maxUsedSize >= arena.Length - availableSize
      modifies `next, `prev, `nextFree, `prevFree, `availableSize, `blocks, `ring, arena
      ensures Valid() && Live(blocks) == old(Live(blocks))
      ensures forall b :: b in shield ==> Payload(b) == old(Payload(b))
    {
      Neighbours(a, i);
      if !used[next[a]] {
        MergeCutHole(a, next[a], i);
      } else {
        assert forall j :: 0 <= j < |blocks| - 1 ==> !BothFree(blocks, j);
      }
      Neighbours(a, i);
      LinkFree(a);
      availableSize := availableSize + (next[a] - a - HEADER);
    }

    method MergeCutHole(a: int, n: int, ghost i: int)
      requires LinkedHeap() && Guard() && RingLinked(nextFree, prevFree, ring) && RingSafe() && n in ring
      requires IndexOf(a, i) && i + 1 < |blocks| && blocks[i + 1].addr == n != a && BothFree(blocks, i)
      requires forall j :: 0 <= j < |blocks| - 1 && j != i ==> !BothFree(blocks, j)
      modifies `next, `prev, `nextFree, `prevFree, `availableSize, `blocks, `ring, arena
      ensures LinkedHeap() && Guard() && RingLinked(nextFree, prevFree, ring) && RingSafe()
      ensures NoTwoFree(blocks) && Live(blocks) == old(Live(blocks)) && IndexOf(a, i) && !blocks[i].used
      ensures FreeBytes(blocks) - availableSize - blocks[i].size ==
              old(FreeBytes(blocks) - availableSize - blocks[i].size)
      ensures blocks[i].size + availableSize > old(blocks[i].size + availableSize)
      ensures forall x :: IsFree(blocks, x) <==> old(IsFree(blocks, x)) && x != n
      ensures forall x :: x in ring <==> x in old(ring) && x != n
      ensures forall b :: b in shield ==> Payload(b) == old(Payload(b))
    {
      assert blocks[i + 1] in blocks;
      assert LinkedAt(used, next, prev, blocks, Tail(), i + 1) && Abuts(blocks, i + 1, Tail(), HEADER);
      availableSize := availableSize - (next[n] - n - HEADER);
      AbsorbHole(a, i);
      ghost var k :| 0 <= k < |ring| && ring[k] == n;
      UnlinkFree(n, k);
    }

    /** The hole behind block `i` has room to grow the block to `n` bytes and keep a minimal hole. */
    ghost predicate GrowRoom(i: int, n: int)
      requires 0 <= i < |blocks|
      reads `blocks
    {
      i + 1 < |blocks| && !blocks[i + 1].used && blocks[i + 1].size + blocks[i].size > n + MIN_ALLOC
    }

    lemma GrowTest(h: int, i: int)
      requires LinkedHeap() && IndexOf(h, i)
      ensures h in next && next[h] - h - HEADER == blocks[i].size && InPool(blocks[i])
      ensures next[h] in used && next[h] in next
      ensures !used[next[h]] <==> i + 1 < |blocks| && !blocks[i + 1].used
      ensures i + 1 < |blocks| ==>
              next[h] == blocks[i + 1].addr && next[next[h]] - next[h] - HEADER == blocks[i + 1].size
    {
      assert LinkedAt(used, next, prev, blocks, Tail(), i) && LinkedAt(used, next, prev, blocks, Tail(), i + 1);
      assert Abuts(blocks, i, Tail(), HEADER);
      assert i + 1 < |blocks| ==> Abuts(blocks, i + 1, Tail(), HEADER);
      AllOrdered(blocks, 0, Tail(), HEADER);
    }

    /** How a successful resize of the live block `b` to the live block `c` changes the heap: nothing
        else, and the common prefix of the contents is kept. */
    twostate predicate Resized(b: Block, c: Block, n: nat)
      requires InPool(b) && InPool(c)
      reads this, arena
    {
      && b in old(Live(blocks)) && c.used && c.size >= n
      && Live(blocks) == old(Live(blocks)) - {b} + {c}
      && Payload(c)[..if b.size < n then b.size else n] == old(Payload(b))[..if b.size < n then b.size else n]
      && forall o :: o in old(Live(blocks)) && o != b ==> InPool(o) && Payload(o) == old(Payload(o))
    }

    /** Outcome `r` of resizing the block at `p`, which is block `i`: in place when it has the bytes or
        the hole behind it has room, else as an allocation decides. */
    twostate predicate ResizeOutcome(p: int, r: int, n: nat, i: int)
      reads this, arena
    {
      && 0 <= i < |old(blocks)| && old(blocks)[i].addr + HEADER == p && InPool(old(blocks)[i])
      && (r != NIL ==> exists c :: InPool(c) && c.addr + HEADER == r && Resized(old(blocks)[i], c, n))
      && (r == p <==> InPlace(old(blocks), i, n))
      && (r == p ==> Block(p - HEADER, KeptSize(old(blocks)[i].size, n), true) in Live(blocks))
      && (r == NIL <==> !InPlace(old(blocks), i, n) &&
                        (n >= old(availableSize) || forall a :: a in old(ring) ==> !Fits(old(blocks), a, n)))
    }

    method Realloc(p: int, newSize: nat) returns (r: int)
      requires Valid() && (p == NIL || IsLive(p))
      modifies this, arena
      ensures Valid()
      ensures newSize == 0 ==> r == NIL && Live(blocks) == set b | b in old(Live(blocks)) && b.addr + HEADER != p
      ensures newSize > 0 && r == NIL ==>
              blocks == old(blocks) && ring == old(ring) && availableSize == old(availableSize)
      ensures newSize > 0 && r == NIL ==> forall b :: b in Live(blocks) ==> InPool(b) && Payload(b) == old(Payload(b))
      ensures forall b :: b in old(Live(blocks)) && b.addr + HEADER != p ==> InPool(b) && Payload(b) == old(Payload(b))
      ensures newSize > 0 && p == NIL ==>
                (r == NIL <==> Request(newSize) >= old(availableSize) || forall a :: a in old(ring) ==>
                  !Fits(old(blocks), a, Request(newSize)))
      ensures newSize > 0 && p == NIL && r != NIL ==>
              exists c :: IsGrant(old(Live(blocks)), Live(blocks), c, r, Request(newSize), HEADER)
      ensures newSize > 0 && p != NIL ==> exists i :: ResizeOutcome(p, r, Request(newSize), i)
    {
      if newSize == 0 {
        Free(p);
        return NIL;
      }
      var n := Request(newSize);
      RequestIdempotent(newSize);
      if p == NIL {
        r := Alloc(n);
        return;
      }
      ghost var i := LiveIndex(p);
      GrowTest(p - HEADER, i);
      r := Resize(p, n, i);
      assert ResizeOutcome(p, r, n, i);
    }

    method Resize(p: int, n: nat, ghost i: int) returns (r: int)
      requires Valid() && IndexOf(p - HEADER, i) && blocks[i].used && InPool(blocks[i]) && Request(n) == n
      modifies this, arena
      ensures Valid() && ResizeOutcome(p, r, n, i)
      ensures r == NIL ==> blocks == old(blocks) && ring == old(ring) && availableSize == old(availableSize)
      ensures r == NIL ==> forall b :: b in Live(blocks) ==> InPool(b) && Payload(b) == old(Payload(b))
    {
      var h := p - HEADER;
      GrowTest(h, i);
      var oldSize := next[h] - h - HEADER;
      if n > oldSize {
        if !used[next[h]] && (next[next[h]] - next[h] - HEADER) + oldSize > n + MIN_ALLOC {
          Grow(h, n, i);
          return p;
        }
        r := Move(p, n, i);
      } else if n + HEADER + MIN_ALLOC >= oldSize {
        AllOrdered(blocks, 0, Tail(), HEADER);
        assert Live(blocks) == Live(blocks) - {blocks[i]} + {blocks[i]};
        r := p;
      } else {
        Shrink(h, n, i);
        r := p;
      }
    }

    method Grow(h: int, n: nat, ghost i: int)
      requires Valid() && IndexOf(h, i) && blocks[i].used && n % ALIGN_SIZE == 0 && InPool(blocks[i])
      requires n > blocks[i].size && GrowRoom(i, n)
      modifies this, arena
      ensures Valid() && InPool(Block(h, n, true)) && Resized(old(blocks)[i], Block(h, n, true), n)
    {
      GrowTest(h, i);
      GrowTest(next[h], i + 1);
      ghost var b, c := blocks[i], Block(h, n, true);
      shield := Live(blocks);
      GrowAt(h, n, i);
      BytesPrefix(arena, c, HEADER, b.size);
    }

    method Shrink(h: int, n: nat, ghost i: int)
      requires Valid() && IndexOf(h, i) && blocks[i].used && n % ALIGN_SIZE == 0 && InPool(blocks[i])
      requires n + HEADER + MIN_ALLOC < blocks[i].size
      modifies this, arena
      ensures Valid() && InPool(Block(h, n, true)) && Resized(old(blocks)[i], Block(h, n, true), n)
    {
      ghost var b, c := blocks[i], Block(h, n, true);
      shield := Live(blocks) - {b} + {c};
      BytesPrefix(arena, b, HEADER, n);
      BytesPrefix(arena, c, HEADER, n);
      ShrinkAt(h, n, i);
      assert Payload(c)[..n] == Payload(c);
    }

    /** Live blocks lie in the pool, do not overlap, and are as long as their links say. */
    lemma LiveApart(b: Block, c: Block)
      requires LinkedHeap() && b in Live(blocks) && c in Live(blocks) && b != c
      ensures InPool(b) && InPool(c)
      ensures b.addr + HEADER + b.size <= c.addr || c.addr + HEADER + c.size <= b.addr
      ensures b.addr in next && next[b.addr] == b.addr + HEADER + b.size
    {
      AllOrdered(blocks, 0, Tail(), HEADER);
      var i :| 0 <= i < |blocks| && blocks[i] == b;
      assert LinkedAt(used, next, prev, blocks, Tail(), i) && Abuts(blocks, i, Tail(), HEADER);
    }

    lemma OthersApart(b: Block, c: Block)
      requires LinkedHeap() && b in Live(blocks) && c in Live(blocks)
      ensures forall o :: o in Live(blocks) && o != b && o != c ==>
                InPool(o) && (o.addr + HEADER + o.size <= c.addr || c.addr + HEADER + c.size <= o.addr) &&
                  o.addr != b.addr
    {
      AllOrdered(blocks, 0, Tail(), HEADER);
    }

    /** Resize by moving. */
    method Move(p: int, n: nat, ghost i: int) returns (r: int)
      requires Valid() && IndexOf(p - HEADER, i) && blocks[i].used && InPool(blocks[i])
      requires blocks[i].size < n && Request(n) == n
      modifies this, arena
      ensures Valid() && r != p
      ensures r == NIL <==> n >= old(availableSize) || forall a :: a in old(ring) ==> !Fits(old(blocks), a, n)
      ensures r == NIL ==> blocks == old(blocks) && ring == old(ring) && availableSize == old(availableSize)
      ensures r == NIL ==> forall b :: b in Live(blocks) ==> InPool(b) && Payload(b) == old(Payload(b))
      ensures r != NIL ==> exists c :: InPool(c) && c.addr + HEADER == r && Resized(old(blocks)[i], c, n)
    {
      ghost var b, live := blocks[i], Live(blocks);
      assert b in live;
      r := Alloc(n);
      if r != NIL {
        ghost var c :| IsGrant(live, Live(blocks), c, r, n, HEADER);
        assert IsGrant(live, Live(blocks), c, r, n, HEADER);
        MoveInto(p, r, b, c, live);
        assert Resized(b, c, n);
      }
    }

    /** Copy the contents of `b` into the new block `c` and release `b`. */
    method MoveInto(p: int, r: int, ghost b: Block, ghost c: Block, ghost live: set<Block>)
      requires Valid() && b in live && b.addr + HEADER == p && b.size <= c.size
      requires IsGrant(live, Live(blocks), c, r, c.size, HEADER)
      modifies this, arena
      ensures Valid() && Live(blocks) == live - {b} + {c} && r != p
      ensures InPool(b) && InPool(c) && Payload(c)[..b.size] == old(Payload(b))
      ensures forall o :: o in live && o != b ==> InPool(o) && Payload(o) == old(Payload(o))
    {
      assert b in Live(blocks) && c in Live(blocks);
      LiveApart(b, c);
      CopyPayload(p, r, b, c);
      Free(p);
    }

    method CopyPayload(p: int, r: int, ghost b: Block, ghost c: Block)
      requires b.addr + HEADER == p && c.addr + HEADER == r && LinkedHeap() && b in Live(blocks) &&
               c in Live(blocks) && b != c && b.size <= c.size
      requires b.addr in next
      modifies arena
      ensures InPool(b) && InPool(c) && Payload(c)[..b.size] == old(Payload(b))
      ensures forall o :: o in Live(blocks) && o != c ==> InPool(o) && Payload(o) == old(Payload(o))
      ensures forall o :: o in Live(blocks) && o != b ==> o.addr != b.addr
    {
      hide LinkedHeap, Live;
      LiveApart(b, c);
      OthersApart(b, c);
      CopyBytes(arena, r, p, next[p - HEADER] - p, HEADER, Live(blocks) - {c});
      BytesPrefix(arena, c, HEADER, b.size);
    }

    lemma GuardSub()
      requires LinkedHeap() && shield <= Live(blocks)
      ensures Guard()
    {
      AllOrdered(blocks, 0, Tail(), HEADER);
    }
  }

  /** The first hole of the free list with room for `n` bytes is carved and its front is granted. */
  ghost predicate FirstFitGrant(bs: seq<Block>, ring: seq<int>, bs': seq<Block>, n: int, p: int, i: int, k: int) {
    && FirstFit(bs, ring, n, i, k)
    && TakesFront(bs, bs', i, n, HEADER, MIN_ALLOC) && i < |bs'|
    && IsGrant(Live(bs), Live(bs'), bs'[i], p, n, HEADER)
  }

  /** Block `i` has the bytes, or there is a hole behind it with which it has more than a minimal block more. */
  ghost predicate InPlace(bs: seq<Block>, i: int, n: int)
    requires 0 <= i < |bs|
  {
    n <= bs[i].size || (i + 1 < |bs| && !bs[i + 1].used && bs[i].size + bs[i + 1].size > n + MIN_ALLOC)
  }

  /** The size of a block resized in place: as asked, unless what a smaller block would leave over is too
      little for another one. */
  function KeptSize(size: int, n: int): int {
    if n <= size <= n + HEADER + MIN_ALLOC then size else n
  }

  lemma RequestIdempotent(n: nat)
    ensures Request(Request(n)) == Request(n)
  {
  }

  /** `ring[k]`, which is block `i`, is the first entry of the free list with room for `n` bytes. */
  ghost predicate FirstFit(bs: seq<Block>, ring: seq<int>, n: int, i: int, k: int) {
    && 0 <= i < |bs| && 0 <= k < |ring| && ring[k] == bs[i].addr
    && !bs[i].used && bs[i].size >= n
    && forall j :: 0 <= j < k ==> !Fits(bs, ring[j], n)
  }

  function Max(a: int, b: int): (r: int)
    ensures r >= a && r >= b && (r == a || r == b)
  {
    if a >= b then a else b
  }

  /** Once everything is released, in whatever order, the pool is one hole again. */
  lemma AllFreed(bs: seq<Block>, tail: int)
    requires Tiles(bs, 0, tail, HEADER) && NoTwoFree(bs) && Live(bs) == {} && tail >= HEADER
    ensures bs == [Block(0, tail - HEADER, false)]
  {
    var whole := [Block(0, tail - HEADER, false)];
    assert Abuts(whole, 0, tail, HEADER);
    LayoutCanonical(bs, whole, 0, tail, HEADER);
  }
}
