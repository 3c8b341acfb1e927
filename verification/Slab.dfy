/** The slab heap: zones of equal chunks over the page allocator.  Pages are numbered from the start of the
    heap, and addresses are bytes from there. */
module Slabs {
  import opened Chains
  import opened PageRuns
  import opened PageAllocators
  import opened SlabZones

  const RELEASE_THRESH := 2       // ZONE_RELEASE_THRESH

  /** An entry of the memusage table. */
  datatype Usage = NotUsed | SmallPage(offset: nat) | LargePage(n: nat)

  /** Whom a page belongs to. */
  datatype Owner = Unowned | System | ZoneAt(z: nat) | BlockAt(s: nat)

  /** The pages of a new heap: those below `reserved` hold the usage table. */
  ghost predicate ZonesOk(zones: map<nat, Zone>, zoneSize: nat) {
    forall z :: z in zones ==> ZoneOk(zones[z]) && Laid(zones[z], zoneSize)
  }

  /** Size, capacity and index of a zone fit each other. */
  ghost predicate Laid(z: Zone, zoneSize: nat) {
    && 0 < z.size && FirstChunk(z.size) <= zoneSize && z.nmax == Capacity(zoneSize, z.size)
    && FirstChunk(z.size) + z.nmax * z.size <= zoneSize
    && IsClass(z.size) && z.index == ClassOf(z.size)
  }

  /** A zone is linked, at its index, exactly while it has a free chunk. */
  ghost predicate ArrayOk(zones: map<nat, Zone>, zoneArray: seq<seq<nat>>) {
    && |zoneArray| == NZONES
    && (forall zi :: 0 <= zi < NZONES ==> ListOk(zones, zi, zoneArray[zi]))
    && forall z :: z in zones && zones[z].nfree > 0 ==> zones[z].index < NZONES && z in zoneArray[zones[z].index]
  }

  ghost predicate ListOk(zones: map<nat, Zone>, zi: nat, list: seq<nat>) {
    Distinct(list) && forall z :: z in list ==> z in zones && zones[z].index == zi && zones[z].nfree > 0
  }

  /** The zones, active or free, and the large blocks own the pages the table of owners gives them. */
  ghost predicate OwnersOk(owner: map<nat, Owner>, zoneSet: set<nat>, large: map<nat, nat>, zonePages: nat) {
    && (forall z, p: nat :: z in zoneSet && InRange(p, z, zonePages) ==> p in owner && owner[p] == ZoneAt(z))
    && (forall s, p: nat :: s in large && InRange(p, s, large[s]) ==> p in owner && owner[p] == BlockAt(s))
    && (forall p :: p in owner && owner[p].ZoneAt? ==> owner[p].z in zoneSet && InRange(p, owner[p].z, zonePages))
    && (forall p :: p in owner && owner[p].BlockAt? ==>
      owner[p].s in large && InRange(p, owner[p].s, large[owner[p].s]))
    && forall s :: s in large ==> large[s] > 0
  }

  /** The usage table leads from a page of a zone to the zone, and tells the length of a large block. */
  ghost predicate UsageOk(usage: map<nat, Usage>, zoneSet: set<nat>, large: map<nat, nat>, zonePages: nat) {
    && (forall z, p: nat :: z in zoneSet && InRange(p, z, zonePages) ==> p in usage && usage[p] == SmallPage(p - z))
    && forall s :: s in large ==> s in usage && usage[s] == LargePage(large[s])
  }

  ghost predicate Unclaimed(owner: map<nat, Owner>, a: nat, n: nat) {
    forall p: nat :: InRange(p, a, n) ==> p in owner && owner[p] == Unowned
  }

  ghost function Assigned(owner: map<nat, Owner>, a: nat, n: nat, who: Owner): map<nat, Owner> {
    map p | p in owner :: if InRange(p, a, n) then who else owner[p]
  }

  ghost predicate Marked(usage: map<nat, Usage>, usage': map<nat, Usage>, z: nat, n: nat) {
    && (forall p: nat :: InRange(p, z, n) ==> p in usage' && usage'[p] == SmallPage(p - z))
    && forall p: nat :: p in usage && !InRange(p, z, n) ==> p in usage' && usage'[p] == usage[p]
  }

  lemma ZoneOwns(owner: map<nat, Owner>, zoneSet: set<nat>, large: map<nat, nat>, zonePages: nat, z: nat)
    requires OwnersOk(owner, zoneSet, large, zonePages) && Unclaimed(owner, z, zonePages) && zonePages > 0
    ensures z !in zoneSet && OwnersOk(Assigned(owner, z, zonePages, ZoneAt(z)), zoneSet + {z}, large, zonePages)
  {
    assert InRange(z, z, zonePages);
  }

  lemma ZoneMarked(usage: map<nat, Usage>, usage': map<nat, Usage>, owner: map<nat, Owner>, zoneSet: set<nat>,
                   large: map<nat, nat>, zonePages: nat, z: nat)
    requires UsageOk(usage, zoneSet, large, zonePages) && Marked(usage, usage', z, zonePages)
    requires OwnersOk(owner, zoneSet, large, zonePages) && Unclaimed(owner, z, zonePages)
    ensures UsageOk(usage', zoneSet + {z}, large, zonePages)
  {
    forall s | s in large
      ensures !InRange(s, z, zonePages)
    {
      assert InRange(s, s, large[s]);
    }
  }

  lemma BlockOwns(owner: map<nat, Owner>, usage: map<nat, Usage>, zoneSet: set<nat>, large: map<nat, nat>,
                  zonePages: nat, s: nat, n: nat)
    requires OwnersOk(owner, zoneSet, large, zonePages) && UsageOk(usage, zoneSet, large, zonePages) &&
             Unclaimed(owner, s, n) && n > 0
    ensures s !in large && OwnersOk(Assigned(owner, s, n, BlockAt(s)), zoneSet, large[s := n], zonePages)
    ensures UsageOk(usage[s := LargePage(n)], zoneSet, large[s := n], zonePages)
  {
    assert InRange(s, s, n);
    assert s in large ==> InRange(s, s, large[s]);
  }

  lemma BlockDisowns(owner: map<nat, Owner>, usage: map<nat, Usage>, zoneSet: set<nat>, large: map<nat, nat>,
                     zonePages: nat, s: nat)
    requires OwnersOk(owner, zoneSet, large, zonePages) && UsageOk(usage, zoneSet, large, zonePages) && s in large
    ensures large[s] > 0 && forall p: nat :: InRange(p, s, large[s]) ==> p in owner && owner[p] != Unowned
    ensures OwnersOk(Assigned(owner, s, large[s], Unowned), zoneSet, large - {s}, zonePages)
    ensures UsageOk(usage[s := LargePage(0)], zoneSet, large - {s}, zonePages)
  {
    assert InRange(s, s, large[s]);
  }

  ghost predicate Unmarked(usage: map<nat, Usage>, usage': map<nat, Usage>, z: nat, n: nat) {
    forall p: nat :: p in usage && !InRange(p, z, n) ==> p in usage' && usage'[p] == usage[p]
  }

  lemma ZoneDisowns(owner: map<nat, Owner>, zoneSet: set<nat>, large: map<nat, nat>, zonePages: nat, z: nat)
    requires OwnersOk(owner, zoneSet, large, zonePages) && z in zoneSet
    ensures forall p: nat :: InRange(p, z, zonePages) ==> p in owner && owner[p] != Unowned
    ensures OwnersOk(Assigned(owner, z, zonePages, Unowned), zoneSet - {z}, large, zonePages)
  {
  }

  lemma ZoneUnmarked(usage: map<nat, Usage>, usage': map<nat, Usage>, owner: map<nat, Owner>, zoneSet: set<nat>,
                     large: map<nat, nat>, zonePages: nat, z: nat)
    requires UsageOk(usage, zoneSet, large, zonePages) && Unmarked(usage, usage', z, zonePages)
    requires OwnersOk(owner, zoneSet, large, zonePages) && z in zoneSet
    ensures UsageOk(usage', zoneSet - {z}, large, zonePages)
  {
    forall s | s in large
      ensures !InRange(s, z, zonePages)
    {
      assert InRange(s, s, large[s]);
    }
    forall y, p: nat | y in zoneSet && y != z && InRange(p, y, zonePages)
      ensures !InRange(p, z, zonePages)
    {
    }
  }

  ghost function Members(xs: seq<nat>): set<nat> {
    set x | x in xs
  }

  /** Whole zones kept for later. */
  ghost predicate FreeZonesOk(active: set<nat>, zoneFree: seq<nat>) {
    Distinct(zoneFree) && |zoneFree| <= RELEASE_THRESH && forall z :: z in zoneFree ==> z !in active
  }

  /** Chunk `i` of zone `z` is handed out. */
  ghost predicate Live(zones: map<nat, Zone>, z: nat, i: nat) {
    z in zones && Used(zones[z], i)
  }

  ghost predicate LiveSameBut(zones: map<nat, Zone>, zones': map<nat, Zone>, z: nat, i: nat, now: bool) {
    forall y, j: nat :: Live(zones', y, j) <==> if y == z && j == i then now else Live(zones, y, j)
  }

  class SlabHeap {
    const pages: PageAllocator
    const zoneSize: nat
    const zonePages: nat
    const zoneLimit: nat
    var zones: map<nat, Zone>         // active zones, by first page
    var zoneArray: seq<seq<nat>>
    var zoneFree: seq<nat>
    var usage: map<nat, Usage>
    ghost var owner: map<nat, Owner>
    ghost var large: map<nat, nat>    // first page and length of the large blocks

    ghost predicate SizesOk()
    {
      && zoneSize in {32768, 65536, 131072} && zonePages == zoneSize / PAGE
      && zoneLimit == if zoneSize / 4 > LIMIT_MAX then LIMIT_MAX else zoneSize / 4
    }

    /** The pages nobody owns are the free pages of the page allocator. */
    ghost predicate PagesOk()
      reads `owner, pages
    {
      && pages.Valid() && (forall p: nat :: p in owner <==> p < pages.npages)
      && forall p :: p in owner ==> (owner[p] == Unowned <==> pages.IsFree(p))
    }

    ghost predicate Valid()
      reads this, pages
    {
      && SizesOk() && ZonesOk(zones, zoneSize) && ArrayOk(zones, zoneArray) && FreeZonesOk(zones.Keys, zoneFree)
      && OwnersOk(owner, zones.Keys + Members(zoneFree), large, zonePages)
      && UsageOk(usage, zones.Keys + Members(zoneFree), large, zonePages)
      && PagesOk()
    }

    /** The address of a chunk. */
    function ChunkAt(z: nat, size: nat, i: nat): nat
      requires size > 0
    {
      z * PAGE + FirstChunk(size) + i * size
    }

    /** rt_system_heap_init for a heap of `npages` pages. */
    constructor (npages: nat)
      requires npages > 0
      ensures Valid() && fresh(pages) && pages.npages == npages
      ensures zones == map[] && large == map[] && zoneFree == []
      ensures zoneSize < 131072 ==> zoneSize * 2 >= npages * PAGE / 1024
      ensures zoneSize > 32768 ==> zoneSize < npages * PAGE / 1024
    {
      hide ZonesOk, ArrayOk, FreeZonesOk, OwnersOk, UsageOk, Members;
      pages := new PageAllocator(npages);
      var size := PickZoneSize(npages * PAGE);
      zoneSize := size;
      zonePages := size / PAGE;
      zoneLimit := if size / 4 > LIMIT_MAX then LIMIT_MAX else size / 4;
      zones, zoneArray, zoneFree, usage := map[], seq(NZONES, i => []), [], map[];
      large := map[];
      owner := map[];
      new;
      var table := pages.AllocPages(RoundUp(npages * 4, PAGE) / PAGE);
      owner := map p: nat | p < npages :: if pages.IsFree(p) then Unowned else System;
      NothingYet(zoneArray, zoneSize, zonePages, owner);
    }

    /** Larger zones for larger heaps. */
    static method PickZoneSize(limit: nat) returns (size: nat)
      ensures size in {32768, 65536, 131072}
      ensures size < 131072 ==> size * 2 >= limit / 1024
      ensures size > 32768 ==> size < limit / 1024
    {
      size := 32768;
      while size < 131072 && size * 2 < limit / 1024
        invariant size in {32768, 65536, 131072}
        invariant size > 32768 ==> size < limit / 1024
        decreases 131072 - size
      {
        size := size * 2;
      }
    }

    /** Chunks in use, of whatever zones, never share a byte, and lie inside the pages of their zones. */
    lemma ChunksDisjoint(z: nat, i: nat, y: nat, j: nat)
      requires Valid() && Live(zones, z, i) && Live(zones, y, j) && (z != y || i != j)
      ensures zones[z].size > 0 && zones[y].size > 0
      ensures var a, b := ChunkAt(z, zones[z].size, i), ChunkAt(y, zones[y].size, j);
        a + zones[z].size <= b || b + zones[y].size <= a
    {
      hide ArrayOk, ZonesOk, FirstChunk, UsageOk, FreeZonesOk, SizesOk, OwnersOk, PagesOk;
      SizesAre();
      ChunkInside(zones, zoneSize, z, i);
      ChunkInside(zones, zoneSize, y, j);
      if z == y {
        SameZone(zones[z].size, i, j);
      } else {
        ZonesApart(owner, zones.Keys + Members(zoneFree), large, zonePages, z, y);
      }
    }

    static lemma SameZone(size: nat, i: nat, j: nat)
      requires i != j
      ensures i * size + size <= j * size || j * size + size <= i * size
    {
      MulMono(i + 1, j, size);
      MulMono(j + 1, i, size);
      assert (i + 1) * size == i * size + size && (j + 1) * size == j * size + size;
    }

    // ---- small requests ----

    /** Hand out a chunk of the first zone linked for a class. */
    method FromZone(zi: nat) returns (z: nat, i: nat)
      requires Valid() && zi < NZONES && zoneArray[zi] != []
      modifies `zones, `zoneArray
      ensures Valid() && z in old(zones) && z in zones && old(zones)[z].index == zi
      ensures !Live(old(zones), z, i) && LiveSameBut(old(zones), zones, z, i, true)
      ensures zones.Keys == old(zones).Keys && forall y :: y in zones ==> zones[y].size == old(zones)[y].size
      ensures i < zones[z].nmax
    {
      hide *;
      AllReady();
      z := zoneArray[zi][0];
      TakeReady(zones, zoneSize, zoneArray, zi);
      var (zone, c) := TakeChunk(zones[z]);
      i := c;
      if zone.nfree == 0 {
        zoneArray := zoneArray[zi := zoneArray[zi][1..]];
      }
      zones := zones[z := zone];
      MakeValid();
    }

    /** A zone for a class that has no zone with a free chunk: a kept one, or a new one from free pages. */
    method NewZone(zi: nat, size: nat) returns (z: nat, ok: bool)
      requires Valid() && zi < NZONES && zoneArray[zi] == [] && 0 < size && IsClass(size) && ClassOf(size) == zi &&
               4 * size <= zoneSize
      modifies this, pages
      ensures Valid() && large == old(large)
      ensures ok ==> z !in old(zones) && z in zones && zones[z].size == size && LiveSameBut(old(zones), zones, z, 0,
              true)
      ensures ok ==> forall y :: y in old(zones) ==> y in zones && zones[y].size == old(zones)[y].size
      ensures ok ==> zones.Keys == old(zones).Keys + {z}
      ensures if old(zoneFree) == [] then zoneFree == []
              else ok && z == old(zoneFree)[0] && zoneFree == old(zoneFree)[1..] && owner == old(owner)
      ensures !ok ==> zones == old(zones) && zoneFree == [] == old(zoneFree) && forall p: nat :: !pages.CanTake(p,
              zonePages)
    {
      hide *;
      AllReady();
      SizesAre();
      ok := true;
      if zoneFree != [] {
        z := zoneFree[0];
        KeptZone(zones.Keys, zoneFree);
        zoneFree := zoneFree[1..];
      } else {
        z, ok := PagesForZone();
        if !ok {
          MakeValid();
          return;
        }
      }
      var zone := FreshZone(zi, size);
      LinkZone(zones, zoneSize, zoneArray, zi, z, zone);
      zones := zones[z := zone];
      zoneArray := zoneArray[zi := [z] + zoneArray[zi]];
      MakeValid();
    }

    /** A large request takes whole pages. */
    method LargeBlock(n: nat) returns (r: int)
      requires Valid() && n > 0
      modifies `owner, `usage, `large, pages
      ensures Valid()
      ensures r >= 0 ==> r !in old(large) && large == old(large)[r := n]
      ensures r >= 0 ==> old(pages.CanTake(r, n)) && forall p: nat :: p < r ==> !old(pages.CanTake(p, n))
      ensures r < 0 ==> r == NULL && large == old(large) && forall p: nat :: !pages.CanTake(p, n)
    {
      hide *;
      AllReady();
      r := TakePages(n, true);
      if r >= 0 {
        BlockOwns(old(owner), usage, zones.Keys + Members(zoneFree), large, zonePages, r, n);
        usage := usage[r := LargePage(n)];
        large := large[r := n];
      }
      MakeValid();
    }

    /** rt_malloc.  A chunk is named by its zone and its index there. */
    method Malloc(size: nat) returns (r: int, ghost z: nat, ghost i: nat)
      requires Valid()
      modifies this, pages
      ensures Valid() && (r >= 0 || r == NULL)
      ensures size == 0 ==> r == NULL
      // whole pages, none of them in use before, at the lowest place there is
      ensures size >= zoneLimit && r >= 0 ==> Chunks(old(zones), zones) && exists p: nat ::
                && r == p * PAGE && p !in old(large) && large == old(large)[p := RoundUp(size, PAGE) / PAGE]
                && old(pages.CanTake(p, RoundUp(size, PAGE) / PAGE)) && forall q: nat :: q < p ==>
                  !old(pages.CanTake(q, RoundUp(size, PAGE) / PAGE))
      ensures size >= zoneLimit && r < 0 ==> forall p: nat :: !pages.CanTake(p, RoundUp(size, PAGE) / PAGE)
      // one chunk of the class of the request, not in use before
      ensures 0 < size < zoneLimit && r >= 0 ==>
                && large == old(large) && z in zones && zones[z].size == ChunkSize(size) &&
                  r == ChunkAt(z, zones[z].size, i)
                && !Live(old(zones), z, i) && LiveSameBut(old(zones), zones, z, i, true)
      ensures 0 < size < zoneLimit && r >= 0 ==>
                FromRightZone(old(zones), old(zoneFree), old(owner), ClassOf(ChunkSize(size)), z)
      ensures r < 0 ==> Chunks(old(zones), zones) && large == old(large)
      ensures 0 < size < zoneLimit && r < 0 ==>
                zoneFree == [] && (forall p: nat :: !pages.CanTake(p, zonePages)) &&
                  NoneLinked(zones, ClassOf(ChunkSize(size)))
    {
      z, i := 0, 0;
      if size == 0 {
        return NULL, 0, 0;
      }
      if size >= zoneLimit {
        var n := RoundUp(size, PAGE) / PAGE;
        r := LargeBlock(n);
        if r >= 0 {
          r := r * PAGE;
        }
        return r, 0, 0;
      }
      r, z, i := SmallBlock(size);
    }

    /** The same chunks are in use. */
    static ghost predicate Chunks(zones0: map<nat, Zone>, zones: map<nat, Zone>) {
      forall y, j: nat :: Live(zones0, y, j) <==> Live(zones, y, j)
    }

    /** No zone of the class has a free chunk. */
    static ghost predicate NoneLinked(zones: map<nat, Zone>, zi: int) {
      forall z :: z in zones && zones[z].index == zi ==> zones[z].nfree == 0
    }

    /** A chunk comes from an active zone of its class as long as one has a free chunk.  Else a zone becomes
        active: the first of those set aside, without a page changing hands, or, if there is none, a new one. */
    ghost predicate FromRightZone(zones0: map<nat, Zone>, zoneFree0: seq<nat>, owner0: map<nat, Owner>, zi: int, z: nat)
      reads `zones, `zoneFree, `owner
    {
      if !NoneLinked(zones0, zi) then
        z in zones0 && zones0[z].index == zi && zones.Keys == zones0.Keys && zoneFree == zoneFree0 && owner == owner0
      else
        && z !in zones0 && zones.Keys == zones0.Keys + {z}
        && if zoneFree0 == [] then zoneFree == []
           else z == zoneFree0[0] && zoneFree == zoneFree0[1..] && owner == owner0
    }

    lemma RightZone(zones0: map<nat, Zone>, zoneFree0: seq<nat>, owner0: map<nat, Owner>, zi: int, z: nat)
      requires if !NoneLinked(zones0, zi) then
          z in zones0 && zones0[z].index == zi && zones.Keys == zones0.Keys && zoneFree == zoneFree0 && owner == owner0
        else
          && z !in zones0 && zones.Keys == zones0.Keys + {z}
          && if zoneFree0 == [] then zoneFree == []
             else z == zoneFree0[0] && zoneFree == zoneFree0[1..] && owner == owner0
      ensures FromRightZone(zones0, zoneFree0, owner0, zi, z)
    {
    }

    method SmallBlock(size: nat) returns (r: int, ghost z: nat, ghost i: nat)
      requires Valid() && 0 < size < zoneLimit
      modifies this, pages
      ensures Valid() && large == old(large) && (r >= 0 || r == NULL)
      ensures r >= 0 ==>
                && z in zones && zones[z].size == ChunkSize(size) && r == ChunkAt(z, zones[z].size, i)
                && !Live(old(zones), z, i) && LiveSameBut(old(zones), zones, z, i, true)
      ensures r < 0 ==> zones == old(zones) && zoneFree == [] && forall p: nat :: !pages.CanTake(p, zonePages)
      ensures r < 0 ==> NoneLinked(zones, ClassOf(ChunkSize(size)))
      ensures r >= 0 ==> FromRightZone(old(zones), old(zoneFree), old(owner), ClassOf(ChunkSize(size)), z)
    {
      assert NULL < 0;
      hide *;
      AllReady();
      SizesAre();
      ClassReady(size);
      var zi, bytes := ZoneIndex(size);
      if zoneArray[zi] != [] {
        LinkedSize(zones, zoneSize, zoneArray, zi, bytes);
        LinkedClass(zones, zoneArray, zi);
        var zone, c := FromZone(zi);
        z, i := zone, c;
        r := ChunkAt(zone, bytes, c);
        RightZone(old(zones), old(zoneFree), old(owner), zi, zone);
      } else {
        EmptyClass(zones, zoneArray, zi);
        var zone, ok := NewZone(zi, bytes);
        z, i := zone, 0;
        if !ok {
          return NULL, z, i;
        }
        NewIsFresh(old(zones), zone, 0);
        r := ChunkAt(zone, bytes, 0);
        RightZone(old(zones), old(zoneFree), old(owner), zi, zone);
      }
    }

    function PageNumber(addr: nat): nat {
      addr / PAGE
    }

    /** A large block starts at the address. */
    ghost predicate IsBlock(addr: nat, blocks: map<nat, nat>) {
      addr % PAGE == 0 && PageNumber(addr) in blocks
    }

    /** What may be freed: chunk `i` of zone `z`, or a large block. */
    ghost predicate Allocated(addr: nat, z: nat, i: nat)
      reads `zones, `large
    {
      if IsBlock(addr, large) then true
      else Live(zones, z, i) && zones[z].size > 0 && addr == ChunkAt(z, zones[z].size, i)
    }

    /** rt_free. */
    method Free(addr: int, ghost z: nat, ghost i: nat)
      requires Valid() && (addr < 0 || Allocated(addr, z, i))
      modifies this, pages
      ensures Valid()
      ensures addr < 0 ==> Chunks(old(zones), zones) && large == old(large)
      ensures addr >= 0 && IsBlock(addr, old(large)) ==>
                && Chunks(old(zones), zones) && large == old(large) - {PageNumber(addr)}
                && forall p: nat :: InRange(p, PageNumber(addr), old(large)[PageNumber(addr)]) ==> pages.IsFree(p)
      ensures addr >= 0 && !IsBlock(addr, old(large)) ==>
              LiveSameBut(old(zones), zones, z, i, false) && large == old(large) &&
              EmptyZoneRule(old(zones), old(zoneFree), z, i)
    {
      hide *;
      Same(zones);
      if addr < 0 {
        return;
      }
      var page: nat := PageNumber(addr);
      LookUp(addr, z, i);
      if usage[page].LargePage? {
        FreeBlock(page);
      } else {
        var zp: nat := page - usage[page].offset;
        var c := IndexOf(addr, zp, i);
        FreeChunk(zp, c);
      }
    }

    static lemma SameAfter(zones0: map<nat, Zone>, zones1: map<nat, Zone>, zones: map<nat, Zone>, z: nat, c: nat)
      requires LiveSameBut(zones0, zones1, z, c, false) && Chunks(zones1, zones)
      ensures LiveSameBut(zones0, zones, z, c, false)
    {
    }

    static lemma Same(zones: map<nat, Zone>)
      ensures Chunks(zones, zones)
    {
    }

    /** The index of the chunk at an address. */
    method IndexOf(addr: nat, z: nat, ghost i: nat) returns (c: nat)
      requires z in zones && zones[z].size > 0 && addr == ChunkAt(z, zones[z].size, i)
      ensures c == i
    {
      hide FirstChunk, Fit;
      ChunkIndex(zones[z].size, i);
      c := Fit(addr - z * PAGE - FirstChunk(zones[z].size), zones[z].size);
    }

    /** The usage table finds the large block, or the zone of the chunk. */
    lemma LookUp(addr: nat, z: nat, i: nat)
      requires Valid() && Allocated(addr, z, i)
      ensures PageNumber(addr) in usage
      ensures var p := PageNumber(addr);
              if IsBlock(addr, large) then p in large && usage[p] == LargePage(large[p])
              else usage[p].SmallPage? && usage[p].offset <= p && p - usage[p].offset == z
                   && z in zones && Live(zones, z, i) && zones[z].size > 0 && addr == ChunkAt(z, zones[z].size, i)
    {
      hide OwnersOk, ArrayOk, ZonesOk, FreeZonesOk, FirstChunk;
      if !IsBlock(addr, large) {
        SizesAre();
        ChunkInside(zones, zoneSize, z, i);
        PageOf(z, FirstChunk(zones[z].size) + i * zones[z].size, zonePages);
        assert z in zones.Keys + Members(zoneFree);
      }
    }

    static lemma PageOf(z: nat, o: nat, n: nat)
      requires o < n * PAGE
      ensures InRange((z * PAGE + o) / PAGE, z, n)
    {
    }

    static lemma ChunkIndex(size: nat, i: nat)
      requires size > 0
      ensures Fit(i * size, size) == i
    {
      var q := i * size / size;
      assert i * size == size * q + i * size % size;
      MulMono(i + 1, q, size);
      MulMono(q + 1, i, size);
    }

    method FreeBlock(s: nat)
      requires Valid() && s in large && s in usage && usage[s] == LargePage(large[s])
      modifies `owner, `usage, `large, pages
      ensures Valid() && large == old(large) - {s}
      ensures forall p: nat :: InRange(p, s, old(large)[s]) ==> pages.IsFree(p)
    {
      hide *;
      AllReady();
      var n := usage[s].n;
      BlockDisowns(owner, usage, zones.Keys + Members(zoneFree), large, zonePages, s);
      usage := usage[s := LargePage(0)];
      large := large - {s};
      ReturnPages(s, n);
      MakeValid();
    }

    method ReturnPages(a: nat, n: nat)
      requires PagesOk() && n > 0 && forall p: nat :: InRange(p, a, n) ==> p in owner && owner[p] != Unowned
      modifies `owner, pages
      ensures PagesOk() && owner == Assigned(old(owner), a, n, Unowned)
      ensures forall p: nat :: InRange(p, a, n) ==> pages.IsFree(p)
    {
      assert InRange(a + n - 1, a, n);
      pages.FreePages(a, n);
      owner := Assigned(owner, a, n, Unowned);
    }

    /** Put a chunk on the free list of its zone; a zone left without a chunk in use is kept for later if
        its class has another zone with free chunks. */
    method FreeChunk(z: nat, c: nat)
      requires Valid() && Live(zones, z, c)
      modifies `zones, `zoneArray, `zoneFree, `owner, `usage, pages
      ensures Valid() && LiveSameBut(old(zones), zones, z, c, false)
      ensures EmptyZoneRule(old(zones), old(zoneFree), z, c)
    {
      hide *;
      AllReady();
      GiveReady(zones, zoneSize, zoneArray, z, c);
      EmptiedIff(zones, zoneSize, z, c);
      var zi := zones[z].index;
      if zones[z].nfree == 0 {
        zoneArray := zoneArray[zi := [z] + zoneArray[zi]];
      }
      zones := zones[z := GiveChunk(zones[z], c)];
      MakeValid();
      OthersIff(old(zones), zones, zoneArray, z);
      ghost var zones1, zoneFree1 := zones, zoneFree;
      var unused := zones[z].nfree == zones[z].nmax && |zoneArray[zi]| > 1;
      if unused {
        KeepZone(z);
        SameAfter(old(zones), zones1, zones, z, c);
      }
      RuleKept(old(zones), zones1, zoneFree1, z, c, unused);
    }

    /** What becomes of zone `z` when its chunk `c` is freed.  If that was the last chunk in use, and another
        zone of the class has a free chunk, the zone is no longer active: it is set aside, in front, or its
        pages are released if two are set aside already.  Otherwise it stays. */
    ghost predicate EmptyZoneRule(zones0: map<nat, Zone>, zoneFree0: seq<nat>, z: nat, c: nat)
      reads `zones, `zoneFree, pages
    {
      z in zones0 &&
      if (forall j: nat :: Live(zones0, z, j) ==> j == c) && OtherFree(zones0, z) then
        && zones.Keys == zones0.Keys - {z}
        && if |zoneFree0| < 2 then zoneFree == [z] + zoneFree0
           else zoneFree == zoneFree0 && forall p: nat :: InRange(p, z, zonePages) ==> pages.IsFree(p)
      else zones.Keys == zones0.Keys && zoneFree == zoneFree0
    }

    lemma RuleKept(zones0: map<nat, Zone>, zones1: map<nat, Zone>, zoneFree1: seq<nat>, z: nat, c: nat, unused: bool)
      requires z in zones0 && zones1.Keys == zones0.Keys
      requires unused <==> (forall j: nat :: Live(zones0, z, j) ==> j == c) && OtherFree(zones0, z)
      requires if unused then KeptAside(zones1, zoneFree1, z) else zones == zones1 && zoneFree == zoneFree1
      ensures EmptyZoneRule(zones0, zoneFree1, z, c)
    {
      hide Live, OtherFree;
    }

    /** Zone `z` is set aside, or released if two others are. */
    ghost predicate KeptAside(zones1: map<nat, Zone>, zoneFree1: seq<nat>, z: nat)
      reads `zones, `zoneFree, pages
    {
      && zones.Keys == zones1.Keys - {z}
      && if |zoneFree1| < RELEASE_THRESH then zoneFree == [z] + zoneFree1
         else zoneFree == zoneFree1 && forall p: nat :: InRange(p, z, zonePages) ==> pages.IsFree(p)
    }

    /** Take a zone with no chunk in use off its list; at most two such zones are kept. */
    method KeepZone(z: nat)
      requires Valid() && z in zones && zones[z].nfree == zones[z].nmax
      modifies `zones, `zoneArray, `zoneFree, `owner, `usage, pages
      ensures Valid() && Chunks(old(zones), zones) && KeptAside(old(zones), old(zoneFree), z)
    {
      hide *;
      AllReady();
      SizesAre();
      DropReady(zones, zoneSize, zoneArray, z, zoneFree);
      var zi := zones[z].index;
      zoneArray := zoneArray[zi := Without(zoneArray[zi], z)];
      zones := zones - {z};
      if |zoneFree| + 1 > RELEASE_THRESH {
        ReleaseZone(z);
      } else {
        zoneFree := [z] + zoneFree;
      }
      MakeValid();
      Aside(old(zones), old(zoneFree), z);
    }

    lemma Aside(zones1: map<nat, Zone>, zoneFree1: seq<nat>, z: nat)
      requires zones == zones1 - {z}
      requires if |zoneFree1| < RELEASE_THRESH then zoneFree == [z] + zoneFree1
               else zoneFree == zoneFree1 && forall p: nat :: InRange(p, z, zonePages) ==> pages.IsFree(p)
      ensures KeptAside(zones1, zoneFree1, z)
    {
    }

    /** Give the pages of a zone back to the page allocator. */
    method ReleaseZone(z: nat)
      requires PagesOk() && z !in zones && z !in zoneFree &&
               OwnersOk(owner, zones.Keys + {z} + Members(zoneFree), large, zonePages)
      requires UsageOk(usage, zones.Keys + {z} + Members(zoneFree), large, zonePages) && zonePages > 0
      modifies `owner, `usage, pages
      ensures PagesOk() && OwnersOk(owner, zones.Keys + Members(zoneFree), large, zonePages)
      ensures UsageOk(usage, zones.Keys + Members(zoneFree), large, zonePages)
      ensures forall p: nat :: InRange(p, z, zonePages) ==> pages.IsFree(p)
    {
      ghost var zs := zones.Keys + {z} + Members(zoneFree);
      assert zs - {z} == zones.Keys + Members(zoneFree);
      hide *;
      ZoneDisowns(owner, zs, large, zonePages, z);
      UnmarkZone(z);
      ZoneUnmarked(old(usage), usage, owner, zs, large, zonePages, z);
      ReturnPages(z, zonePages);
    }

    method UnmarkZone(z: nat)
      modifies `usage
      ensures Unmarked(old(usage), usage, z, zonePages)
    {
      for off := 0 to zonePages
        invariant Unmarked(old(usage), usage, z, off)
      {
        usage := usage[z + off := NotUsed];
      }
    }

    lemma ClassReady(size: nat)
      requires SizesOk() && 0 < size < zoneLimit
      ensures size < LIMIT_MAX && IsClass(ChunkSize(size)) && 0 <= ClassOf(ChunkSize(size)) < NZONES
      ensures 0 < ChunkSize(size) && 4 * ChunkSize(size) <= zoneSize
    {
      hide ChunkSize;
      SizeOfClass(size);
      ChunkBelow(size);
    }

    lemma SizesAre()
      requires SizesOk()
      ensures 0 < zonePages && zonePages * PAGE == zoneSize && zoneSize >= 256 && zoneLimit <= LIMIT_MAX &&
              4 * zoneLimit <= zoneSize
    {
    }

    /** The header of a new zone, whose first chunk is handed out. */
    method FreshZone(zi: nat, size: nat) returns (zone: Zone)
      requires 0 < size && IsClass(size) && ClassOf(size) == zi < NZONES && 4 * size <= zoneSize && zoneSize >= 256
      ensures ZoneOk(zone) && Laid(zone, zoneSize) && zone.nfree > 0 && zone.index == zi && zone.size == size
      ensures forall i: nat :: Used(zone, i) <==> i == 0
    {
      hide ClassOf, SizeOf;
      RoomForTwo(zoneSize, size);
      var nmax := (zoneSize - FirstChunk(size)) / size;
      zone := Zone(zi, size, nmax, nmax - 1, 0, []);
    }

    /** Take the pages of a zone and enter them into the usage table. */
    method PagesForZone() returns (z: nat, ok: bool)
      requires PagesOk() && OwnersOk(owner, zones.Keys + Members(zoneFree), large, zonePages) && zonePages > 0
      requires UsageOk(usage, zones.Keys + Members(zoneFree), large, zonePages)
      modifies `owner, `usage, pages
      ensures PagesOk()
      ensures ok ==> z !in zones && OwnersOk(owner, zones.Keys + {z} + Members(zoneFree), large, zonePages)
      ensures ok ==> UsageOk(usage, zones.Keys + {z} + Members(zoneFree), large, zonePages)
      ensures !ok ==> owner == old(owner) && usage == old(usage) && forall p: nat :: !pages.CanTake(p, zonePages)
    {
      hide *;
      var r := TakePages(zonePages, false);
      if r < 0 {
        return 0, false;
      }
      z, ok := r, true;
      ZoneOwns(old(owner), zones.Keys + Members(zoneFree), large, zonePages, z);
      assert zones.Keys + Members(zoneFree) + {z} == zones.Keys + {z} + Members(zoneFree);
      MarkZone(z);
      ZoneMarked(old(usage), usage, old(owner), zones.Keys + Members(zoneFree), large, zonePages, z);
    }

    /** Take pages from the page allocator and write down their owner. */
    method TakePages(n: nat, ghost block: bool) returns (r: int)
      requires PagesOk() && n > 0
      modifies `owner, pages
      ensures PagesOk() && (r >= 0 || r == NULL)
      ensures r >= 0 ==> old(pages.CanTake(r, n)) && forall p: nat :: p < r ==> !old(pages.CanTake(p, n))
      ensures r >= 0 ==> Unclaimed(old(owner), r, n) && owner == Assigned(old(owner), r, n,
              if block then BlockAt(r) else ZoneAt(r))
      ensures r < 0 ==> owner == old(owner) && forall p: nat :: !pages.CanTake(p, n)
    {
      r := pages.AllocPages(n);
      if r >= 0 {
        forall p: nat | InRange(p, r, n)
          ensures p in owner && owner[p] == Unowned
        {
          assert old(pages.IsFree(p));
        }
        owner := Assigned(owner, r, n, if block then BlockAt(r) else ZoneAt(r));
      }
    }

    /** The usage entries of the pages of a zone. */
    method MarkZone(z: nat)
      modifies `usage
      ensures Marked(old(usage), usage, z, zonePages)
    {
      for off := 0 to zonePages
        invariant Marked(old(usage), usage, z, off)
      {
        usage := usage[z + off := SmallPage(off)];
      }
    }

    lemma AllReady()
      requires Valid()
      ensures |zoneArray| == NZONES && SizesOk() && ZonesOk(zones, zoneSize) && ArrayOk(zones, zoneArray) &&
              FreeZonesOk(zones.Keys, zoneFree) && PagesOk()
      ensures OwnersOk(owner, zones.Keys + Members(zoneFree), large, zonePages) &&
              UsageOk(usage, zones.Keys + Members(zoneFree), large, zonePages)
    {
    }

    lemma MakeValid()
      requires SizesOk() && ZonesOk(zones, zoneSize) && ArrayOk(zones, zoneArray) && FreeZonesOk(zones.Keys, zoneFree)
      requires OwnersOk(owner, zones.Keys + Members(zoneFree), large, zonePages)
      requires UsageOk(usage, zones.Keys + Members(zoneFree), large, zonePages) && PagesOk()
      ensures Valid()
    {
    }
  }

  /** A heap without zones and large blocks. */
  lemma NothingYet(zoneArray: seq<seq<nat>>, zoneSize: nat, zonePages: nat, owner: map<nat, Owner>)
    requires |zoneArray| == NZONES && forall zi :: 0 <= zi < NZONES ==> zoneArray[zi] == []
    requires forall p :: p in owner ==> owner[p] == Unowned || owner[p] == System
    ensures ZonesOk(map[], zoneSize) && ArrayOk(map[], zoneArray)
    ensures var none: map<nat, Zone> := map[];
      && FreeZonesOk(none.Keys, [])
      && OwnersOk(owner, none.Keys + Members([]), map[], zonePages) &&
        UsageOk(map[], none.Keys + Members([]), map[], zonePages)
  {
    forall zi | 0 <= zi < NZONES
      ensures ListOk(map[], zi, zoneArray[zi])
    {
    }
  }

  lemma KeptZone(active: set<nat>, zoneFree: seq<nat>)
    requires FreeZonesOk(active, zoneFree) && zoneFree != []
    ensures zoneFree[0] !in active && FreeZonesOk(active + {zoneFree[0]}, zoneFree[1..])
    ensures active + {zoneFree[0]} + Members(zoneFree[1..]) == active + Members(zoneFree)
  {
    assert zoneFree == [zoneFree[0]] + zoneFree[1..];
  }

  lemma LinkZone(zones: map<nat, Zone>, zoneSize: nat, zoneArray: seq<seq<nat>>, zi: nat, z: nat, zone: Zone)
    requires ZonesOk(zones, zoneSize) && ArrayOk(zones, zoneArray) && zi < NZONES == |zoneArray| && z !in zones
    requires ZoneOk(zone) && Laid(zone, zoneSize) && zone.nfree > 0 && zone.index == zi &&
             forall i: nat :: Used(zone, i) <==> i == 0
    ensures var zones' := zones[z := zone];
      && ZonesOk(zones', zoneSize) && ArrayOk(zones', zoneArray[zi := [z] + zoneArray[zi]])
      && LiveSameBut(zones, zones', z, 0, true) && zones'.Keys == zones.Keys + {z}
  {
    var zones' := zones[z := zone];
    var arr := zoneArray[zi := [z] + zoneArray[zi]];
    forall zj | 0 <= zj < NZONES
      ensures ListOk(zones', zj, arr[zj])
    {
      assert ListOk(zones, zj, zoneArray[zj]);
    }
  }

  lemma LinkedSize(zones: map<nat, Zone>, zoneSize: nat, zoneArray: seq<seq<nat>>, zi: nat, size: nat)
    requires ZonesOk(zones, zoneSize) && IsClass(size) && ClassOf(size) == zi
    ensures forall z :: z in zones && zones[z].index == zi ==> zones[z].size == size
  {
    hide ClassOf, SizeOf, FirstChunk, Capacity, ZoneOk;
  }

  lemma EmptyClass(zones: map<nat, Zone>, zoneArray: seq<seq<nat>>, zi: nat)
    requires ArrayOk(zones, zoneArray) && zi < NZONES == |zoneArray| && zoneArray[zi] == []
    ensures SlabHeap.NoneLinked(zones, zi)
  {
  }

  lemma NewIsFresh(zones: map<nat, Zone>, z: nat, i: nat)
    requires z !in zones
    ensures !Live(zones, z, i)
  {
  }

  lemma ChunkInside(zones: map<nat, Zone>, zoneSize: nat, z: nat, i: nat)
    requires ZonesOk(zones, zoneSize) && Live(zones, z, i)
    ensures var s := zones[z].size; s > 0 && ZONE_HEADER <= FirstChunk(s) && FirstChunk(s) + i * s + s <= zoneSize
  {
    hide ClassOf, SizeOf, Capacity;
    MulMono(i + 1, zones[z].nmax, zones[z].size);
    assert (i + 1) * zones[z].size == i * zones[z].size + zones[z].size;
  }

  /** A freed chunk goes back to its zone, which is linked again if it had been full. */
  lemma GiveReady(zones: map<nat, Zone>, zoneSize: nat, zoneArray: seq<seq<nat>>, z: nat, c: nat)
    requires ZonesOk(zones, zoneSize) && ArrayOk(zones, zoneArray) && |zoneArray| == NZONES && Live(zones, z, c)
    ensures z in zones && zones[z].index < NZONES
    ensures var zone, zi := GiveChunk(zones[z], c), zones[z].index; var zones' := zones[z := zone];
      && ZonesOk(zones', zoneSize) && zones'.Keys == zones.Keys && zone.index == zi
      && ArrayOk(zones', if zones[z].nfree == 0 then zoneArray[zi := [z] + zoneArray[zi]] else zoneArray)
      && LiveSameBut(zones, zones', z, c, false)
  {
    hide ClassOf, SizeOf, FirstChunk, Capacity;
    var zone, zi := GiveChunk(zones[z], c), zones[z].index;
    GiveIsFree(zones[z], c);
    hide ZoneOk;
    ZoneGiven(zones, zoneArray, z, zone);
  }

  lemma LinkedClass(zones: map<nat, Zone>, zoneArray: seq<seq<nat>>, zi: nat)
    requires ArrayOk(zones, zoneArray) && zi < |zoneArray| == NZONES && zoneArray[zi] != []
    ensures !SlabHeap.NoneLinked(zones, zi)
  {
    assert ListOk(zones, zi, zoneArray[zi]) && zoneArray[zi][0] in zoneArray[zi];
  }

  /** Another zone of the class of `z` has a free chunk. */
  ghost predicate OtherFree(zones: map<nat, Zone>, z: nat)
    requires z in zones
  {
    exists y :: y in zones && y != z && zones[y].index == zones[z].index && zones[y].nfree > 0
  }

  lemma OthersIff(zones0: map<nat, Zone>, zones: map<nat, Zone>, zoneArray: seq<seq<nat>>, z: nat)
    requires ArrayOk(zones, zoneArray) && |zoneArray| == NZONES && z in zones && zones[z].index < NZONES
    requires z in zones0 && zones[z].nfree > 0 && zones[z].index == zones0[z].index
    requires zones == zones0[z := zones[z]]
    ensures |zoneArray[zones[z].index]| > 1 <==> OtherFree(zones0, z)
  {
    var list := zoneArray[zones[z].index];
    assert ListOk(zones, zones[z].index, list) && z in list;
    if |list| > 1 {
      var y := if list[0] == z then list[1] else list[0];
      assert y in list && y != z && y in zones0 && zones0[y].index == zones0[z].index && zones0[y].nfree > 0;
    }
    if OtherFree(zones0, z) {
      var y :| y in zones0 && y != z && zones0[y].index == zones0[z].index && zones0[y].nfree > 0;
      assert y in zones && zones[y] == zones0[y];
      assert y in list;
    }
  }

  /** With chunk `c` given back, the zone counts all chunks as free exactly if no other was in use. */
  lemma EmptiedIff(zones: map<nat, Zone>, zoneSize: nat, z: nat, c: nat)
    requires ZonesOk(zones, zoneSize) && Live(zones, z, c)
    ensures var zone := GiveChunk(zones[z], c);
      zone.nfree == zone.nmax <==> forall j: nat :: Live(zones, z, j) ==> j == c
    ensures GiveChunk(zones[z], c).nfree > 0
  {
    assert ZoneOk(zones[z]) by { hide Laid; }
    hide ZonesOk;
    GiveIsFree(zones[z], c);
    CountsUsed(GiveChunk(zones[z], c));
    hide ZoneOk, Used;
    forall j: nat
      ensures Used(GiveChunk(zones[z], c), j) <==> Live(zones, z, j) && j != c
    {
    }
  }

  lemma ZoneGiven(zones: map<nat, Zone>, zoneArray: seq<seq<nat>>, z: nat, zone: Zone)
    requires ArrayOk(zones, zoneArray) && |zoneArray| == NZONES && z in zones &&
             zone.index == zones[z].index < NZONES && zone.nfree > 0
    ensures var zi := zone.index;
      ArrayOk(zones[z := zone], if zones[z].nfree == 0 then zoneArray[zi := [z] + zoneArray[zi]] else zoneArray)
  {
    var zones' := zones[z := zone];
    var arr := if zones[z].nfree == 0 then zoneArray[zone.index := [z] + zoneArray[zone.index]] else zoneArray;
    forall zj | 0 <= zj < NZONES
      ensures ListOk(zones', zj, arr[zj])
    {
      assert ListOk(zones, zj, zoneArray[zj]);
    }
  }

  /** A zone with no chunk in use can be unlinked and set aside. */
  lemma DropReady(zones: map<nat, Zone>, zoneSize: nat, zoneArray: seq<seq<nat>>, z: nat, zoneFree: seq<nat>)
    requires ZonesOk(zones, zoneSize) && ArrayOk(zones, zoneArray) && |zoneArray| == NZONES &&
             FreeZonesOk(zones.Keys, zoneFree)
    requires z in zones && zones[z].nfree == zones[z].nmax
    ensures zones[z].index < NZONES && z !in zoneFree
    ensures var zi := zones[z].index; var zones' := zones - {z};
      && ZonesOk(zones', zoneSize) && ArrayOk(zones', zoneArray[zi := Without(zoneArray[zi], z)])
      && SlabHeap.Chunks(zones, zones') && zones'.Keys + {z} == zones.Keys
      && FreeZonesOk(zones'.Keys, zoneFree) &&
        (|zoneFree| + 1 <= RELEASE_THRESH ==> FreeZonesOk(zones'.Keys, [z] + zoneFree))
      && zones'.Keys + Members([z] + zoneFree) == zones.Keys + Members(zoneFree)
  {
    assert zones[z].index < NZONES by { hide ClassOf, SizeOf, FirstChunk, Capacity; }
    hide ZonesOk, ArrayOk;
    ZonesDropped(zones, zoneSize, z);
    ArrayDropped(zones, zoneArray, z);
    assert (zones - {z}).Keys == zones.Keys - {z};
    assert Members([z] + zoneFree) == {z} + Members(zoneFree);
  }

  lemma ZonesDropped(zones: map<nat, Zone>, zoneSize: nat, z: nat)
    requires ZonesOk(zones, zoneSize) && z in zones && zones[z].nfree == zones[z].nmax
    ensures ZonesOk(zones - {z}, zoneSize) && SlabHeap.Chunks(zones, zones - {z})
  {
    hide Laid;
    CountsUsed(zones[z]);
    hide ZoneOk;
  }

  lemma ArrayDropped(zones: map<nat, Zone>, zoneArray: seq<seq<nat>>, z: nat)
    requires ArrayOk(zones, zoneArray) && |zoneArray| == NZONES && z in zones && zones[z].index < NZONES
    ensures var zi := zones[z].index; ArrayOk(zones - {z}, zoneArray[zi := Without(zoneArray[zi], z)])
  {
    var zi := zones[z].index;
    var arr := zoneArray[zi := Without(zoneArray[zi], z)];
    assert ListOk(zones, zi, zoneArray[zi]);
    WithoutDistinct(zoneArray[zi], z);
    forall zj | 0 <= zj < NZONES
      ensures ListOk(zones - {z}, zj, arr[zj])
    {
      assert ListOk(zones, zj, zoneArray[zj]);
    }
  }

  /** Two zones have no page in common. */
  lemma ZonesApart(owner: map<nat, Owner>, zoneSet: set<nat>, large: map<nat, nat>, zonePages: nat, z: nat, y: nat)
    requires OwnersOk(owner, zoneSet, large, zonePages) && z in zoneSet && y in zoneSet && z != y && zonePages > 0
    ensures z + zonePages <= y || y + zonePages <= z
  {
    hide OwnersOk;
    OwnedBy(owner, zoneSet, large, zonePages, z, y);
    OwnedBy(owner, zoneSet, large, zonePages, y, y);
    OwnedBy(owner, zoneSet, large, zonePages, y, z);
    OwnedBy(owner, zoneSet, large, zonePages, z, z);
  }

  lemma OwnedBy(owner: map<nat, Owner>, zoneSet: set<nat>, large: map<nat, nat>, zonePages: nat, z: nat, p: nat)
    requires OwnersOk(owner, zoneSet, large, zonePages) && z in zoneSet
    ensures InRange(p, z, zonePages) ==> p in owner && owner[p] == ZoneAt(z)
  {
  }

  lemma TakeReady(zones: map<nat, Zone>, zoneSize: nat, zoneArray: seq<seq<nat>>, zi: nat)
    requires ZonesOk(zones, zoneSize) && ArrayOk(zones, zoneArray) && zi < NZONES == |zoneArray| && zoneArray[zi] != []
    ensures var z := zoneArray[zi][0];
      && z in zones && zones[z].index == zi && zones[z].nfree > 0 &&
        (zones[z].uindex + 1 == zones[z].nmax ==> zones[z].chunks != [])
      && var (zone, i) := TakeChunk(zones[z]); var zones' := zones[z := zone];
      && ZonesOk(zones', zoneSize) &&
        ArrayOk(zones', if zone.nfree == 0 then zoneArray[zi := zoneArray[zi][1..]] else zoneArray)
      && !Live(zones, z, i) && LiveSameBut(zones, zones', z, i, true) && zones'.Keys == zones.Keys
      && (forall y :: y in zones' ==> zones'[y].size == zones[y].size) && i < zone.nmax
  {
    FirstLinked(zones, zoneArray, zi);
    var z := zoneArray[zi][0];
    TakeIsFresh(zones[z]);
    var (zone, i) := TakeChunk(zones[z]);
    ZoneTaken(zones, zoneSize, zoneArray, zi, zone);
    assert zones[z := zone].Keys == zones.Keys;
  }

  lemma FirstLinked(zones: map<nat, Zone>, zoneArray: seq<seq<nat>>, zi: nat)
    requires ArrayOk(zones, zoneArray) && zi < NZONES && zoneArray[zi] != []
    ensures var z := zoneArray[zi][0]; z in zones && zones[z].index == zi && zones[z].nfree > 0
  {
    assert ListOk(zones, zi, zoneArray[zi]) && zoneArray[zi][0] in zoneArray[zi];
  }

  /** Replacing a linked zone by what is left of it, and unlinking it if that is full. */
  lemma ZoneTaken(zones: map<nat, Zone>, zoneSize: nat, zoneArray: seq<seq<nat>>, zi: nat, zone: Zone)
    requires ZonesOk(zones, zoneSize) && ArrayOk(zones, zoneArray) && zi < NZONES && zoneArray[zi] != []
    requires zoneArray[zi][0] in zones && ZoneOk(zone)
    requires var z0 := zones[zoneArray[zi][0]];
             zone.index == z0.index == zi && zone.size == z0.size && zone.nmax == z0.nmax
    ensures var z := zoneArray[zi][0]; var zones' := zones[z := zone];
      && ZonesOk(zones', zoneSize)
      && ArrayOk(zones', if zone.nfree == 0 then zoneArray[zi := zoneArray[zi][1..]] else zoneArray)
  {
    var z := zoneArray[zi][0];
    var zones' := zones[z := zone];
    var arr := if zone.nfree == 0 then zoneArray[zi := zoneArray[zi][1..]] else zoneArray;
    forall zj | 0 <= zj < NZONES
      ensures ListOk(zones', zj, arr[zj])
    {
      assert ListOk(zones, zj, zoneArray[zj]);
      if zj == zi { assert zoneArray[zi] == [z] + zoneArray[zi][1..]; }
    }
  }
}
