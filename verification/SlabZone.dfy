/** A zone of the slab allocator: equal chunks, handed out from never used space first, then from a list of
    freed ones.  Chunks are named by their index. */
module SlabZones {
  import opened Chains

  const PAGE := 4096              // RT_MM_PAGE_SIZE
  const ZONE_HEADER := 36         // sizeof(slab_zone)
  const NZONES := 72
  const LIMIT_MAX := 16384        // ZALLOC_ZONE_LIMIT

  // ---- size classes ----

  function RoundUp(n: nat, step: nat): (r: nat)
    requires step > 0
    ensures n <= r < n + step
  {
    n + step - 1 - (n + step - 1) % step
  }

  /** The chunk size that serves a request. */
  function ChunkSize(n: nat): nat {
    if n < 128 then RoundUp(n, 8) else if n < 256 then RoundUp(n, 16) else if n < 512 then RoundUp(n, 32)
    else if n < 1024 then RoundUp(n, 64) else if n < 2048 then RoundUp(n, 128) else if n < 4096 then RoundUp(n, 256)
    else if n < 8192 then RoundUp(n, 512) else RoundUp(n, 1024)
  }

  /** zoneindex: the number of the size class of a request, and the chunk size of that class. */
  method ZoneIndex(n: nat) returns (zi: int, bytes: nat)
    requires 0 < n < LIMIT_MAX
    ensures bytes == ChunkSize(n) && zi == ClassOf(bytes)
  {
    hide RoundUp;
    if n < 128 {
      bytes := RoundUp(n, 8);
      return bytes / 8 - 1, bytes;
    }
    if n < 256 {
      bytes := RoundUp(n, 16);
      return bytes / 16 + 7, bytes;
    }
    if n < 8192 {
      if n < 512 {
        bytes := RoundUp(n, 32);
        return bytes / 32 + 15, bytes;
      }
      if n < 1024 {
        bytes := RoundUp(n, 64);
        return bytes / 64 + 23, bytes;
      }
      if n < 2048 {
        bytes := RoundUp(n, 128);
        return bytes / 128 + 31, bytes;
      }
      if n < 4096 {
        bytes := RoundUp(n, 256);
        return bytes / 256 + 39, bytes;
      }
      bytes := RoundUp(n, 512);
      return bytes / 512 + 47, bytes;
    }
    bytes := RoundUp(n, 1024);
    return bytes / 1024 + 55, bytes;
  }

  /** The number of the class with chunks of `size` bytes. */
  function ClassOf(size: nat): int {
    if size <= 128 then size / 8 - 1
    else if size <= 256 then size / 16 + 7
    else if size <= 512 then size / 32 + 15
    else if size <= 1024 then size / 64 + 23
    else if size <= 2048 then size / 128 + 31
    else if size <= 4096 then size / 256 + 39
    else if size <= 8192 then size / 512 + 47
    else size / 1024 + 55
  }

  function SizeOf(zi: int): int {
    if zi < 16 then 8 * (zi + 1) else if zi < 24 then 16 * (zi - 7) else if zi < 32 then 32 * (zi - 15)
    else if zi < 40 then 64 * (zi - 23) else if zi < 48 then 128 * (zi - 31) else if zi < 56 then 256 * (zi - 39)
    else if zi < 64 then 512 * (zi - 47) else 1024 * (zi - 55)
  }

  lemma Rounded(n: nat, step: nat)
    requires step > 0
    ensures RoundUp(n, step) == step * ((n + step - 1) / step)
  {
  }

  ghost predicate IsClass(size: nat) {
    0 <= ClassOf(size) < NZONES && SizeOf(ClassOf(size)) == size && size <= LIMIT_MAX && size % 8 == 0
  }

  /** Chunk sizes are the sizes of the classes. */
  lemma SizeOfClass(n: nat)
    requires 0 < n < LIMIT_MAX
    ensures IsClass(ChunkSize(n)) && n <= ChunkSize(n)
  {
    hide RoundUp, IsClass;
    if n < 128 {
      SmallBand(n);
    } else {
      var step := if n < 256 then 16 else if n < 512 then 32 else if n < 1024 then 64 else if n < 2048 then 128
                  else if n < 4096 then 256 else if n < 8192 then 512 else 1024;
      LargeBand(n, step);
    }
  }

  /** The distance of the chunk sizes around `n`. */
  function StepOf(n: nat): (r: nat)
    ensures r in [8, 16, 32, 64, 128, 256, 512, 1024]
  {
    if n < 128 then 8 else if n < 256 then 16 else if n < 512 then 32 else if n < 1024 then 64
    else if n < 2048 then 128 else if n < 4096 then 256 else if n < 8192 then 512 else 1024
  }

  /** The chunk size is the smallest multiple of the step that covers the request. */
  lemma ChunkSteps(n: nat)
    requires 0 < n < LIMIT_MAX
    ensures ChunkSize(n) % StepOf(n) == 0 && n <= ChunkSize(n) < n + StepOf(n)
  {
    hide RoundUp;
    var step := StepOf(n);
    assert ChunkSize(n) == RoundUp(n, step);
    Rounded(n, step);
    Multiple(step, (n + step - 1) / step);
  }

  lemma Multiple(step: nat, q: int)
    requires step > 0
    ensures step * q % step == 0
  {
    var r := step * q % step;
    assert step * q == step * (step * q / step) + r;
    MulMono(step * q / step + 1, q, step);
    MulMono(q, step * q / step, step);
  }

  /** A class that covers the request has chunks of a multiple of the step. */
  lemma ClassSteps(n: nat, k: int)
    requires 0 < n < LIMIT_MAX && 0 <= k < NZONES && SizeOf(k) >= n
    ensures SizeOf(k) % StepOf(n) == 0
  {
    hide SizeOf, StepOf;
    if n < 128 {
      TinyClassSteps(n, k);
    } else if n < 512 {
      SmallClassSteps(n, k);
    } else if n < 2048 {
      MiddleClassSteps(n, k);
    } else {
      TopClassSteps(n, k);
    }
  }

  lemma TinyClassSteps(n: nat, k: int)
    requires 0 < n < 128 && 0 <= k < NZONES && SizeOf(k) >= n
    ensures SizeOf(k) % StepOf(n) == 0
  {
  }

  lemma SmallClassSteps(n: nat, k: int)
    requires 128 <= n < 512 && 0 <= k < NZONES && SizeOf(k) >= n
    ensures SizeOf(k) % StepOf(n) == 0
  {
  }

  lemma MiddleClassSteps(n: nat, k: int)
    requires 512 <= n < 2048 && 0 <= k < NZONES && SizeOf(k) >= n
    ensures SizeOf(k) % StepOf(n) == 0
  {
  }

  lemma TopClassSteps(n: nat, k: int)
    requires 2048 <= n < LIMIT_MAX && 0 <= k < NZONES && SizeOf(k) >= n
    ensures SizeOf(k) % StepOf(n) == 0
  {
  }

  lemma MultiplesApart(a: int, b: int, step: nat)
    requires step > 0 && a % step == 0 && b % step == 0 && a < b
    ensures a + step <= b
  {
    assert a == step * (a / step) && b == step * (b / step);
    MulMono(b / step, a / step, step);
    MulMono(a / step + 1, b / step, step);
  }

  /** No class with smaller chunks covers the request. */
  lemma ChunkIsLeast(n: nat, size: nat)
    requires 0 < n < LIMIT_MAX && IsClass(size) && n <= size
    ensures ChunkSize(n) <= size
  {
    hide ChunkSize, ClassOf, SizeOf, StepOf;
    ChunkSteps(n);
    ClassSteps(n, ClassOf(size));
    if size < ChunkSize(n) { MultiplesApart(size, ChunkSize(n), StepOf(n)); }
  }

  /** Rounding does not cross the limits at which larger requests are given pages. */
  lemma ChunkBelow(n: nat)
    requires 0 < n < LIMIT_MAX
    ensures n < 8192 ==> ChunkSize(n) <= 8192
    ensures ChunkSize(n) <= 16384
  {
  }

  lemma SmallBand(n: nat)
    requires 0 < n < 128
    ensures IsClass(RoundUp(n, 8))
  {
    hide RoundUp;
    Rounded(n, 8);
  }

  /** Eight classes for each doubling of the size. */
  lemma LargeBand(n: nat, step: nat)
    requires step in [16, 32, 64, 128, 256, 512, 1024] && 8 * step <= n < 16 * step
    ensures IsClass(RoundUp(n, step))
  {
    hide RoundUp, IsClass;
    Rounded(n, step);
    var q := (n + step - 1) / step;
    assert 8 <= q <= 16 by { hide *; Quotient(n, step); }
    LargeClass(q, step);
  }

  lemma Quotient(n: nat, step: nat)
    requires step > 0 && 8 * step <= n < 16 * step
    ensures 8 <= (n + step - 1) / step <= 16
  {
    var q := (n + step - 1) / step;
    assert q * step + (n + step - 1) % step == n + step - 1;
    MulMono(q, 7, step);
    MulMono(17, q, step);
  }

  lemma MulMono(a: int, b: int, step: nat)
    ensures a <= b ==> a * step <= b * step
  {
  }

  lemma LargeClass(q: nat, step: nat)
    requires 8 <= q <= 16 && step in [16, 32, 64, 128, 256, 512, 1024]
    ensures IsClass(step * q)
  {
    hide IsClass;
    if step <= 64 { MiddleClass(q, step); } else { TopClass(q, step); }
  }

  lemma MiddleClass(q: nat, step: nat)
    requires 8 <= q <= 16 && step in [16, 32, 64]
    ensures IsClass(step * q)
  {
  }

  lemma TopClass(q: nat, step: nat)
    requires 8 <= q <= 16 && step in [128, 256, 512, 1024]
    ensures IsClass(step * q)
  {
    if q == 8 {
    } else if step == 128 {
      assert ClassOf(128 * q) == q + 31;
    } else if step == 256 {
      assert ClassOf(256 * q) == q + 39;
    } else if step == 512 {
      assert ClassOf(512 * q) == q + 47;
    } else {
      assert ClassOf(1024 * q) == q + 55;
    }
  }

  lemma SizeGrows(a: int, b: int)
    requires 0 <= a < b < NZONES
    ensures SizeOf(a) < SizeOf(b)
  {
  }

  /** Requests share a zone index exactly if they share a chunk size, and a class with a lower index has
      smaller chunks. */
  lemma ClassesAgree(m: nat, n: nat)
    requires 0 < m < LIMIT_MAX && 0 < n < LIMIT_MAX
    ensures ClassOf(ChunkSize(m)) == ClassOf(ChunkSize(n)) <==> ChunkSize(m) == ChunkSize(n)
    ensures ClassOf(ChunkSize(m)) < ClassOf(ChunkSize(n)) ==> ChunkSize(m) < ChunkSize(n)
  {
    hide ChunkSize, ClassOf, SizeOf;
    SizeOfClass(m);
    SizeOfClass(n);
    if ClassOf(ChunkSize(m)) < ClassOf(ChunkSize(n)) {
      SizeGrows(ClassOf(ChunkSize(m)), ClassOf(ChunkSize(n)));
    }
  }

  // ---- one zone ----

  predicate PowerOfTwo(n: nat) {
    n == 1 || (n > 0 && n % 2 == 0 && PowerOfTwo(n / 2))
  }

  /** Where the chunks begin: aligned to the chunk size if that is a power of two, to 8 bytes otherwise. */
  function FirstChunk(size: nat): (off: nat)
    requires size > 0
    ensures ZONE_HEADER <= off
  {
    if PowerOfTwo(size) then RoundUp(ZONE_HEADER, size) else RoundUp(ZONE_HEADER, 8)
  }

  function Pow2(k: nat): nat {
    if k == 0 then 1 else 2 * Pow2(k - 1)
  }

  lemma {:induction false} PowOk(k: nat)
    ensures Pow2(k) > 0 && PowerOfTwo(Pow2(k))
  {
    if k > 0 {
      PowOk(k - 1);
      assert Pow2(k) / 2 == Pow2(k - 1);
    }
  }

  lemma {:induction false} PowOf(n: nat) returns (k: nat)
    requires PowerOfTwo(n)
    ensures n == Pow2(k)
  {
    if n == 1 {
      k := 0;
    } else {
      var h := PowOf(n / 2);
      k := h + 1;
    }
  }

  /** The first aligned offset behind the header. */
  lemma FirstChunkIs(size: nat)
    requires size > 0
    ensures var step := if PowerOfTwo(size) then size else 8;
      FirstChunk(size) % step == 0 && ZONE_HEADER <= FirstChunk(size) < ZONE_HEADER + step
  {
    hide RoundUp;
    var step := if PowerOfTwo(size) then size else 8;
    Rounded(ZONE_HEADER, step);
    Multiple(step, (ZONE_HEADER + step - 1) / step);
  }

  function Fit(room: nat, size: nat): nat
    requires size > 0
  {
    room / size
  }

  function Capacity(zoneSize: nat, size: nat): nat
    requires size > 0 && FirstChunk(size) <= zoneSize
  {
    Fit(zoneSize - FirstChunk(size), size)
  }

  /** Every zone holds at least two chunks, so it is linked as long as one of them is free after its first. */
  lemma RoomForTwo(zoneSize: nat, size: nat)
    requires 0 < size && 4 * size <= zoneSize && 256 <= zoneSize
    ensures FirstChunk(size) <= zoneSize && Capacity(zoneSize, size) >= 2
    ensures FirstChunk(size) + Capacity(zoneSize, size) * size <= zoneSize
    ensures zoneSize < FirstChunk(size) + (Capacity(zoneSize, size) + 1) * size
  {
    assert FirstChunk(size) <= ZONE_HEADER + 8 || FirstChunk(size) < ZONE_HEADER + size;
    var room := zoneSize - FirstChunk(size);
    assert room >= 2 * size;
    assert room == room / size * size + room % size;
    MulMono(room / size, 1, size);
  }

  datatype Zone = Zone(
    index: nat,               // z_zoneindex
    size: nat,                // z_chunksize
    nmax: nat,
    nfree: nat,
    uindex: nat,
    chunks: seq<nat>)         // z_freechunk

  ghost predicate ZoneOk(z: Zone) {
    && z.nmax >= 2 && z.size > 0 && z.uindex < z.nmax
    && Distinct(z.chunks) && (forall i :: i in z.chunks ==> i <= z.uindex)
    && z.nfree == z.nmax - 1 - z.uindex + |z.chunks|
  }

  /** Chunk `i` is handed out. */
  ghost predicate Used(z: Zone, i: nat) {
    i <= z.uindex && i !in z.chunks
  }

  /** Hand a chunk out. */
  function TakeChunk(z: Zone): (r: (Zone, nat))
    requires z.nfree > 0 && (z.uindex + 1 == z.nmax ==> z.chunks != [])
  {
    if z.uindex + 1 != z.nmax then (z.(nfree := z.nfree - 1, uindex := z.uindex + 1), z.uindex + 1)
    else (z.(nfree := z.nfree - 1, chunks := z.chunks[1..]), z.chunks[0])
  }

  function GiveChunk(z: Zone, i: nat): Zone {
    z.(nfree := z.nfree + 1, chunks := [i] + z.chunks)
  }

  /** The zone gives out a chunk that was not in use. */
  lemma TakeIsFresh(z: Zone)
    requires ZoneOk(z) && z.nfree > 0
    ensures z.uindex + 1 == z.nmax ==> z.chunks != []
    ensures var (z', i) := TakeChunk(z); ZoneOk(z') && i < z.nmax && !Used(z, i) && forall j: nat :: Used(z', j) <==>
            Used(z, j) || j == i
  {
    if z.uindex + 1 == z.nmax {
      assert z.chunks == [z.chunks[0]] + z.chunks[1..] && z.chunks[0] in z.chunks;
      assert forall i :: i in z.chunks[1..] ==> i in z.chunks;
    }
  }

  lemma GiveIsFree(z: Zone, i: nat)
    requires ZoneOk(z) && Used(z, i)
    ensures ZoneOk(GiveChunk(z, i)) && forall j: nat :: Used(GiveChunk(z, i), j) <==> Used(z, j) && j != i
  {
  }

  /** Chunks never used come first; after that the chunk given back last is the first to be handed out again,
      and giving a chunk back and taking one restores the zone. */
  lemma TakeAfterGive(z: Zone, i: nat)
    requires ZoneOk(z) && Used(z, i)
    ensures z.uindex + 1 < z.nmax ==> TakeChunk(GiveChunk(z, i)).1 == z.uindex + 1 && !Used(z, z.uindex + 1)
    ensures z.uindex + 1 == z.nmax ==> TakeChunk(GiveChunk(z, i)) == (z, i)
  {
  }

  /** A zone counts all its chunks as free exactly when none is in use. */
  lemma CountsUsed(z: Zone)
    requires ZoneOk(z)
    ensures z.nfree <= z.nmax
    ensures z.nfree == z.nmax <==> forall i: nat :: !Used(z, i)
  {
    FillsUp(z.chunks, z.uindex + 1);
    forall i: nat
      ensures Used(z, i) <==> i < z.uindex + 1 && i !in z.chunks
    {
    }
    if forall i: nat :: !Used(z, i) {
      assert forall x: nat :: x < z.uindex + 1 ==> x in z.chunks by {
        forall x: nat | x < z.uindex + 1
          ensures x in z.chunks
        {
          assert !Used(z, x);
        }
      }
    }
  }
}
