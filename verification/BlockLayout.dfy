/** The layout of a heap region as a sequence of contiguous blocks, each one a header followed by a
    payload.  Both heaps (the memory-heap object and the small-memory heap) keep such a sequence; the
    facts here do not depend on how either of them links its headers. */
module BlockLayout {

  /** `addr` is the offset of the header; the payload starts right behind it and has `size` bytes. */
  datatype Block = Block(addr: int, size: int, used: bool)

  /** Offset of block `i`, or the end of the region for `i == |bs|`. */
  function AddrAt(bs: seq<Block>, i: int, hi: int): int
    requires 0 <= i <= |bs|
  {
    if i < |bs| then bs[i].addr else hi
  }

  /** Block `i` ends where the next one starts. */
  ghost predicate Abuts(bs: seq<Block>, i: int, hi: int, h: int)
    requires 0 <= i < |bs|
  {
    bs[i].size >= 0 && bs[i].addr + h + bs[i].size == AddrAt(bs, i + 1, hi)
  }

  /** `bs` covers `[lo, hi)` without gap or overlap; headers have `h` bytes. */
  ghost predicate Tiles(bs: seq<Block>, lo: int, hi: int, h: int) {
    && AddrAt(bs, 0, hi) == lo
    && forall i :: 0 <= i < |bs| ==> Abuts(bs, i, hi, h)
  }

  ghost predicate BothFree(bs: seq<Block>, i: int)
    requires 0 <= i < |bs| - 1
  {
    !bs[i].used && !bs[i + 1].used
  }

  ghost predicate NoTwoFree(bs: seq<Block>) {
    forall i :: 0 <= i < |bs| - 1 ==> !BothFree(bs, i)
  }

  ghost function FreeBytes(bs: seq<Block>): int {
    if bs == [] then 0 else (if bs[0].used then 0 else bs[0].size) + FreeBytes(bs[1..])
  }

  /** Bytes taken by the used blocks, headers included. */
  ghost function UsedSpan(bs: seq<Block>, h: int): int {
    if bs == [] then 0 else (if bs[0].used then h + bs[0].size else 0) + UsedSpan(bs[1..], h)
  }

  /** The blocks that are handed out to clients. */
  ghost function Live(bs: seq<Block>): set<Block> {
    set b | b in bs && b.used
  }

  ghost predicate IsFree(bs: seq<Block>, a: int) {
    exists b :: b in bs && !b.used && b.addr == a
  }

  /** Every change of the layout replaces `n` neighbouring blocks by `mid`. */
  ghost function Replace(bs: seq<Block>, i: int, n: int, mid: seq<Block>): seq<Block>
    requires 0 <= i <= i + n <= |bs|
  {
    bs[..i] + mid + bs[i + n..]
  }

  lemma {:induction false} TilesOrdered(bs: seq<Block>, lo: int, hi: int, h: int, i: int, j: int)
    requires Tiles(bs, lo, hi, h) && h > 0 && 0 <= i < j <= |bs|
    ensures bs[i].addr + h + bs[i].size <= AddrAt(bs, j, hi)
    decreases j
  {
    assert Abuts(bs, i, hi, h);
    if i + 1 < j {
      TilesOrdered(bs, lo, hi, h, i, j - 1);
      assert Abuts(bs, j - 1, hi, h);
    }
  }

  lemma AllOrdered(bs: seq<Block>, lo: int, hi: int, h: int)
    requires Tiles(bs, lo, hi, h) && h > 0
    ensures forall i, j :: 0 <= i < j < |bs| ==> bs[i].addr + h + bs[i].size <= bs[j].addr
    ensures forall i :: 0 <= i < |bs| ==>
              lo <= bs[i].addr && bs[i].size >= 0 && bs[i].addr + h + bs[i].size <= hi
  {
    forall i, j | 0 <= i < j < |bs|
      ensures bs[i].addr + h + bs[i].size <= bs[j].addr
    {
      TilesOrdered(bs, lo, hi, h, i, j);
    }
    forall i | 0 <= i < |bs|
      ensures lo <= bs[i].addr && bs[i].size >= 0 && bs[i].addr + h + bs[i].size <= hi
    {
      TilesOrdered(bs, lo, hi, h, i, |bs|);
      assert Abuts(bs, i, hi, h) && Abuts(bs, 0, hi, h);
      if i > 0 { TilesOrdered(bs, lo, hi, h, 0, i); }
    }
  }

  lemma ReplaceTiles(bs: seq<Block>, lo: int, hi: int, h: int, i: int, n: int, mid: seq<Block>)
    requires Tiles(bs, lo, hi, h) && 0 <= i <= i + n <= |bs|
    requires Tiles(mid, AddrAt(bs, i, hi), AddrAt(bs, i + n, hi), h)
    ensures Tiles(Replace(bs, i, n, mid), lo, hi, h)
  {
    var rs := Replace(bs, i, n, mid);
    forall k | 0 <= k < |rs|
      ensures Abuts(rs, k, hi, h)
    {
      if k < i {
        assert rs[k] == bs[k] && Abuts(bs, k, hi, h);
      } else if k < i + |mid| {
        assert rs[k] == mid[k - i] && Abuts(mid, k - i, AddrAt(bs, i + n, hi), h);
      } else {
        assert rs[k] == bs[k - |mid| + n] && Abuts(bs, k - |mid| + n, hi, h);
      }
    }
  }

  lemma {:induction false} FreeBytesConcat(a: seq<Block>, b: seq<Block>)
    ensures FreeBytes(a + b) == FreeBytes(a) + FreeBytes(b)
  {
    if a == [] {
      assert a + b == b;
    } else {
      assert (a + b)[1..] == a[1..] + b;
      FreeBytesConcat(a[1..], b);
    }
  }

  lemma {:induction false} UsedSpanConcat(a: seq<Block>, b: seq<Block>, h: int)
    ensures UsedSpan(a + b, h) == UsedSpan(a, h) + UsedSpan(b, h)
  {
    if a == [] {
      assert a + b == b;
    } else {
      assert (a + b)[1..] == a[1..] + b;
      UsedSpanConcat(a[1..], b, h);
    }
  }

  lemma CountOne(a: Block, h: int)
    ensures FreeBytes([a]) == if a.used then 0 else a.size
    ensures UsedSpan([a], h) == if a.used then h + a.size else 0
  {
    assert [a][1..] == [];
  }

  lemma CountTwo(a: Block, b: Block, h: int)
    ensures FreeBytes([a, b]) == FreeBytes([a]) + FreeBytes([b])
    ensures UsedSpan([a, b], h) == UsedSpan([a], h) + UsedSpan([b], h)
  {
    assert [a, b] == [a] + [b];
    FreeBytesConcat([a], [b]);
    UsedSpanConcat([a], [b], h);
  }

  lemma ReplaceCounts(bs: seq<Block>, i: int, n: int, mid: seq<Block>, h: int)
    requires 0 <= i <= i + n <= |bs|
    ensures FreeBytes(Replace(bs, i, n, mid)) == FreeBytes(bs) - FreeBytes(bs[i..i + n]) + FreeBytes(mid)
    ensures UsedSpan(Replace(bs, i, n, mid), h) == UsedSpan(bs, h) - UsedSpan(bs[i..i + n], h) + UsedSpan(mid, h)
  {
    assert bs == bs[..i] + (bs[i..i + n] + bs[i + n..]);
    assert Replace(bs, i, n, mid) == bs[..i] + (mid + bs[i + n..]);
    FreeBytesConcat(bs[..i], bs[i..i + n] + bs[i + n..]);
    FreeBytesConcat(bs[i..i + n], bs[i + n..]);
    FreeBytesConcat(bs[..i], mid + bs[i + n..]);
    FreeBytesConcat(mid, bs[i + n..]);
    UsedSpanConcat(bs[..i], bs[i..i + n] + bs[i + n..], h);
    UsedSpanConcat(bs[i..i + n], bs[i + n..], h);
    UsedSpanConcat(bs[..i], mid + bs[i + n..], h);
    UsedSpanConcat(mid, bs[i + n..], h);
  }

  lemma ReplaceLive(bs: seq<Block>, lo: int, hi: int, h: int, i: int, n: int, mid: seq<Block>)
    requires Tiles(bs, lo, hi, h) && h > 0 && 0 <= i <= i + n <= |bs|
    ensures Live(Replace(bs, i, n, mid)) == Live(bs) - Live(bs[i..i + n]) + Live(mid)
  {
    AllOrdered(bs, lo, hi, h);
    var rs := Replace(bs, i, n, mid);
    forall b | b in bs[i..i + n]
      ensures b in bs && b !in bs[..i] && b !in bs[i + n..]
    {
    }
    assert bs == bs[..i] + bs[i..i + n] + bs[i + n..];
  }

  lemma ReplaceNoTwoFree(bs: seq<Block>, i: int, n: int, mid: seq<Block>)
    requires NoTwoFree(bs) && NoTwoFree(mid) && mid != [] && 0 <= i <= i + n <= |bs|
    requires i > 0 ==> bs[i - 1].used || mid[0].used
    requires i + n < |bs| ==> mid[|mid| - 1].used || bs[i + n].used
    ensures NoTwoFree(Replace(bs, i, n, mid))
  {
    var rs := Replace(bs, i, n, mid);
    forall k | 0 <= k < |rs| - 1
      ensures !BothFree(rs, k)
    {
      if k < i - 1 {
        assert !BothFree(bs, k);
      } else if i <= k < i + |mid| - 1 {
        assert !BothFree(mid, k - i);
      } else if k >= i + |mid| {
        assert !BothFree(bs, k - |mid| + n);
      }
    }
  }

  lemma TilesTail(bs: seq<Block>, lo: int, hi: int, h: int)
    requires bs != [] && h > 0 && Tiles(bs, lo, hi, h) && NoTwoFree(bs)
    ensures Tiles(bs[1..], AddrAt(bs, 1, hi), hi, h) && NoTwoFree(bs[1..])
    ensures Live(bs[1..]) == Live(bs) - {bs[0]}
  {
    AllOrdered(bs, lo, hi, h);
    forall i | 0 <= i < |bs| - 1
      ensures Abuts(bs[1..], i, hi, h)
    {
      assert Abuts(bs, i + 1, hi, h);
    }
    forall i | 0 <= i < |bs| - 2
      ensures !BothFree(bs[1..], i)
    {
      assert !BothFree(bs, i + 1);
    }
    assert bs == [bs[0]] + bs[1..];
    assert bs[0] !in bs[1..];
  }

  /** A layout without two neighbouring holes is determined by the blocks in use: however the holes
      came about, there is one way to lay out the region around the same live blocks. */
  lemma {:induction false} LayoutCanonical(a: seq<Block>, b: seq<Block>, lo: int, hi: int, h: int)
    requires h > 0
    requires Tiles(a, lo, hi, h) && NoTwoFree(a)
    requires Tiles(b, lo, hi, h) && NoTwoFree(b)
    requires Live(a) == Live(b)
    ensures a == b
    decreases |a|
  {
    AllOrdered(a, lo, hi, h);
    AllOrdered(b, lo, hi, h);
    if a != [] && b != [] {
      FirstBlockCanonical(a, b, lo, hi, h);
      FirstBlockCanonical(b, a, lo, hi, h);
      assert Abuts(a, 0, hi, h) && Abuts(b, 0, hi, h);
      TilesTail(a, lo, hi, h);
      TilesTail(b, lo, hi, h);
      LayoutCanonical(a[1..], b[1..], AddrAt(a, 1, hi), hi, h);
      assert a == [a[0]] + a[1..] && b == [b[0]] + b[1..];
    }
  }

  lemma FirstBlockCanonical(a: seq<Block>, b: seq<Block>, lo: int, hi: int, h: int)
    requires h > 0 && a != [] && b != []
    requires Tiles(a, lo, hi, h) && NoTwoFree(a)
    requires Tiles(b, lo, hi, h) && NoTwoFree(b)
    requires Live(a) == Live(b)
    ensures a[0].used ==> b[0] == a[0]
    ensures !a[0].used ==> a[0].size >= b[0].size
  {
    AllOrdered(a, lo, hi, h);
    AllOrdered(b, lo, hi, h);
    assert Abuts(a, 0, hi, h) && Abuts(b, 0, hi, h);
    if a[0].used {
      assert a[0] in Live(b);
    } else if |a| > 1 {
      assert !BothFree(a, 0);
      assert a[1] in Live(a);
      assert a[1] in Live(b);
    }
  }
}
