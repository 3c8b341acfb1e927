/** The changes the allocators make to a block layout, and what each does to the live blocks, the holes
    and the byte counts.  `tail` is the end of the region, `h` the header size. */
module LayoutChanges {
  import opened BlockLayout

  /** Block `i` cut at `a`. */
  ghost function CutAt(bs: seq<Block>, tail: int, h: int, i: int, a: int): seq<Block>
    requires 0 <= i < |bs|
  {
    Replace(bs, i, 1, [Block(bs[i].addr, a - bs[i].addr - h, bs[i].used),
                       Block(a, AddrAt(bs, i + 1, tail) - a - h, false)])
  }

  lemma CutKeepsStart(bs: seq<Block>, tail: int, h: int, i: int, a: int)
    requires 0 <= i < |bs|
    ensures |CutAt(bs, tail, h, i, a)| == |bs| + 1 && CutAt(bs, tail, h, i, a)[i].addr == bs[i].addr
  {
  }

  /** Blocks `i` and `i + 1` made one. */
  ghost function Joined(bs: seq<Block>, h: int, i: int): seq<Block>
    requires 0 <= i < |bs| - 1
  {
    Replace(bs, i, 2, [Block(bs[i].addr, bs[i].size + h + bs[i + 1].size, bs[i].used)])
  }

  ghost function Marked(bs: seq<Block>, i: int, v: bool): seq<Block>
    requires 0 <= i < |bs|
  {
    Replace(bs, i, 1, [Block(bs[i].addr, bs[i].size, v)])
  }

  /** What an allocation of `n` bytes leaves of a hole: the whole hole when the rest could not hold a
      minimal block, else an exact piece and a smaller hole. */
  ghost function Carve(b: Block, h: int, min: int, n: int): seq<Block> {
    if b.size >= n + h + min
    then [Block(b.addr, n, true), Block(b.addr + h + n, b.size - n - h, false)]
    else [Block(b.addr, b.size, true)]
  }

  /** An allocation of `n` bytes from the hole `i`: if the rest can hold a minimal block, the front becomes a
      block of exactly `n` bytes and the rest a hole; else the whole hole becomes the block. */
  ghost predicate TakesFront(bs: seq<Block>, bs': seq<Block>, i: int, n: int, h: int, min: int) {
    && 0 <= i < |bs|
    && if bs[i].size < n + h + min then bs' == bs[i := Block(bs[i].addr, bs[i].size, true)]
       else bs' == bs[..i] +
              [Block(bs[i].addr, n, true), Block(bs[i].addr + h + n, bs[i].size - n - h, false)] + bs[i + 1..]
  }

  lemma CarveTakesFront(bs: seq<Block>, i: int, n: int, h: int, min: int)
    requires 0 <= i < |bs|
    ensures TakesFront(bs, Replace(bs, i, 1, Carve(bs[i], h, min, n)), i, n, h, min)
    ensures Replace(bs, i, 1, Carve(bs[i], h, min, n))[i] == Carve(bs[i], h, min, n)[0]
  {
  }

  /** Distinct positions have distinct header addresses, the tailer included. */
  lemma AddrDistinct(bs: seq<Block>, tail: int, h: int, i: int, j: int)
    requires h > 0 && Tiles(bs, 0, tail, h) && 0 <= i < j <= |bs|
    ensures AddrAt(bs, i, tail) + h <= AddrAt(bs, j, tail)
  {
    TilesOrdered(bs, 0, tail, h, i, j);
    assert Abuts(bs, i, tail, h);
  }

  /** Which addresses are holes after a replacement. */
  lemma ReplaceIsFree(bs: seq<Block>, tail: int, h: int, i: int, n: int, mid: seq<Block>, a: int)
    requires h > 0 && Tiles(bs, 0, tail, h) && 0 <= i <= i + n <= |bs|
    ensures IsFree(Replace(bs, i, n, mid), a) <==>
            (IsFree(bs, a) && !IsFree(bs[i..i + n], a)) || IsFree(mid, a)
  {
    AllOrdered(bs, 0, tail, h);
    assert bs == bs[..i] + bs[i..i + n] + bs[i + n..];
    forall b | b in bs[..i] || b in bs[i + n..]
      ensures forall c :: c in bs[i..i + n] ==> c.addr != b.addr
    {
    }
  }

  lemma ReplaceHoles(bs: seq<Block>, tail: int, h: int, i: int, n: int, mid: seq<Block>)
    requires h > 0 && Tiles(bs, 0, tail, h) && 0 <= i <= i + n <= |bs|
    ensures forall a :: IsFree(Replace(bs, i, n, mid), a) <==>
                        (IsFree(bs, a) && !IsFree(bs[i..i + n], a)) || IsFree(mid, a)
  {
    forall a
      ensures IsFree(Replace(bs, i, n, mid), a) <==> (IsFree(bs, a) && !IsFree(bs[i..i + n], a)) || IsFree(mid, a)
    {
      ReplaceIsFree(bs, tail, h, i, n, mid, a);
    }
  }

  lemma NoHeaderInside(bs: seq<Block>, tail: int, h: int, i: int, a: int)
    requires h > 0 && Tiles(bs, 0, tail, h) && 0 <= i < |bs| && bs[i].addr < a < AddrAt(bs, i + 1, tail)
    ensures !IsFree(bs, a) && bs[i].addr >= 0
  {
    AllOrdered(bs, 0, tail, h);
    assert Abuts(bs, i, tail, h);
  }

  /** What carving the hole `bs[i]` does to the layout. */
  lemma CarveFacts(bs: seq<Block>, tail: int, h: int, min: int, i: int, n: int)
    requires h > 0 && Tiles(bs, 0, tail, h) && NoTwoFree(bs)
    requires 0 <= i < |bs| && !bs[i].used && bs[i].size >= n > 0
    ensures var mid := Carve(bs[i], h, min, n); var rs := Replace(bs, i, 1, mid);
      && NoTwoFree(rs) && Live(rs) == Live(bs) + {mid[0]}
      && FreeBytes(rs) == FreeBytes(bs) - (if |mid| == 2 then n + h else bs[i].size)
      && UsedSpan(rs, h) == UsedSpan(bs, h) + h + mid[0].size
      && forall a :: IsFree(rs, a) <==> (IsFree(bs, a) && a != bs[i].addr) || (|mid| == 2 && a == mid[1].addr)
  {
    var mid := Carve(bs[i], h, min, n);
    assert bs[i..i + 1] == [bs[i]];
    assert i > 0 ==> !BothFree(bs, i - 1);
    assert i + 1 < |bs| ==> !BothFree(bs, i);
    ReplaceNoTwoFree(bs, i, 1, mid);
    ReplaceCounts(bs, i, 1, mid, h);
    CountOne(bs[i], h);
    CountOne(mid[0], h);
    if |mid| == 2 {
      CountOne(mid[1], h);
      CountTwo(mid[0], mid[1], h);
      assert mid == [mid[0], mid[1]];
    } else {
      assert mid == [mid[0]];
    }
    ReplaceLive(bs, 0, tail, h, i, 1, mid);
    assert Live([bs[i]]) == {} && Live(mid) == {mid[0]};
    forall a
      ensures IsFree(Replace(bs, i, 1, mid), a) <==>
              (IsFree(bs, a) && a != bs[i].addr) || (|mid| == 2 && a == mid[1].addr)
    {
      ReplaceIsFree(bs, tail, h, i, 1, mid, a);
      assert IsFree([bs[i]], a) <==> a == bs[i].addr by { assert bs[i] in [bs[i]]; }
      assert IsFree(mid, a) <==> |mid| == 2 && a == mid[1].addr by { if |mid| == 2 { assert mid[1] in mid; } }
    }
  }

  /** What merging the holes `i` and `i + 1` does to the layout. */
  lemma JoinFacts(bs: seq<Block>, tail: int, h: int, i: int)
    requires h > 0 && Tiles(bs, 0, tail, h) && 0 <= i < |bs| - 1 && BothFree(bs, i)
    ensures var rs := Joined(bs, h, i);
      && |rs| == |bs| - 1 && rs[i] == Block(bs[i].addr, bs[i].size + h + bs[i + 1].size, false)
      && Live(rs) == Live(bs) && FreeBytes(rs) == FreeBytes(bs) + h && UsedSpan(rs, h) == UsedSpan(bs, h)
      && (forall a :: IsFree(rs, a) <==> IsFree(bs, a) && a != bs[i + 1].addr)
      && forall j :: 0 <= j < |rs| - 1 && BothFree(rs, j) ==> BothFree(bs, if j < i then j else j + 1)
  {
    var x := Block(bs[i].addr, bs[i].size + h + bs[i + 1].size, false);
    assert bs[i..i + 2] == [bs[i], bs[i + 1]];
    ReplaceLive(bs, 0, tail, h, i, 2, [x]);
    assert Live([bs[i], bs[i + 1]]) == {} && Live([x]) == {};
    ReplaceCounts(bs, i, 2, [x], h);
    CountOne(x, h);
    CountOne(bs[i], h);
    CountOne(bs[i + 1], h);
    CountTwo(bs[i], bs[i + 1], h);
    AddrDistinct(bs, tail, h, i, i + 1);
    forall a
      ensures IsFree(Joined(bs, h, i), a) <==> IsFree(bs, a) && a != bs[i + 1].addr
    {
      ReplaceIsFree(bs, tail, h, i, 2, [x], a);
      assert bs[i] in bs[i..i + 2] && bs[i + 1] in bs[i..i + 2] && x in [x];
      assert bs[i] in bs && bs[i + 1] in bs;
    }
  }

  /** What marking block `i` unused does to the layout. */
  lemma ReleaseFacts(bs: seq<Block>, tail: int, h: int, i: int)
    requires h > 0 && Tiles(bs, 0, tail, h) && 0 <= i < |bs| && bs[i].used
    ensures var rs := Marked(bs, i, false);
      && |rs| == |bs| && rs[i] == Block(bs[i].addr, bs[i].size, false)
      && Live(rs) == Live(bs) - {bs[i]} && FreeBytes(rs) == FreeBytes(bs) + bs[i].size
      && UsedSpan(rs, h) == UsedSpan(bs, h) - h - bs[i].size
      && (forall a :: IsFree(rs, a) <==> IsFree(bs, a) || a == bs[i].addr)
      && (forall j :: 0 <= j < |rs| && j != i ==> rs[j] == bs[j])
      && forall j :: 0 <= j < |rs| - 1 && j != i && j != i - 1 && BothFree(rs, j) ==> BothFree(bs, j)
  {
    var x := Block(bs[i].addr, bs[i].size, false);
    assert bs[i..i + 1] == [bs[i]];
    ReplaceLive(bs, 0, tail, h, i, 1, [x]);
    assert Live([bs[i]]) == {bs[i]} && Live([x]) == {};
    ReplaceCounts(bs, i, 1, [x], h);
    CountOne(x, h);
    CountOne(bs[i], h);
    forall a
      ensures IsFree(Marked(bs, i, false), a) <==> IsFree(bs, a) || a == bs[i].addr
    {
      ReplaceIsFree(bs, tail, h, i, 1, [x], a);
      assert x in [x];
    }
  }

  /** What cutting the used block `i` at `a` does to the layout. */
  lemma CutFacts(bs: seq<Block>, tail: int, h: int, i: int, a: int)
    requires h > 0 && Tiles(bs, 0, tail, h) && NoTwoFree(bs) && 0 <= i < |bs| && bs[i].used
    ensures var rs := CutAt(bs, tail, h, i, a);
      && |rs| == |bs| + 1 && rs[i] == Block(bs[i].addr, a - bs[i].addr - h, true)
      && rs[i + 1] == Block(a, bs[i].addr + bs[i].size - a, false)
      && Live(rs) == Live(bs) - {bs[i]} + {rs[i]} && FreeBytes(rs) == FreeBytes(bs) + rs[i + 1].size
      && UsedSpan(rs, h) == UsedSpan(bs, h) - bs[i].size + rs[i].size
      && (forall x :: IsFree(rs, x) <==> IsFree(bs, x) || x == a)
      && forall j :: 0 <= j < |rs| - 1 && j != i + 1 ==> !BothFree(rs, j)
  {
    var rs := CutAt(bs, tail, h, i, a);
    assert Abuts(bs, i, tail, h);
    var mid := [rs[i], rs[i + 1]];
    assert rs == Replace(bs, i, 1, mid) && bs[i..i + 1] == [bs[i]];
    ReplaceLive(bs, 0, tail, h, i, 1, mid);
    assert Live([bs[i]]) == {bs[i]} && Live(mid) == {rs[i]};
    ReplaceCounts(bs, i, 1, mid, h);
    CountOne(bs[i], h);
    CountOne(rs[i], h);
    CountOne(rs[i + 1], h);
    CountTwo(rs[i], rs[i + 1], h);
    forall x
      ensures IsFree(rs, x) <==> IsFree(bs, x) || x == a
    {
      ReplaceIsFree(bs, tail, h, i, 1, mid, x);
      assert mid[1] in mid;
    }
    forall j | 0 <= j < |rs| - 1 && j != i + 1
      ensures !BothFree(rs, j)
    {
      if j < i - 1 {
        assert !BothFree(bs, j);
      } else if j > i + 1 {
        assert !BothFree(bs, j - 1);
      }
    }
  }

  lemma ShiftIs(bs: seq<Block>, tail: int, h: int, i: int, a: int, mid: seq<Block>)
    requires 0 <= i < |bs| - 1
    requires mid == [Block(bs[i].addr, a - bs[i].addr - h, bs[i].used),
             Block(a, AddrAt(bs, i + 2, tail) - a - h, false)]
    ensures CutAt(Joined(bs, h, i), tail, h, i, a) == Replace(bs, i, 2, mid)
  {
    var js := Joined(bs, h, i);
    assert js[..i] == bs[..i] && js[i + 1..] == bs[i + 2..] && AddrAt(js, i + 1, tail) == AddrAt(bs, i + 2, tail);
  }

  lemma ShiftCounts(bs: seq<Block>, tail: int, h: int, i: int, mid: seq<Block>)
    requires h > 0 && Tiles(bs, 0, tail, h) && NoTwoFree(bs) && 0 <= i < |bs| - 1 && bs[i].used && !bs[i + 1].used
    requires |mid| == 2 && mid[0].used && !mid[1].used
    ensures NoTwoFree(Replace(bs, i, 2, mid))
    ensures FreeBytes(Replace(bs, i, 2, mid)) == FreeBytes(bs) - bs[i + 1].size + mid[1].size
  {
    assert mid == [mid[0], mid[1]] && bs[i..i + 2] == [bs[i], bs[i + 1]];
    assert i + 2 < |bs| ==> !BothFree(bs, i + 1);
    ReplaceNoTwoFree(bs, i, 2, mid);
    ReplaceCounts(bs, i, 2, mid, h);
    CountOne(bs[i], h);
    CountOne(bs[i + 1], h);
    CountOne(mid[0], h);
    CountOne(mid[1], h);
    CountTwo(bs[i], bs[i + 1], h);
    CountTwo(mid[0], mid[1], h);
  }

  /** Moving the boundary between the used block `i` and the hole behind it to `a`. */
  lemma ShiftFacts(bs: seq<Block>, tail: int, h: int, i: int, a: int)
    requires h > 0 && Tiles(bs, 0, tail, h) && NoTwoFree(bs) && 0 <= i < |bs| - 1 && bs[i].used && !bs[i + 1].used
    ensures var rs := CutAt(Joined(bs, h, i), tail, h, i, a); var c := Block(bs[i].addr, a - bs[i].addr - h, true);
      && NoTwoFree(rs) && Live(rs) == Live(bs) - {bs[i]} + {c}
      && FreeBytes(rs) == FreeBytes(bs) - (c.size - bs[i].size)
      && forall x :: IsFree(rs, x) <==> (IsFree(bs, x) && x != bs[i + 1].addr) || x == a
  {
    var c, d := Block(bs[i].addr, a - bs[i].addr - h, true), Block(a, AddrAt(bs, i + 2, tail) - a - h, false);
    var mid := [c, d];
    var ns := bs[i..i + 2];
    ShiftIs(bs, tail, h, i, a, mid);
    assert Abuts(bs, i, tail, h) && Abuts(bs, i + 1, tail, h);
    ShiftCounts(bs, tail, h, i, mid);
    UsedThenHole(ns);
    UsedThenHole(mid);
    ReplaceLive(bs, 0, tail, h, i, 2, mid);
    ReplaceHoles(bs, tail, h, i, 2, mid);
  }

  lemma UsedThenHole(bs: seq<Block>)
    requires |bs| == 2 && bs[0].used && !bs[1].used
    ensures Live(bs) == {bs[0]}
    ensures forall x :: IsFree(bs, x) <==> x == bs[1].addr
  {
    assert bs == [bs[0], bs[1]] && bs[1] in bs;
  }

  lemma CarveIs(bs: seq<Block>, tail: int, h: int, min: int, i: int, n: int)
    requires h > 0 && Tiles(bs, 0, tail, h) && 0 <= i < |bs|
    ensures Replace(bs, i, 1, Carve(bs[i], h, min, n)) ==
            Marked(if bs[i].size >= n + h + min then CutAt(bs, tail, h, i, bs[i].addr + n + h) else bs, i, true)
  {
    assert Abuts(bs, i, tail, h);
    if bs[i].size >= n + h + min {
      var cs := CutAt(bs, tail, h, i, bs[i].addr + n + h);
      assert cs[..i] == bs[..i] && cs[i + 1..] == [Carve(bs[i], h, min, n)[1]] + bs[i + 1..];
    }
  }

  /** `p` is the payload of the only new live block, `c`, of at least `n` bytes; headers have `h` bytes. */
  ghost predicate IsGrant(live: set<Block>, live': set<Block>, c: Block, p: int, n: int, h: int) {
    c !in live && live' == live + {c} && c.used && c.addr + h == p && c.size >= n
  }

  /** Releasing what was just granted restores the layout exactly, whatever was split and joined in
      between; `bs0`, `bs1`, `bs2` are the layouts before, in between and after. */
  lemma FreeUndoesGrant(bs0: seq<Block>, bs1: seq<Block>, bs2: seq<Block>, tail: int, h: int, c: Block, p: int, n: int)
    requires h > 0
    requires Tiles(bs0, 0, tail, h) && NoTwoFree(bs0)
    requires Tiles(bs1, 0, tail, h)
    requires Tiles(bs2, 0, tail, h) && NoTwoFree(bs2)
    requires IsGrant(Live(bs0), Live(bs1), c, p, n, h)
    requires Live(bs2) == set b | b in Live(bs1) && b.addr + h != p
    ensures bs2 == bs0
  {
    AllOrdered(bs1, 0, tail, h);
    forall b | b in Live(bs0)
      ensures b.addr != c.addr
    {
      assert b in bs1 && c in Live(bs1);
    }
    LayoutCanonical(bs0, bs2, 0, tail, h);
  }
}
