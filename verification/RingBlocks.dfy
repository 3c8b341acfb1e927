/** Ring block buffers: blocks of any size allocated one behind the other in a buffer, once around. */
module RingBlocks {
  import opened Chains

  datatype Status = Unused | Inited | Put | Got

  /** Where a block lies. */
  datatype Span = Span(start: nat, size: nat) {
    function End(): nat {
      start + size
    }

    predicate Below(other: Span) {
      End() <= other.start
    }
  }

  /** The blocks follow each other upwards; those from place `k` on have wrapped and lie below the others. */
  ghost predicate Arranged(spans: seq<Span>, k: nat, n: nat) {
    && k <= |spans|
    && (forall i :: 0 <= i < |spans| ==> 0 < spans[i].size && spans[i].End() <= n)
    && forall i, j :: 0 <= i < j < |spans| ==> if i < k <= j then spans[j].Below(spans[i]) else spans[i].Below(spans[j])
  }

  /** Leaving out the block at place `i`. */
  lemma ArrangedWithout(spans: seq<Span>, k: nat, n: nat, i: nat)
    requires Arranged(spans, k, n) && i < |spans|
    ensures Arranged(spans[..i] + spans[i + 1..], if i < k then k - 1 else k, n)
  {
    var rs, k' := spans[..i] + spans[i + 1..], if i < k then k - 1 else k;
    forall x, y | 0 <= x < y < |rs|
      ensures if x < k' <= y then rs[y].Below(rs[x]) else rs[x].Below(rs[y])
    {
      var x', y' := if x < i then x else x + 1, if y < i then y else y + 1;
      assert rs[x] == spans[x'] && rs[y] == spans[y'];
    }
  }

  /** No block has wrapped. */
  ghost predicate Straight(spans: seq<Span>, k: nat) {
    k == 0 || k == |spans|
  }

  /** The free stretches that a new last block may take: behind the last block up to the end or the first
      block, and, as long as no block has wrapped, from the start up to the first block. */
  ghost predicate Fits(spans: seq<Span>, k: nat, n: nat, s: Span) {
    if spans == [] then s.End() <= n
    else if Straight(spans, k) then (spans[|spans| - 1].Below(s) && s.End() <= n) || s.Below(spans[0])
    else spans[|spans| - 1].Below(s) && s.Below(spans[0])
  }

  /** Where the first turn ends once `s` is the last block. */
  ghost function TurnWith(spans: seq<Span>, k: nat, s: Span): nat {
    if spans == [] || (Straight(spans, k) && spans[|spans| - 1].Below(s)) then |spans| + 1
    else if Straight(spans, k) then |spans| else k
  }

  lemma Bounds(spans: seq<Span>, k: nat, n: nat, i: nat)
    requires Arranged(spans, k, n) && i < |spans|
    ensures Straight(spans, k) || i < k ==> spans[0].start <= spans[i].start
    ensures Straight(spans, k) || i >= k ==> spans[i].End() <= spans[|spans| - 1].End()
    ensures !Straight(spans, k) ==> spans[|spans| - 1].Below(spans[0])
  {
    if i > 0 { Pair(spans, k, n, 0, i); }
    if i < |spans| - 1 { Pair(spans, k, n, i, |spans| - 1); }
    if |spans| > 1 { Pair(spans, k, n, 0, |spans| - 1); }
  }

  lemma Pair(spans: seq<Span>, k: nat, n: nat, i: nat, j: nat)
    requires Arranged(spans, k, n) && i < j < |spans|
    ensures if i < k <= j then spans[j].Below(spans[i]) else spans[i].Below(spans[j])
  {
  }

  lemma ArrangedAppend(spans: seq<Span>, k: nat, n: nat, s: Span)
    requires Arranged(spans, k, n) && Fits(spans, k, n, s) && 0 < s.size
    ensures Arranged(spans + [s], TurnWith(spans, k, s), n)
  {
    var rs, k' := spans + [s], TurnWith(spans, k, s);
    assert s.End() <= n by { if spans != [] { Bounds(spans, k, n, 0); } }
    forall i, j | 0 <= i < j < |rs|
      ensures if i < k' <= j then rs[j].Below(rs[i]) else rs[i].Below(rs[j])
    {
      Bounds(spans, k, n, i);
      if j < |spans| {
        Pair(spans, k, n, i, j);
      }
    }
  }

  /** No other place would keep the order of the ring. */
  lemma OnlyFits(spans: seq<Span>, k: nat, n: nat, s: Span, k': nat)
    requires Arranged(spans, k, n) && Arranged(spans + [s], k', n)
    ensures Fits(spans, k, n, s)
  {
    var rs, last := spans + [s], |spans|;
    if spans != [] {
      Pair(rs, k', n, 0, last);
      Pair(rs, k', n, last - 1, last);
      Bounds(spans, k, n, 0);
      if !Straight(spans, k) {
        Pair(spans, k, n, k - 1, k);
        Pair(rs, k', n, k - 1, k);
        Pair(spans, k, n, 0, last - 1);
        Pair(rs, k', n, 0, last - 1);
      }
    }
  }

  /** The offset that rt_rbb_blk_alloc gives a block of `s` bytes: it takes the ring as straight if the first
      block does not lie above the last one. */
  function Choice(spans: seq<Span>, n: nat, s: nat): int {
    if spans == [] then 0
    else
      var head, tail := spans[0], spans[|spans| - 1];
      if head.start <= tail.start then
        if n - tail.End() >= s then tail.End() else if head.start >= s then 0 else NULL
      else if head.start - tail.End() >= s then tail.End() else NULL
  }

  /** In a ring in order, the choice is a place that fits, and there is one unless nothing fits. */
  lemma ChoiceFits(spans: seq<Span>, k: nat, n: nat, s: nat)
    requires Arranged(spans, k, n)
    ensures Choice(spans, n, s) == NULL || Choice(spans, n, s) >= 0
    ensures Choice(spans, n, s) >= 0 && 0 < s <= n ==> Fits(spans, k, n, Span(Choice(spans, n, s), s))
    ensures Choice(spans, n, s) == NULL ==> forall q: nat :: !Fits(spans, k, n, Span(q, s))
  {
    if spans != [] { Bounds(spans, k, n, 0); }
  }

  /** A block goes behind the last one wherever there is room; to the start of the buffer only in an empty ring,
      or when no block has wrapped and the rest of the buffer is too short. */
  lemma ChoiceIs(spans: seq<Span>, k: nat, n: nat, s: nat)
    requires Arranged(spans, k, n) && Choice(spans, n, s) != NULL
    ensures Choice(spans, n, s) == if spans == [] then 0
                                   else if Straight(spans, k) && spans[|spans| - 1].End() + s > n then 0
                                   else spans[|spans| - 1].End()
  {
    if spans != [] { Bounds(spans, k, n, 0); }
  }

  lemma ChoiceInside(spans: seq<Span>, k: nat, n: nat, s: nat)
    requires Arranged(spans, k, n) && Choice(spans, n, s) >= 0
    ensures spans != [] ==> Choice(spans, n, s) + s <= n
  {
    if spans != [] { Bounds(spans, k, n, 0); }
  }

  ghost predicate Overlap(a: Span, b: Span) {
    !a.Below(b) && !b.Below(a)
  }

  /** The next block, of some size, is laid over one in use. */
  ghost predicate Misleads(spans: seq<Span>, n: nat) {
    exists s: nat :: s > 0 && LaidOver(spans, n, s)
  }

  ghost predicate LaidOver(spans: seq<Span>, n: nat, s: nat) {
    Choice(spans, n, s) >= 0 && exists i :: 0 <= i < |spans| && Overlap(spans[i], Span(Choice(spans, n, s), s))
  }

  /** A block of no bytes behind a ring in order makes a later block overlap one in use exactly if blocks have
      wrapped and no byte is left before the first one: the ring then looks straight. */
  lemma EmptyBlockMisleads(spans: seq<Span>, k: nat, n: nat)
    requires Arranged(spans, k, n)
    ensures var p := Choice(spans, n, 0);
      p >= 0 && (Misleads(spans + [Span(p, 0)], n) <==> !Straight(spans, k) && p == spans[0].start)
  {
    if spans != [] { Bounds(spans, k, n, 0); }
    var p := Choice(spans, n, 0);
    var rs := spans + [Span(p, 0)];
    if spans != [] && !Straight(spans, k) && p == spans[0].start {
      assert rs[0] == spans[0] && LaidOver(rs, n, 1);
    } else {
      forall s: nat | s > 0
        ensures !LaidOver(rs, n, s)
      {
        EmptyBlockHarmless(spans, k, n, s);
      }
    }
  }

  lemma EmptyBlockHarmless(spans: seq<Span>, k: nat, n: nat, s: nat)
    requires Arranged(spans, k, n) && s > 0 && Choice(spans, n, 0) >= 0
    requires spans == [] || Straight(spans, k) || Choice(spans, n, 0) != spans[0].start
    ensures !LaidOver(spans + [Span(Choice(spans, n, 0), 0)], n, s)
  {
    var rs := spans + [Span(Choice(spans, n, 0), 0)];
    if spans != [] { Bounds(spans, k, n, 0); }
    forall i | 0 <= i < |rs| && Choice(rs, n, s) >= 0
      ensures !Overlap(rs[i], Span(Choice(rs, n, s), s))
    {
      if i < |spans| { Bounds(spans, k, n, i); }
    }
  }

  ghost predicate Filled(list: seq<nat>, status: seq<Status>, i: nat) {
    i < |list| && list[i] < |status| && status[list[i]] == Put
  }

  ghost predicate FirstFilled(list: seq<nat>, status: seq<Status>, i: nat) {
    Filled(list, status, i) && forall j: nat :: j < i ==> !Filled(list, status, j)
  }

  ghost function SpansOf(list: seq<nat>, start: seq<nat>, size: seq<nat>): (r: seq<Span>)
    requires |start| == |size| && forall b :: b in list ==> b < |start|
  {
    seq(|list|, i requires 0 <= i < |list| => assert list[i] in list; Span(start[list[i]], size[list[i]]))
  }

  lemma {:induction false} ChainRemove(next: map<nat, int>, p: int, list: seq<nat>, i: nat)
    requires Chain(next, p, list) && Distinct(list) && 0 < i < |list| && list[i] in next
    ensures Chain(next[list[i - 1] := next[list[i]]], p, list[..i] + list[i + 1..])
    decreases |list|
  {
    var next', rs := next[list[i - 1] := next[list[i]]], list[..i] + list[i + 1..];
    assert rs[1..] == list[1..][..i - 1] + list[1..][i..];
    if i == 1 {
      assert list[1..][1..] == list[2..] && list[1..][..0] == [];
      assert Chain(next, next[list[1]], list[2..]) && list[0] !in list[2..];
      ChainFrame(next, next[list[1]], list[2..], list[0], next[list[1]]);
      assert rs[1..] == list[2..];
    } else {
      assert list[0] != list[i - 1];
      ChainRemove(next, next[list[0]], list[1..], i - 1);
    }
  }

  class RingBlockBuffer {
    const bufSize: nat
    const maxNum: nat                 // blk_max_num
    var status: seq<Status>           // of the descriptors in blk_set
    var start: seq<nat>               // offset of the block in the buffer
    var size: seq<nat>
    var next: map<nat, int>           // list.next of the descriptors
    var first: int                    // blk_list.next
    ghost var list: seq<nat>          // allocated descriptors, oldest first
    ghost var turn: nat

    ghost predicate Listed()
      reads this
    {
      && |status| == |start| == |size| == maxNum
      && Chain(next, first, list) && Distinct(list)
      && (forall b :: b in list ==> b < maxNum)
      && forall b :: 0 <= b < maxNum ==> (b in list <==> status[b] != Unused)
    }

    /** Where the blocks are, oldest first. */
    ghost function Spans(): seq<Span>
      requires Listed()
      reads this
    {
      SpansOf(list, start, size)
    }

    ghost predicate Valid()
      reads this
    {
      Listed() && Arranged(Spans(), turn, bufSize)
    }

    /** Blocks in use are inside the buffer and share no byte. */
    lemma Disjoint(a: nat, b: nat)
      requires Valid() && a < maxNum && b < maxNum && a != b && status[a] != Unused && status[b] != Unused
      ensures 0 < size[a] && start[a] + size[a] <= bufSize
      ensures start[a] + size[a] <= start[b] || start[b] + size[b] <= start[a]
    {
      var spans := SpansOf(list, start, size);
      var i :| 0 <= i < |list| && list[i] == a;
      var j :| 0 <= j < |list| && list[j] == b;
      if i < j { Pair(spans, turn, bufSize, i, j); } else { Pair(spans, turn, bufSize, j, i); }
      assert spans[i] == Span(start[a], size[a]);
    }

    constructor (bufSize: nat, maxNum: nat)
      ensures Valid() && this.bufSize == bufSize && this.maxNum == maxNum && list == []
    {
      this.bufSize, this.maxNum := bufSize, maxNum;
      status, start, size := seq(maxNum, i => Unused), seq(maxNum, i => 0), seq(maxNum, i => 0);
      next, first, list, turn := map[], NULL, [], 0;
    }

    method FindEmpty() returns (b: int)
      requires |status| == maxNum
      ensures b == NULL || 0 <= b < maxNum
      ensures b == NULL ==> forall i :: 0 <= i < maxNum ==> status[i] != Unused
      ensures b != NULL ==> status[b] == Unused
    {
      for i := 0 to maxNum
        invariant forall j :: 0 <= j < i ==> status[j] != Unused
      {
        if status[i] == Unused {
          return i;
        }
      }
      return NULL;
    }

    /** rt_slist_len and the tail of the list. */
    method Measure() returns (len: nat, tail: int)
      requires Listed()
      ensures len == |list| && tail == if list == [] then NULL else list[|list| - 1]
    {
      len, tail := 0, NULL;
      var p := first;
      while p != NULL
        invariant len <= |list| && Chain(next, p, list[len..]) && tail == if len == 0 then NULL else list[len - 1]
        decreases |list| - len
      {
        assert list[len..][1..] == list[len + 1..];
        tail, p, len := p, next[p], len + 1;
      }
    }

    /** rt_slist_append behind `tail`, and the fields of the new block. */
    method Append(tail: int, b: nat, p: nat, n: nat)
      requires Listed() && b < maxNum && status[b] == Unused && tail == if list == [] then NULL else list[|list| - 1]
      modifies `status, `start, `size, `next, `first, `list
      ensures Listed() && list == old(list) + [b] && status == old(status)[b := Inited]
      ensures start == old(start)[b := p] && size == old(size)[b := n]
    {
      next := next[b := NULL];
      ChainFrame(old(next), first, list, b, NULL);
      if tail == NULL {
        first := b;
        assert [b][1..] == [];
      } else {
        ChainAppend(next, first, list, b);
        next := next[tail := b];
      }
      list := list + [b];
      status, start, size := status[b := Inited], start[b := p], size[b := n];
    }

    /** The new block `s` is the last of the list. */
    lemma Appended(list0: seq<nat>, start0: seq<nat>, size0: seq<nat>, b: nat, s: Span)
      requires |start0| == |size0| == maxNum && b < maxNum && b !in list0 && forall x :: x in list0 ==> x < maxNum
      ensures SpansOf(list0 + [b], start0[b := s.start], size0[b := s.size]) == SpansOf(list0, start0, size0) + [s]
    {
      assert forall i :: 0 <= i < |list0| ==> list0[i] in list0;
    }

    /** The offset of a new block. */
    method Place(tail: int, n: nat) returns (p: int)
      requires Listed() && tail == if list == [] then NULL else list[|list| - 1]
      ensures p == Choice(SpansOf(list, start, size), bufSize, n)
    {
      if tail == NULL {
        return 0;
      }
      ghost var spans := SpansOf(list, start, size);
      assert list[0] in list && list[|list| - 1] in list;
      assert spans[0] == Span(start[first], size[first]) && spans[|spans| - 1] == Span(start[tail], size[tail]);
      if start[first] <= start[tail] {
        var empty1: int, empty2 := bufSize - (start[tail] + size[tail]), start[first];
        return if empty1 >= n then start[tail] + size[tail] else if empty2 >= n then 0 else NULL;
      }
      var empty1: int := start[first] as int - (start[tail] + size[tail]);
      return if empty1 >= n then start[tail] + size[tail] else NULL;
    }

    ghost predicate AllInUse()
      requires |status| == maxNum
      reads `status
    {
      forall b :: 0 <= b < maxNum ==> status[b] != Unused
    }

    /** rt_rbb_blk_alloc.  In a buffer in order, a failure means that the descriptors are used up or that no
        place would keep the order of the ring.  A block with bytes leaves the buffer in order exactly if it
        fits into the buffer, for which an empty list is not checked; a block of no bytes lets a later one
        overlap a block in use exactly if it fills up the gap in front of the first block. */
    method Alloc(n: nat) returns (r: int)
      requires Listed() && n < 0x100_0000
      modifies this
      ensures Listed() && (r == NULL || 0 <= r < maxNum)
      ensures r == NULL <==> old(AllInUse()) || Choice(old(Spans()), bufSize, n) == NULL
      ensures r == NULL ==>
              list == old(list) && status == old(status) && start == old(start) && size == old(size) &&
              turn == old(turn)
      ensures r != NULL ==>
                && old(status)[r] == Unused && status == old(status)[r := Inited] && list == old(list) + [r]
                && size == old(size)[r := n] && start == old(start)[r := start[r]]
                && start[r] == Choice(old(Spans()), bufSize, n) && Spans() == old(Spans()) + [Span(start[r], n)]
      ensures old(Valid()) && r != NULL ==>
                var spans := old(Spans());
                start[r] == if spans == [] then 0
                            else if Straight(spans, old(turn)) && spans[|spans| - 1].End() + n > bufSize then 0
                            else spans[|spans| - 1].End()
      ensures old(Valid()) && r == NULL ==> AllInUse() || NoPlaceFor(Spans(), bufSize, n)
      ensures old(Valid()) && r != NULL ==> (Valid() <==> 0 < n <= bufSize)
      ensures old(Valid()) && r != NULL && n == 0 ==>
                (Misleads(Spans(), bufSize) <==>
                  !Straight(old(Spans()), old(turn)) && start[r] == old(Spans())[0].start)
    {
      r := FindEmpty();
      var len, tail := Measure();
      FillsUp(list, maxNum);
      if len < maxNum && r != NULL {
        var p := Place(tail, n);
        ghost var spans := Spans();
        if p == NULL {
          NoneFits(n);
          return NULL;
        }
        if Valid() { ChoiceIs(spans, turn, bufSize, n); }
        Appended(list, start, size, r, Span(p, n));
        Append(tail, r, p, n);
        if 0 < n <= bufSize && Arranged(spans, turn, bufSize) {
          ChoiceFits(spans, turn, bufSize, n);
          ArrangedAppend(spans, turn, bufSize, Span(p, n));
          turn := TurnWith(spans, turn, Span(p, n));
        } else if Arranged(spans, turn, bufSize) {
          ChoiceInside(spans, turn, bufSize, n);
          LastOk(spans, turn, bufSize, Span(p, n));
          EmptyBlockMisleads(spans, turn, bufSize);
        }
        return r;
      }
      return NULL;
    }

    lemma NoBlock()
      requires Listed() && list == []
      ensures Spans() == []
    {
    }

    lemma OneBlock(c: nat)
      requires Listed() && c < maxNum && list == [c]
      ensures Spans() == [Span(start[c], size[c])]
    {
    }

    lemma HasRoom()
      requires Listed() && |list| < maxNum
      ensures !AllInUse()
    {
      FillsUp(list, maxNum);
    }

    lemma NoneFits(n: nat)
      requires Listed() && Choice(Spans(), bufSize, n) == NULL
      ensures Valid() ==> NoPlaceFor(Spans(), bufSize, n)
    {
      if Valid() {
        ChoiceFits(Spans(), turn, bufSize, n);
        NoPlace(Spans(), turn, bufSize, n);
      }
    }

    /** rt_rbb_blk_put: the block is filled. */
    method PutBlock(b: nat)
      requires Valid() && b < maxNum && status[b] == Inited
      modifies `status
      ensures Valid() && status == old(status)[b := Put]
    {
      status := status[b := Put];
    }

    /** rt_rbb_blk_get: the oldest filled block. */
    method GetBlock() returns (r: int)
      requires Valid()
      modifies `status
      ensures Valid()
      ensures r == NULL ==> status == old(status) && forall i :: 0 <= i < |list| ==> !Filled(list, status, i)
      ensures r != NULL ==>
              exists i: nat ::
                FirstFilled(list, old(status), i) && r == list[i] && status == old(status)[list[i] := Got]
    {
      ghost var k := 0;
      r := first;
      while r != NULL
        invariant k <= |list| && Chain(next, r, list[k..]) && forall j :: 0 <= j < k ==> !Filled(list, status, j)
        decreases |list| - k
      {
        assert list[k..][1..] == list[k + 1..] && list[k] in list;
        if status[r] == Put {
          assert FirstFilled(list, status, k);
          status := status[r := Got];
          return r;
        }
        k, r := k + 1, next[r];
      }
    }

    /** rt_rbb_blk_free, of any block in use. */
    method FreeBlock(b: nat)
      requires Valid() && b < maxNum && status[b] != Unused
      modifies `status, `next, `first, `list, `turn
      ensures Valid() && status == old(status)[b := Unused]
      ensures forall x :: x in list <==> x in old(list) && x != b
      ensures list == Without(old(list), b)
    {
      ghost var i := Remove(b);
      WithoutPlace(old(list), b, i);
      ArrangedWithout(SpansOf(old(list), start, size), turn, bufSize, i);
      turn := if i < turn then turn - 1 else turn;
      ghost var spans := SpansOf(old(list), start, size);
      assert SpansOf(list, start, size) == spans[..i] + spans[i + 1..];
    }

    /** rt_slist_remove, and the status of the descriptor. */
    method Remove(b: nat) returns (ghost i: nat)
      requires Listed() && b < maxNum && status[b] != Unused
      modifies `status, `next, `first, `list
      ensures Listed() && i < |old(list)| && old(list)[i] == b && list == old(list)[..i] + old(list)[i + 1..]
      ensures status == old(status)[b := Unused]
    {
      var node;
      node, i := Find(b);
      ghost var rs := list[..i] + list[i + 1..];
      Deletion(list, i, rs);
      Unlink(node, b, i);
      list := rs;
      status := status[b := Unused];
    }

    /** The node before `b`. */
    method Find(b: nat) returns (node: int, ghost i: nat)
      requires Chain(next, first, list) && b in list
      ensures i < |list| && list[i] == b && node == if i == 0 then NULL else list[i - 1]
    {
      i := 0;
      var succ := first;
      node := NULL;
      while succ != NULL && succ != b
        invariant i <= |list| && Chain(next, succ, list[i..]) && b in list[i..] &&
                  node == if i == 0 then NULL else list[i - 1]
        decreases |list| - i
      {
        assert list[i..] == [list[i]] + list[i + 1..] && list[i..][1..] == list[i + 1..];
        node, succ, i := succ, next[succ], i + 1;
      }
    }

    method Unlink(node: int, b: nat, ghost i: nat)
      requires Chain(next, first, list) && Distinct(list) && i < |list| && list[i] == b &&
               node == if i == 0 then NULL else list[i - 1]
      modifies `next, `first
      ensures Chain(next, first, list[..i] + list[i + 1..])
    {
      ChainAt(next, first, list, i);
      if node == NULL {
        assert list[..0] + list[1..] == list[1..];
        first := next[b];
      } else {
        ChainRemove(next, first, list, i);
        next := next[node := next[b]];
      }
    }
  }

  lemma {:induction false} ChainAt(next: map<nat, int>, p: int, list: seq<nat>, i: nat)
    requires Chain(next, p, list) && i < |list|
    ensures list[i] in next && Chain(next, next[list[i]], list[i + 1..])
    decreases i
  {
    if i > 0 {
      ChainAt(next, next[list[0]], list[1..], i - 1);
      assert list[1..][i..] == list[i + 1..];
    }
  }

  lemma Deletion(list: seq<nat>, i: nat, rs: seq<nat>)
    requires Distinct(list) && i < |list| && rs == list[..i] + list[i + 1..]
    ensures Distinct(rs) && forall x :: x in rs <==> x in list && x != list[i]
  {
    assert list == list[..i] + [list[i]] + list[i + 1..];
  }

  ghost predicate NoPlaceFor(spans: seq<Span>, n: nat, s: nat) {
    forall p: nat, k: nat :: !Arranged(spans + [Span(p, s)], k, n)
  }

  lemma NoPlace(spans: seq<Span>, k: nat, n: nat, s: nat)
    requires Arranged(spans, k, n) && forall q: nat :: !Fits(spans, k, n, Span(q, s))
    ensures NoPlaceFor(spans, n, s)
  {
    forall p: nat, k': nat
      ensures Arranged(spans + [Span(p, s)], k', n) ==> Fits(spans, k, n, Span(p, s))
    {
      if Arranged(spans + [Span(p, s)], k', n) { OnlyFits(spans, k, n, Span(p, s), k'); }
    }
  }

  lemma WithoutPlace(list: seq<nat>, b: nat, i: nat)
    requires Distinct(list) && i < |list| && list[i] == b
    ensures Without(list, b) == list[..i] + list[i + 1..]
  {
    var k := WithoutAt(list, b);
    assert k == i;
  }

  lemma LastOk(spans: seq<Span>, k: nat, n: nat, s: Span)
    ensures Arranged(spans + [s], k, n) ==> 0 < s.size && s.End() <= n
  {
    assert (spans + [s])[|spans|] == s;
  }

  /** A block larger than the whole buffer is handed out if the list is empty. */
  method TooLarge() returns (b: RingBlockBuffer)
    ensures fresh(b) && !b.Valid() && b.bufSize == 10
    ensures exists r :: 0 <= r < |b.status| && b.status[r] != Unused && r < |b.size| && b.size[r] == 20
  {
    b := new RingBlockBuffer(10, 2);
    b.HasRoom();
    var r := b.Alloc(20);
    assert b.status[r] != Unused && b.size[r] == 20;
  }

  ghost predicate ShareBytes(b: RingBlockBuffer, x: int, y: int)
    reads b
  {
    && 0 <= x < |b.status| && x < |b.start| && x < |b.size| && 0 <= y < |b.status| && y < |b.start| && y < |b.size|
    && x != y && b.status[x] != Unused && b.status[y] != Unused
    && Overlap(Span(b.start[x], b.size[x]), Span(b.start[y], b.size[y]))
  }

  /** A buffer of ten bytes in which a second block has wrapped and fills the gap in front of the first. */
  method GapFilled() returns (b: RingBlockBuffer, c: int)
    ensures fresh(b) && b.Valid() && b.maxNum == 8 && b.bufSize == 10 && |b.list| == 2 &&
            b.Spans() == [Span(4, 4), Span(0, 4)]
    ensures 0 <= c < 8 && b.status[c] != Unused && b.start[c] == 4 && b.size[c] == 4
  {
    hide Chain, Arranged, SpansOf, Distinct, NoPlaceFor, Misleads, Straight;
    b := new RingBlockBuffer(10, 8);
    b.NoBlock();
    b.HasRoom();
    var a := b.Alloc(4);
    b.HasRoom();
    c := b.Alloc(4);
    assert b.list == [a, c];
    b.FreeBlock(a);
    assert b.list == [c];
    b.OneBlock(c);
    b.HasRoom();
    var d := b.Alloc(4);
  }

  /** After a block of no bytes, two blocks in use share bytes. */
  method EmptyBlockRun() returns (b: RingBlockBuffer)
    ensures fresh(b) && exists x, y :: ShareBytes(b, x, y)
  {
    hide Chain, Arranged, SpansOf, Distinct, NoPlaceFor, Misleads, Straight;
    var c;
    b, c := GapFilled();
    b.HasRoom();
    var e := b.Alloc(0);
    b.HasRoom();
    var f := b.Alloc(3);
    assert ShareBytes(b, c, f);
  }
}
