/** The page allocator below the slab zones: a linked list of runs of free pages, kept at their first page. */
module PageAllocators {
  import opened Chains
  import opened PageRuns

  function StartAt(runs: seq<Run>, i: int): int
    requires 0 <= i <= |runs|
  {
    if i < |runs| then runs[i].start else NULL
  }

  /** Run `i` and the list that begins with it are as the header on its first page says. */
  ghost predicate HeaderAt(next: map<nat, int>, page: map<nat, nat>, runs: seq<Run>, i: int)
    requires 0 <= i < |runs|
  {
    && runs[i].start in next && next[runs[i].start] == StartAt(runs, i + 1)
    && runs[i].start in page && page[runs[i].start] == runs[i].n
  }

  ghost predicate Listed(head: int, next: map<nat, int>, page: map<nat, nat>, runs: seq<Run>) {
    && Sorted(runs) && head == StartAt(runs, 0)
    && forall i :: 0 <= i < |runs| ==> HeaderAt(next, page, runs, i)
  }

  lemma StartsDistinct(runs: seq<Run>, i: int, j: int)
    requires Sorted(runs) && 0 <= i < |runs| && 0 <= j < |runs| && i != j
    ensures runs[i].start != runs[j].start
  {
    InOrder(runs, i, j);
    InOrder(runs, j, i);
  }

  /** The pointer that leads to run `k`. */
  function PrevAt(runs: seq<Run>, k: nat): int
    requires k <= |runs|
  {
    if k == 0 then NULL else runs[k - 1].start
  }

  /** What changes if the link before run `k` is set to `p`. */
  ghost predicate Relinked(head: int, next: map<nat, int>, head': int, next': map<nat, int>, prev: int, p: int) {
    if prev < 0 then head' == p && next' == next else head' == head && next' == next[prev as nat := p]
  }

  /** No run starts inside another one. */
  lemma NoStartInside(runs: seq<Run>, k: nat, x: nat)
    requires Sorted(runs) && k < |runs| && runs[k].start < x <= runs[k].End()
    ensures forall j :: 0 <= j < |runs| ==> runs[j].start != x
  {
    forall j | 0 <= j < |runs|
      ensures runs[j].start != x
    {
      InOrder(runs, j, k);
      InOrder(runs, k, j);
    }
  }

  lemma PrevApart(runs: seq<Run>, k: nat, j: nat)
    requires Sorted(runs) && k <= |runs| && j < |runs| && j + 1 != k
    ensures PrevAt(runs, k) != runs[j].start
  {
    if k > 0 { StartsDistinct(runs, j, k - 1); }
  }

  /** The header of run `j`, after the link before run `k` was set to `p`. */
  lemma RelinkedAt(head: int, next: map<nat, int>, page: map<nat, nat>, runs: seq<Run>, k: nat, j: nat,
                   head': int, next': map<nat, int>, p: int)
    requires Sorted(runs) && j < |runs| && k <= |runs| && HeaderAt(next, page, runs, j)
    requires Relinked(head, next, head', next', PrevAt(runs, k), p)
    ensures runs[j].start in next' && next'[runs[j].start] == if j + 1 == k then p else StartAt(runs, j + 1)
  {
    if j + 1 != k { PrevApart(runs, k, j); }
  }

  lemma SplitListed(head: int, next: map<nat, int>, page: map<nat, nat>, runs: seq<Run>, k: nat, n: nat,
                    head': int, next1: map<nat, int>, next': map<nat, int>, page': map<nat, nat>)
    requires Listed(head, next, page, runs) && k < |runs| && 0 < n < runs[k].n && runs[k].start in next
    requires next1 == next[runs[k].start + n := next[runs[k].start]] &&
             page' == page[runs[k].start + n := runs[k].n - n]
    requires Relinked(head, next1, head', next', PrevAt(runs, k), runs[k].start + n)
    ensures Listed(head', next', page', Taken(runs, k, n))
  {
    var rs, x := Taken(runs, k, n), runs[k].start + n;
    TakenIs(runs, k, n);
    NoStartInside(runs, k, x);
    assert HeaderAt(next, page, runs, k);
    forall i | 0 <= i < |rs|
      ensures HeaderAt(next', page', rs, i)
    {
      assert HeaderAt(next, page, runs, i) && HeaderAt(next1, page, runs, i);
      RelinkedAt(head, next1, page, runs, k, i, head', next', x);
      if k > 0 { assert PrevAt(runs, k) != x; }
    }
  }

  lemma RemovedListed(head: int, next: map<nat, int>, page: map<nat, nat>, runs: seq<Run>, k: nat,
                      head': int, next': map<nat, int>)
    requires Listed(head, next, page, runs) && k < |runs|
    requires runs[k].start in next && Relinked(head, next, head', next', PrevAt(runs, k), next[runs[k].start])
    ensures Listed(head', next', page, Taken(runs, k, runs[k].n))
  {
    var rs := Taken(runs, k, runs[k].n);
    TakenIs(runs, k, runs[k].n);
    assert HeaderAt(next, page, runs, k);
    forall i | 0 <= i < |rs|
      ensures HeaderAt(next', page, rs, i)
    {
      var j := if i < k then i else i + 1;
      assert HeaderAt(next, page, runs, j);
      RelinkedAt(head, next, page, runs, k, j, head', next', next[runs[k].start]);
    }
  }

  /** A new header at `a`, linked in behind run `k - 1`, that leads to the run behind it. */
  ghost predicate Inserted(head: int, next: map<nat, int>, page: map<nat, nat>, runs: seq<Run>, k: nat, a: nat, n: nat,
                           head': int, next1: map<nat, int>, next': map<nat, int>, page': map<nat, nat>) {
    && Listed(head, next, page, runs) && Between(runs, k, a, n) && n > 0 && !JoinsLeft(runs, k, a)
    && (var m := if JoinsRight(runs, k, a, n) then k + 1 else k;
        next1 == next[a := StartAt(runs, m)] && page' == page[a := n + if m > k then runs[k].n else 0])
    && Relinked(head, next1, head', next', PrevAt(runs, k), a)
  }

  lemma InsertedListed(head: int, next: map<nat, int>, page: map<nat, nat>, runs: seq<Run>, k: nat, a: nat, n: nat,
                       head': int, next1: map<nat, int>, next': map<nat, int>, page': map<nat, nat>)
    requires Inserted(head, next, page, runs, k, a, n, head', next1, next', page')
    ensures Listed(head', next', page', Given(runs, k, a, n))
  {
    GivenSorted(runs, k, a, n);
    GivenShape(runs, k, a, n);
    forall i | 0 <= i < |Given(runs, k, a, n)|
      ensures HeaderAt(next', page', Given(runs, k, a, n), i)
    {
      hide *;
      InsertedHeader(head, next, page, runs, k, a, n, head', next1, next', page', i);
    }
  }

  lemma InsertedHeader(head: int, next: map<nat, int>, page: map<nat, nat>, runs: seq<Run>, k: nat, a: nat, n: nat,
                       head': int, next1: map<nat, int>, next': map<nat, int>, page': map<nat, nat>, i: nat)
    requires Inserted(head, next, page, runs, k, a, n, head', next1, next', page')
    requires k <= |runs| && i < |Given(runs, k, a, n)|
    ensures HeaderAt(next', page', Given(runs, k, a, n), i)
  {
    hide Given, Sorted, Between;
    var m := if JoinsRight(runs, k, a, n) then k + 1 else k;
    GivenShape(runs, k, a, n);
    NotAStart(runs, k, a, n);
    if i != k {
      var j := if i < k then i else i - 1 - k + m;
      assert HeaderAt(next, page, runs, j);
      InsertedAt(head, next, page, runs, k, a, head', next1, next', page', j);
    }
  }

  /** The header of an old run, after `a` was linked in behind run `k - 1`. */
  lemma InsertedAt(head: int, next: map<nat, int>, page: map<nat, nat>, runs: seq<Run>, k: nat, a: nat,
                   head': int, next1: map<nat, int>, next': map<nat, int>, page': map<nat, nat>, j: nat)
    requires Sorted(runs) && k <= |runs| && j < |runs| && HeaderAt(next, page, runs, j) && runs[j].start != a
    requires a in next1 && next1 == next[a := next1[a]] && a in page' && page' == page[a := page'[a]]
    requires Relinked(head, next1, head', next', PrevAt(runs, k), a)
    ensures runs[j].start in page' && page'[runs[j].start] == runs[j].n
    ensures runs[j].start in next' && next'[runs[j].start] == if j + 1 == k then a else StartAt(runs, j + 1)
  {
    assert HeaderAt(next1, page', runs, j);
    RelinkedAt(head, next1, page', runs, k, j, head', next', a);
  }

  lemma NotAStart(runs: seq<Run>, k: nat, a: nat, n: nat)
    requires Sorted(runs) && Between(runs, k, a, n) && n > 0
    ensures forall i :: 0 <= i < |runs| ==> runs[i].start != a
  {
  }

  /** Run `k - 1` grows over the pages given back, and over run `k` if that touches them. */
  ghost predicate Grown(head: int, next: map<nat, int>, page: map<nat, nat>, runs: seq<Run>, k: nat, a: nat, n: nat,
                        next': map<nat, int>, page': map<nat, nat>) {
    && Listed(head, next, page, runs) && Between(runs, k, a, n) && n > 0 && JoinsLeft(runs, k, a)
    && var b := runs[k - 1].start;
      if JoinsRight(runs, k, a, n) then
        page' == page[b := runs[k - 1].n + n + runs[k].n] && next' == next[b := StartAt(runs, k + 1)]
      else page' == page[b := runs[k - 1].n + n] && next' == next
  }

  lemma GrownListed(head: int, next: map<nat, int>, page: map<nat, nat>, runs: seq<Run>, k: nat, a: nat, n: nat,
                    next': map<nat, int>, page': map<nat, nat>)
    requires Grown(head, next, page, runs, k, a, n, next', page')
    ensures Listed(head, next', page', Given(runs, k, a, n))
  {
    GivenSorted(runs, k, a, n);
    GivenShape(runs, k, a, n);
    forall i | 0 <= i < |Given(runs, k, a, n)|
      ensures HeaderAt(next', page', Given(runs, k, a, n), i)
    {
      hide *;
      GrownHeader(head, next, page, runs, k, a, n, next', page', i);
    }
  }

  lemma GrownHeader(head: int, next: map<nat, int>, page: map<nat, nat>, runs: seq<Run>, k: nat, a: nat, n: nat,
                    next': map<nat, int>, page': map<nat, nat>, i: nat)
    requires Grown(head, next, page, runs, k, a, n, next', page') && k <= |runs| && i < |Given(runs, k, a, n)|
    ensures HeaderAt(next', page', Given(runs, k, a, n), i)
  {
    hide Given, Sorted, Between;
    var m := if JoinsRight(runs, k, a, n) then k + 1 else k;
    GivenShape(runs, k, a, n);
    var j := if i < k then i else i - k + m;
    assert HeaderAt(next, page, runs, j);
    if j != k - 1 { StartsDistinct(runs, j, k - 1); }
  }

  class PageAllocator {
    const npages: nat                 // of the heap, numbered from 0
    var head: int                     // rt_page_list
    var next: map<nat, int>
    var page: map<nat, nat>
    ghost var runs: seq<Run>

    ghost predicate Valid()
      reads this
    {
      Listed(head, next, page, runs) && forall p: nat :: Free(runs, p) ==> p < npages
    }

    ghost predicate IsFree(p: nat)
      reads `runs
    {
      Free(runs, p)
    }

    ghost predicate CanTake(p: nat, n: nat)
      reads `runs
    {
      AllFree(runs, p, n)
    }

    /** rt_page_init: all pages are given to an empty list. */
    constructor (npages: nat)
      requires npages > 0
      ensures Valid() && this.npages == npages && forall p: nat :: IsFree(p) <==> p < npages
    {
      this.npages := npages;
      head, next, page, runs := NULL, map[], map[], [];
      new;
      FreePages(0, npages);
    }

    /** However the pages came back, when all are free the list is the single run it was at the start. */
    lemma AllReturned()
      requires Valid() && npages > 0 && forall p: nat :: p < npages ==> IsFree(p)
      ensures runs == [Run(0, npages)]
    {
      forall p: nat
        ensures Free(runs, p) <==> Free([Run(0, npages)], p)
      {
        assert IsFree(p) <==> p < npages;
        assert [Run(0, npages)][0].Has(p) <==> p < npages;
      }
      Canonical(runs, [Run(0, npages)]);
    }

    /** `*prev = p`. */
    method SetLink(prev: int, p: int)
      requires prev >= 0 || prev == NULL
      modifies `head, `next
      ensures Relinked(old(head), old(next), head, next, prev, p)
    {
      if prev == NULL {
        head := p;
      } else {
        next := next[prev := p];
      }
    }

    /** Take pages from the start of run `k`, found at `b` behind `prev`. */
    method TakeFrom(ghost k: nat, prev: int, b: nat, n: nat)
      requires Listed(head, next, page, runs) && k < |runs| && 0 < n <= runs[k].n && prev == PrevAt(runs, k) &&
               b == runs[k].start
      modifies this
      ensures runs == Taken(old(runs), k, n) && Listed(head, next, page, runs)
    {
      assert HeaderAt(next, page, runs, k);
      ghost var head0, next0, page0 := head, next, page;
      hide Sorted, HeaderAt, Listed;
      if page[b] > n {
        next := next[b + n := next[b]];
        page := page[b + n := page[b] - n];
        ghost var next1 := next;
        SetLink(prev, b + n);
        SplitListed(head0, next0, page0, runs, k, n, head, next1, next, page);
      } else {
        SetLink(prev, next[b]);
        RemovedListed(head0, next0, page0, runs, k, head, next);
      }
      runs := Taken(runs, k, n);
    }

    /** rt_page_alloc: the lowest place where that many pages are free. */
    method AllocPages(n: nat) returns (r: int)
      requires Valid()
      modifies this
      ensures Valid()
      ensures r == NULL || r >= 0
      ensures n == 0 ==> r == NULL
      ensures n > 0 && r >= 0 ==> old(CanTake(r, n)) && forall p: nat :: p < r ==> !old(CanTake(p, n))
      ensures n > 0 && r < 0 ==> forall p: nat :: !CanTake(p, n)
      ensures r < 0 ==> runs == old(runs)
      ensures forall p: nat :: IsFree(p) <==> old(IsFree(p)) && !(r >= 0 && InRange(p, r, n))
    {
      if n == 0 {
        return NULL;
      }
      var k: nat, prev := 0, NULL;
      r := head;
      while r != NULL
        invariant k <= |runs| && r == StartAt(runs, k) && prev == PrevAt(runs, k)
        invariant forall i :: 0 <= i < k ==> runs[i].n < n
        decreases |runs| - k
      {
        assert HeaderAt(next, page, runs, k);
        if page[r] >= n {
          break;
        }
        prev, k, r := r, k + 1, next[r];
      }
      FirstFit(runs, k, n);
      if r != NULL {
        TakenIs(runs, k, n);
        TakeFrom(k, prev, r, n);
      }
    }

    /** The run at `b` ends where the pages given back begin. */
    method Grow(ghost k: nat, b: nat, ghost a: nat, n: nat)
      requires Listed(head, next, page, runs) && 0 < k <= |runs| && b == runs[k - 1].start && n > 0
      requires Between(runs, k, a, n) && JoinsLeft(runs, k, a)
      modifies this
      ensures runs == Given(old(runs), k, a, n) && Listed(head, next, page, runs)
    {
      assert HeaderAt(next, page, runs, k - 1);
      assert k < |runs| ==> HeaderAt(next, page, runs, k);
      assert k < |runs| ==> runs[k].start != b by { if k < |runs| { StartsDistinct(runs, k, k - 1); } }
      ghost var next0, page0 := next, page;
      page := page[b := page[b] + n];
      if b + page[b] == next[b] {
        var succ: nat := next[b];
        page := page[b := page[b] + page[succ]];
        next := next[b := next[succ]];
      }
      GrownListed(head, next0, page0, runs, k, a, n, next, page);
      runs := Given(runs, k, a, n);
    }

    /** The pages given back begin a run of their own, or take over the run at `b`. */
    method InsertBefore(ghost k: nat, prev: int, b: int, a: nat, n: nat)
      requires Listed(head, next, page, runs) && k <= |runs| && b == StartAt(runs, k) && prev == PrevAt(runs, k) &&
               n > 0
      requires Between(runs, k, a, n) && !JoinsLeft(runs, k, a)
      modifies this
      ensures runs == Given(old(runs), k, a, n) && Listed(head, next, page, runs)
    {
      assert k < |runs| ==> HeaderAt(next, page, runs, k);
      ghost var head0, next0, page0 := head, next, page;
      if b == a + n {
        page := page[a := page[b] + n];
        next := next[a := next[b]];
      } else {
        page := page[a := n];
        next := next[a := b];
      }
      ghost var next1 := next;
      SetLink(prev, a);
      InsertedListed(head0, next0, page0, runs, k, a, n, head, next1, next, page);
      runs := Given(runs, k, a, n);
    }

    /** rt_page_free: give pages back that are part of the heap and not free. */
    method FreePages(a: nat, n: nat)
      requires Valid() && n > 0 && a + n <= npages && forall p: nat :: IsFree(p) ==> !InRange(p, a, n)
      modifies this
      ensures Valid()
      ensures forall p: nat :: IsFree(p) <==> old(IsFree(p)) || InRange(p, a, n)
    {
      var k, prev, b, joins := FindPlace(a, n);
      GivenIs(runs, k, a, n);
      hide Sorted, Given, Between, HeaderAt, Free;
      if joins {
        Grow(k, b, a, n);
      } else {
        InsertBefore(k, prev, b, a, n);
      }
    }

    /** The search for the place of the pages from `a` on: behind the run that ends there, if there is one. */
    method FindPlace(a: nat, n: nat) returns (ghost k: nat, prev: int, b: int, joins: bool)
      requires Listed(head, next, page, runs) && n > 0 && forall p: nat :: Free(runs, p) ==> !InRange(p, a, n)
      ensures Between(runs, k, a, n) && joins == JoinsLeft(runs, k, a)
      ensures if joins then b == StartAt(runs, k - 1) else b == StartAt(runs, k) && prev == PrevAt(runs, k)
    {
      k, prev, b := 0, NULL, head;
      while b != NULL
        invariant k <= |runs| && b == StartAt(runs, k) && prev == PrevAt(runs, k)
        invariant forall i :: 0 <= i < k ==> runs[i].End() < a
        decreases |runs| - k
      {
        assert HeaderAt(next, page, runs, k);
        Apart(runs, k, a, n);
        if b + page[b] == a {
          k := k + 1;
          return k, prev, b, true;
        }
        if b >= a + n {
          break;
        }
        prev, k, b := b, k + 1, next[b];
      }
      return k, prev, b, false;
    }
  }

  /** A run and pages that are not free are apart, and so are then the runs before or behind it. */
  lemma Apart(runs: seq<Run>, k: nat, a: nat, n: nat)
    requires Sorted(runs) && k < |runs| && n > 0 && forall p: nat :: Free(runs, p) ==> !InRange(p, a, n)
    ensures runs[k].End() <= a || a + n <= runs[k].start
    ensures a + n <= runs[k].start ==> forall i :: k <= i < |runs| ==> a + n <= runs[i].start
    ensures runs[k].End() <= a ==> forall i :: 0 <= i <= k ==> runs[i].End() <= a
    ensures runs[k].End() == a ==> forall i :: k < i < |runs| ==> a + n <= runs[i].start
  {
    hide Sorted, Free;
    OneApart(runs, k, a, n);
    forall i | 0 <= i < |runs|
      ensures i < k ==> runs[i].End() < runs[k].start
      ensures k < i ==> runs[k].End() < runs[i].start
      ensures runs[i].End() <= a || a + n <= runs[i].start
    {
      InOrder(runs, i, k);
      InOrder(runs, k, i);
      OneApart(runs, i, a, n);
    }
  }

  lemma OneApart(runs: seq<Run>, k: nat, a: nat, n: nat)
    requires Sorted(runs) && k < |runs| && n > 0 && forall p: nat :: Free(runs, p) ==> !InRange(p, a, n)
    ensures runs[k].n > 0 && (runs[k].End() <= a || a + n <= runs[k].start)
  {
    HasFree(runs, k, a);
    HasFree(runs, k, runs[k].start);
  }

  lemma HasFree(runs: seq<Run>, k: nat, p: nat)
    requires k < |runs|
    ensures runs[k].Has(p) ==> Free(runs, p)
  {
  }
}
