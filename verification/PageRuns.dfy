/** Sorted lists of runs of free pages that neither overlap nor touch. */
module PageRuns {
  datatype Run = Run(start: nat, n: nat) {
    function End(): nat {
      start + n
    }

    predicate Has(p: nat) {
      start <= p < start + n
    }
  }

  ghost predicate Sorted(runs: seq<Run>) {
    && (forall i :: 0 <= i < |runs| ==> runs[i].n > 0)
    && forall i, j :: 0 <= i < j < |runs| ==> runs[i].End() < runs[j].start
  }

  ghost predicate Free(runs: seq<Run>, p: nat) {
    exists i :: 0 <= i < |runs| && runs[i].Has(p)
  }

  /** The pages from `p` to `p + n` are all free. */
  ghost predicate AllFree(runs: seq<Run>, p: nat, n: nat) {
    forall q: nat :: p <= q < p + n ==> Free(runs, q)
  }

  predicate InRange(p: nat, a: nat, n: nat) {
    a <= p < a + n
  }

  /** Take `n` pages from the start of run `k`. */
  function Taken(runs: seq<Run>, k: nat, n: nat): seq<Run>
    requires k < |runs| && n <= runs[k].n
  {
    if runs[k].n > n then runs[k := Run(runs[k].start + n, runs[k].n - n)] else runs[..k] + runs[k + 1..]
  }

  lemma FreeConcat(a: seq<Run>, b: seq<Run>, p: nat)
    ensures Free(a + b, p) <==> Free(a, p) || Free(b, p)
  {
    if Free(a, p) {
      var i :| 0 <= i < |a| && a[i].Has(p);
      assert (a + b)[i].Has(p);
    }
    if Free(b, p) {
      var i :| 0 <= i < |b| && b[i].Has(p);
      assert (a + b)[|a| + i].Has(p);
    }
    if Free(a + b, p) {
      var i :| 0 <= i < |a + b| && (a + b)[i].Has(p);
      assert if i < |a| then a[i].Has(p) else b[i - |a|].Has(p);
    }
  }

  /** The pages of a list that is cut into a front, a middle run and a back. */
  lemma FreeParts(a: seq<Run>, r: Run, b: seq<Run>, p: nat)
    ensures Free(a + [r] + b, p) <==> Free(a, p) || r.Has(p) || Free(b, p)
  {
    FreeConcat(a, [r], p);
    FreeConcat(a + [r], b, p);
    assert [r][0].Has(p) <==> Free([r], p);
  }

  ghost predicate Ahead(a: seq<Run>, b: seq<Run>) {
    forall i, j :: 0 <= i < |a| && 0 <= j < |b| ==> a[i].End() < b[j].start
  }

  lemma SortedConcat(a: seq<Run>, b: seq<Run>)
    requires Sorted(a) && Sorted(b) && Ahead(a, b)
    ensures Sorted(a + b)
  {
  }

  lemma SortedParts(runs: seq<Run>, i: nat, j: nat)
    requires Sorted(runs) && i <= j <= |runs|
    ensures Sorted(runs[..i]) && Sorted(runs[j..]) && Ahead(runs[..i], runs[j..])
  {
  }

  lemma TakenIs(runs: seq<Run>, k: nat, n: nat)
    requires Sorted(runs) && k < |runs| && 0 < n <= runs[k].n
    ensures Sorted(Taken(runs, k, n))
    ensures forall p: nat :: Free(Taken(runs, k, n), p) <==> Free(runs, p) && !InRange(p, runs[k].start, n)
  {
    hide Sorted, Taken, Free;
    TakenSorted(runs, k, n);
    forall p: nat
      ensures Free(Taken(runs, k, n), p) <==> Free(runs, p) && !InRange(p, runs[k].start, n)
    {
      TakenAt(runs, k, n, p);
    }
  }

  lemma TakenAt(runs: seq<Run>, k: nat, n: nat, p: nat)
    requires Sorted(runs) && k < |runs| && 0 < n <= runs[k].n
    ensures Free(Taken(runs, k, n), p) <==> Free(runs, p) && !InRange(p, runs[k].start, n)
  {
    hide Sorted, Free;
    var a, r, b := runs[..k], runs[k], runs[k + 1..];
    var r' := Run(r.start + n, r.n - n);
    assert runs == a + [r] + b;
    assert Taken(runs, k, n) == if r.n > n then a + [r'] + b else a + b;
    FreeParts(a, r, b, p);
    FreeParts(a, r', b, p);
    FreeConcat(a, b, p);
    Outside(a, r, b, p);
  }

  lemma TakenSorted(runs: seq<Run>, k: nat, n: nat)
    requires Sorted(runs) && k < |runs| && 0 < n <= runs[k].n
    ensures Sorted(Taken(runs, k, n))
  {
    SortedParts(runs, k, k + 1);
    if runs[k].n == n {
      SortedConcat(runs[..k], runs[k + 1..]);
    }
  }

  /** The pages of one run are in no other one. */
  lemma Outside(a: seq<Run>, r: Run, b: seq<Run>, p: nat)
    requires Sorted(a + [r] + b)
    ensures r.Has(p) ==> !Free(a, p) && !Free(b, p)
  {
    var all := a + [r] + b;
    assert all[|a|] == r && (forall i :: 0 <= i < |a| ==> all[i] == a[i]) && forall i :: 0 <= i < |b| ==>
           all[|a| + 1 + i] == b[i];
  }

  predicate JoinsLeft(runs: seq<Run>, k: nat, a: nat)
    requires k <= |runs|
  {
    k > 0 && runs[k - 1].End() == a
  }

  predicate JoinsRight(runs: seq<Run>, k: nat, a: nat, n: nat)
    requires k <= |runs|
  {
    k < |runs| && runs[k].start == a + n
  }

  /** Give the pages from `a` to `a + n` back between runs `k - 1` and `k`, joining what touches. */
  function Given(runs: seq<Run>, k: nat, a: nat, n: nat): seq<Run>
    requires k <= |runs|
  {
    var l, r := JoinsLeft(runs, k, a), JoinsRight(runs, k, a, n);
    var joined := Run(if l then runs[k - 1].start else a,
      (if l then runs[k - 1].n else 0) + n + if r then runs[k].n else 0);
    runs[..if l then k - 1 else k] + [joined] + runs[if r then k + 1 else k..]
  }

  /** The pages from `a` to `a + n` lie between runs `k - 1` and `k`. */
  ghost predicate Between(runs: seq<Run>, k: nat, a: nat, n: nat) {
    && k <= |runs|
    && (forall i :: 0 <= i < k ==> runs[i].End() <= a)
    && forall i :: k <= i < |runs| ==> a + n <= runs[i].start
  }

  lemma GivenSorted(runs: seq<Run>, k: nat, a: nat, n: nat)
    requires Sorted(runs) && Between(runs, k, a, n) && n > 0
    ensures Sorted(Given(runs, k, a, n))
  {
    var i := if JoinsLeft(runs, k, a) then k - 1 else k;
    var j := if JoinsRight(runs, k, a, n) then k + 1 else k;
    var r := Given(runs, k, a, n)[i];
    SortedParts(runs, i, j);
    assert Ahead(runs[..i], [r]) && Ahead([r], runs[j..]) by { JoinedAhead(runs, k, a, n); }
    assert Sorted([r]);
    hide Sorted;
    SortedConcat(runs[..i], [r]);
    SortedConcat(runs[..i] + [r], runs[j..]);
  }

  /** Element by element: the front, the run that holds the pages, the back. */
  lemma GivenShape(runs: seq<Run>, k: nat, a: nat, n: nat)
    requires k <= |runs|
    ensures var l, r := JoinsLeft(runs, k, a), JoinsRight(runs, k, a, n);
      var m, j := if l then k - 1 else k, if r then k + 1 else k;
      var rs := Given(runs, k, a, n);
      && |rs| == |runs| + 1 + m - j && m < |rs|
      && rs[m] == Run(if l then runs[k - 1].start else a,
        (if l then runs[k - 1].n else 0) + n + if r then runs[k].n else 0)
      && (forall i :: 0 <= i < m ==> rs[i] == runs[i])
      && forall i :: m < i < |rs| ==> rs[i] == runs[i - 1 - m + j]
  {
  }

  lemma JoinedAhead(runs: seq<Run>, k: nat, a: nat, n: nat)
    requires Sorted(runs) && Between(runs, k, a, n) && n > 0
    ensures var i := if JoinsLeft(runs, k, a) then k - 1 else k;
      var j := if JoinsRight(runs, k, a, n) then k + 1 else k;
      var r := Given(runs, k, a, n)[i];
      Ahead(runs[..i], [r]) && Ahead([r], runs[j..]) && r.n > 0
  {
  }

  lemma GivenIs(runs: seq<Run>, k: nat, a: nat, n: nat)
    requires Sorted(runs) && Between(runs, k, a, n) && n > 0
    ensures forall p: nat :: Free(Given(runs, k, a, n), p) <==> Free(runs, p) || InRange(p, a, n)
  {
    hide Sorted, Free;
    var l, r := JoinsLeft(runs, k, a), JoinsRight(runs, k, a, n);
    var i, j := if l then k - 1 else k, if r then k + 1 else k;
    var joined := Given(runs, k, a, n)[i];
    SplitFour(runs, i, k, j);
    forall p: nat
      ensures Free(Given(runs, k, a, n), p) <==> Free(runs, p) || InRange(p, a, n)
    {
      FreeParts(runs[..i], joined, runs[j..], p);
      FreeFour(runs[..i], runs[i..k], runs[k..j], runs[j..], p);
      FreeOne(runs, i, k, p);
      FreeOne(runs, k, j, p);
    }
  }

  lemma SplitFour(runs: seq<Run>, i: nat, k: nat, j: nat)
    requires i <= k <= j <= |runs|
    ensures runs == runs[..i] + runs[i..k] + runs[k..j] + runs[j..]
  {
  }

  lemma FreeFour(a: seq<Run>, b: seq<Run>, c: seq<Run>, d: seq<Run>, p: nat)
    ensures Free(a + b + c + d, p) <==> Free(a, p) || Free(b, p) || Free(c, p) || Free(d, p)
  {
    hide Free;
    FreeConcat(a, b, p);
    FreeConcat(a + b, c, p);
    FreeConcat(a + b + c, d, p);
  }

  lemma FreeOne(runs: seq<Run>, i: nat, j: nat, p: nat)
    requires i <= j <= i + 1 && j <= |runs|
    ensures Free(runs[i..j], p) <==> i < j && runs[i].Has(p)
  {
    if i < j { assert runs[i..j][0].Has(p) <==> Free(runs[i..j], p); }
  }

  lemma InOrder(runs: seq<Run>, i: nat, j: nat)
    requires Sorted(runs) && i < |runs| && j < |runs|
    ensures i < j ==> runs[i].End() < runs[j].start
  {
  }

  /** Consecutive free pages lie in one run. */
  lemma {:induction false} InOneRun(runs: seq<Run>, p: nat, n: nat) returns (k: nat)
    requires Sorted(runs) && n > 0 && AllFree(runs, p, n)
    ensures k < |runs| && runs[k].start <= p && p + n <= runs[k].End()
    decreases n
  {
    if n == 1 {
      assert Free(runs, p);
      k :| 0 <= k < |runs| && runs[k].Has(p);
    } else {
      k := InOneRun(runs, p, n - 1);
      assert Free(runs, p + n - 1);
      var j :| 0 <= j < |runs| && runs[j].Has(p + n - 1);
      InOrder(runs, j, k);
      InOrder(runs, k, j);
    }
  }

  /** First fit finds the lowest place where `n` pages are free. */
  lemma FirstFit(runs: seq<Run>, k: nat, n: nat)
    requires Sorted(runs) && n > 0 && k <= |runs| && forall i :: 0 <= i < k ==> runs[i].n < n
    ensures k < |runs| && runs[k].n >= n ==> AllFree(runs, runs[k].start, n)
    ensures forall p: nat :: AllFree(runs, p, n) ==> k < |runs| && runs[k].start <= p
  {
    if k < |runs| && runs[k].n >= n {
      forall q: nat | runs[k].start <= q < runs[k].start + n
        ensures Free(runs, q)
      {
        assert runs[k].Has(q);
      }
    }
    forall p: nat | AllFree(runs, p, n)
      ensures k < |runs| && runs[k].start <= p
    {
      var j := InOneRun(runs, p, n);
      assert k < j ==> runs[k].End() < runs[j].start;
    }
  }

  /** The list of runs is determined by the set of free pages. */
  lemma {:induction false} Canonical(r: seq<Run>, s: seq<Run>)
    requires Sorted(r) && Sorted(s) && forall p: nat :: Free(r, p) <==> Free(s, p)
    ensures r == s
  {
    StartFree(r);
    StartFree(s);
    if r != [] && s != [] {
      FirstSame(r, s);
      FirstSame(s, r);
      forall p: nat
        ensures Free(r[1..], p) <==> Free(s[1..], p)
      {
        TailFree(r, p);
        TailFree(s, p);
      }
      Canonical(r[1..], s[1..]);
    }
  }

  lemma StartFree(r: seq<Run>)
    requires Sorted(r)
    ensures r != [] ==> Free(r, r[0].start) && !Free(r, r[0].End()) && forall p: nat :: Free(r, p) ==> r[0].start <= p
  {
    if r != [] { assert r[0].Has(r[0].start); }
  }

  lemma FirstSame(r: seq<Run>, s: seq<Run>)
    requires Sorted(r) && Sorted(s) && r != [] && s != [] && forall p: nat :: Free(r, p) <==> Free(s, p)
    ensures s[0].start <= r[0].start && (s[0].start == r[0].start ==> r[0].End() <= s[0].End())
  {
    StartFree(r);
    StartFree(s);
    HeadFree(r, s[0].End());
  }

  lemma HeadFree(r: seq<Run>, p: nat)
    requires r != []
    ensures r[0].Has(p) ==> Free(r, p)
  {
  }

  lemma TailFree(r: seq<Run>, p: nat)
    requires Sorted(r) && r != []
    ensures Free(r[1..], p) <==> Free(r, p) && !r[0].Has(p)
  {
    if Free(r, p) && !r[0].Has(p) {
      var i :| 0 <= i < |r| && r[i].Has(p);
      assert r[1..][i - 1].Has(p);
    }
    if Free(r[1..], p) {
      var i :| 0 <= i < |r[1..]| && r[1..][i].Has(p);
      assert r[i + 1].Has(p);
    }
  }
}
