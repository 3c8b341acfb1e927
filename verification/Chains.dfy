/** Singly linked chains of numbered cells. */
module Chains {
  const NULL := -1

  ghost predicate Distinct(list: seq<nat>) {
    forall i, j :: 0 <= i < j < |list| ==> list[i] != list[j]
  }

  /** From `p`, the `next` fields lead through the cells of `list` and end. */
  ghost predicate Chain(next: map<nat, int>, p: int, list: seq<nat>)
    decreases |list|
  {
    if list == [] then p == NULL
    else p == list[0] && list[0] in next && Chain(next, next[list[0]], list[1..])
  }

  lemma {:induction false} ChainFrame(next: map<nat, int>, p: int, list: seq<nat>, x: nat, v: int)
    requires Chain(next, p, list) && x !in list
    ensures Chain(next[x := v], p, list)
    decreases |list|
  {
    if list != [] {
      ChainFrame(next, next[list[0]], list[1..], x, v);
    }
  }

  lemma {:induction false} ChainAppend(next: map<nat, int>, p: int, list: seq<nat>, x: nat)
    requires Chain(next, p, list) && list != [] && Distinct(list) && x !in list && x in next && next[x] == NULL
    ensures Chain(next[list[|list| - 1] := x], p, list + [x])
    decreases |list|
  {
    var next' := next[list[|list| - 1] := x];
    assert (list + [x])[1..] == list[1..] + [x];
    if |list| == 1 {
      assert Chain(next', x, [x]) by { assert [x][1..] == []; }
    } else {
      assert list[0] != list[|list| - 1];
      ChainAppend(next, next[list[0]], list[1..], x);
    }
  }

  function Without(list: seq<nat>, t: nat): (r: seq<nat>)
    ensures t !in list ==> r == list
    ensures forall u :: u in r ==> u in list
  {
    if list == [] then [] else if list[0] == t then list[1..] else [list[0]] + Without(list[1..], t)
  }

  /** One element leaves, the first that is `t`; the others keep their order. */
  lemma {:induction false} WithoutAt(list: seq<nat>, t: nat) returns (k: nat)
    ensures k <= |list| && (forall i :: 0 <= i < k ==> list[i] != t) && (k < |list| ==> list[k] == t)
    ensures Without(list, t) == if k < |list| then list[..k] + list[k + 1..] else list
  {
    if list == [] || list[0] == t {
      k := 0;
    } else {
      k := WithoutAt(list[1..], t);
      if k < |list[1..]| { TailCut(list, k); }
      k := k + 1;
    }
  }

  lemma TailCut(list: seq<nat>, k: nat)
    requires k + 1 < |list|
    ensures [list[0]] + (list[1..][..k] + list[1..][k + 1..]) == list[..k + 1] + list[k + 2..]
  {
  }

  lemma {:induction false} WithoutDistinct(list: seq<nat>, t: nat)
    requires Distinct(list)
    ensures Distinct(Without(list, t)) && forall u :: u in Without(list, t) <==> u in list && u != t
  {
    if list != [] {
      assert list == [list[0]] + list[1..];
      WithoutDistinct(list[1..], t);
      assert list[0] !in list[1..];
    }
  }

  /** Distinct numbers below `n` are at most `n` many, and then all of them. */
  lemma {:induction false} FillsUp(xs: seq<nat>, n: nat)
    requires Distinct(xs) && forall x :: x in xs ==> x < n
    ensures |xs| <= n && (|xs| == n <==> forall x: nat :: x < n ==> x in xs)
    decreases n
  {
    if xs == [] {
      var zero: nat := 0;
      assert zero !in xs;
    } else {
      assert xs[0] in xs;
      var last: nat := n - 1;
      if last in xs {
        var k :| 0 <= k < |xs| && xs[k] == last;
        var ys := xs[..k] + xs[k + 1..];
        forall x: nat
          ensures x in ys <==> x in xs && x != last
        {
          Deleted(xs, k, x);
        }
        FillsUp(ys, n - 1);
      } else {
        FillsUp(xs, n - 1);
      }
    }
  }

  lemma Deleted(xs: seq<nat>, k: nat, x: nat)
    requires Distinct(xs) && k < |xs|
    ensures x in xs[..k] + xs[k + 1..] <==> x in xs && x != xs[k]
    ensures Distinct(xs[..k] + xs[k + 1..])
  {
    assert xs == xs[..k] + [xs[k]] + xs[k + 1..];
  }
}
