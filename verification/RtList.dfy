/** The intrusive circular lists of the kernel.  A list is a cycle of nodes: its head, which holds no item,
    and the items in order; the other models take such a list as the sequence of its items. */
module RtLists {
  import opened Chains

  type Node = nat

  function After(c: seq<Node>, i: nat): Node
    requires i < |c|
  {
    if i + 1 < |c| then c[i + 1] else c[0]
  }

  ghost predicate LinkedAt(next: map<Node, Node>, prev: map<Node, Node>, c: seq<Node>, i: nat)
    requires i < |c|
  {
    && c[i] in next && next[c[i]] == After(c, i)
    && After(c, i) in prev && prev[After(c, i)] == c[i]
  }

  ghost predicate Cycle(next: map<Node, Node>, prev: map<Node, Node>, c: seq<Node>) {
    c != [] && Distinct(c) && forall i :: 0 <= i < |c| ==> LinkedAt(next, prev, c, i)
  }

  /** The nodes of a cycle determine its links: equal sequences of items mean equal lists. */
  lemma LinksDetermined(next: map<Node, Node>, prev: map<Node, Node>, next': map<Node, Node>, prev': map<Node, Node>,
                        c: seq<Node>, x: Node)
    requires Cycle(next, prev, c) && Cycle(next', prev', c) && x in c
    ensures x in next && x in next' && next[x] == next'[x] && x in prev && x in prev' && prev[x] == prev'[x]
  {
    var i :| 0 <= i < |c| && c[i] == x;
    var j := if i > 0 then i - 1 else |c| - 1;
    assert LinkedAt(next, prev, c, i) && LinkedAt(next', prev', c, i);
    assert LinkedAt(next, prev, c, j) && LinkedAt(next', prev', c, j) && After(c, j) == x;
  }

  /** The head and the links determine the nodes: a list is no more and no less than its sequence. */
  lemma NodesDetermined(next: map<Node, Node>, prev: map<Node, Node>, c: seq<Node>, d: seq<Node>)
    requires Cycle(next, prev, c) && Cycle(next, prev, d) && c[0] == d[0]
    ensures c == d
  {
    var n := if |c| <= |d| then |c| else |d|;
    SameFront(next, prev, c, d, n);
    assert LinkedAt(next, prev, c, n - 1) && LinkedAt(next, prev, d, n - 1);
  }

  lemma {:induction false} SameFront(next: map<Node, Node>, prev: map<Node, Node>, c: seq<Node>, d: seq<Node>, n: nat)
    requires Cycle(next, prev, c) && Cycle(next, prev, d) && c[0] == d[0] && n <= |c| && n <= |d|
    ensures c[..n] == d[..n]
  {
    if n > 1 {
      SameFront(next, prev, c, d, n - 1);
      assert c[n - 2] == c[..n - 1][n - 2] == d[..n - 1][n - 2] == d[n - 2];
      assert LinkedAt(next, prev, c, n - 2) && LinkedAt(next, prev, d, n - 2);
      assert c[..n] == c[..n - 1] + [c[n - 1]] && d[..n] == d[..n - 1] + [d[n - 1]];
    }
  }

  /** Lists that do not contain the nodes touched stay as they are. */
  lemma Elsewhere(next: map<Node, Node>, prev: map<Node, Node>, next': map<Node, Node>, prev': map<Node, Node>,
                  touched: set<Node>, d: seq<Node>)
    requires Cycle(next, prev, d) && forall x :: x in d ==> x !in touched
    requires forall x :: x in next && x !in touched ==> x in next' && next'[x] == next[x]
    requires forall x :: x in prev && x !in touched ==> x in prev' && prev'[x] == prev[x]
    ensures Cycle(next', prev', d)
  {
    forall i | 0 <= i < |d|
      ensures LinkedAt(next', prev', d, i)
    {
      assert LinkedAt(next, prev, d, i) && d[i] in d && After(d, i) in d;
    }
  }

  function Inserted(c: seq<Node>, i: nat, n: Node): seq<Node>
    requires i < |c|
  {
    c[..i + 1] + [n] + c[i + 1..]
  }

  lemma InsertLinks(next: map<Node, Node>, prev: map<Node, Node>, c: seq<Node>, i: nat, n: Node)
    requires Cycle(next, prev, c) && i < |c| && n !in c
    ensures var s := After(c, i);
      Cycle(next[n := s][c[i] := n], prev[s := n][n := c[i]], Inserted(c, i, n))
  {
    var s, c' := After(c, i), Inserted(c, i, n);
    var next', prev' := next[n := s][c[i] := n], prev[s := n][n := c[i]];
    forall j | 0 <= j < |c'|
      ensures LinkedAt(next', prev', c', j)
    {
      if j < i {
        assert LinkedAt(next, prev, c, j) && c'[j] == c[j] && After(c', j) == After(c, j);
      } else if j > i + 1 {
        assert LinkedAt(next, prev, c, j - 1) && c'[j] == c[j - 1] && After(c', j) == After(c, j - 1);
      } else {
        assert c'[i] == c[i] && c'[i + 1] == n;
      }
    }
  }

  lemma RemoveLinks(next: map<Node, Node>, prev: map<Node, Node>, c: seq<Node>, i: nat)
    requires Cycle(next, prev, c) && 0 < i < |c|
    ensures var n, p, s := c[i], c[i - 1], After(c, i);
      && n in next && next[n] == s && n in prev && prev[n] == p
      && Cycle(next[p := s][n := n], prev[s := p][n := n], c[..i] + c[i + 1..])
      && Cycle(next[p := s][n := n], prev[s := p][n := n], [n])
  {
    var n, p, s := c[i], c[i - 1], After(c, i);
    var c', next', prev' := c[..i] + c[i + 1..], next[p := s][n := n], prev[s := p][n := n];
    assert LinkedAt(next, prev, c, i) && LinkedAt(next, prev, c, i - 1);
    forall j | 0 <= j < |c'|
      ensures LinkedAt(next', prev', c', j)
    {
      var k := if j < i then j else j + 1;
      assert LinkedAt(next, prev, c, k) && c'[j] == c[k];
      if j != i - 1 { assert After(c', j) == After(c, k); } else { assert After(c', j) == s; }
    }
  }

  ghost function Nodes(c: seq<Node>): set<Node> {
    set x | x in c
  }

  class Links {
    var next: map<Node, Node>
    var prev: map<Node, Node>

    ghost predicate IsCycle(c: seq<Node>)
      reads this
    {
      Cycle(next, prev, c)
    }

    constructor ()
      ensures next == map[] && prev == map[]
    {
      next, prev := map[], map[];
    }

    /** rt_list_init. */
    method Init(l: Node)
      modifies this
      ensures IsCycle([l]) && next == old(next)[l := l] && prev == old(prev)[l := l]
    {
      next, prev := next[l := l], prev[l := l];
    }

    /** A list with none of the touched nodes stays as it is. */
    twostate predicate OthersKept(touched: set<Node>)
      reads this
    {
      forall d :: old(IsCycle(d)) && Nodes(d) !! touched ==> IsCycle(d)
    }

    twostate lemma OthersStay(touched: set<Node>)
      requires forall x :: x in old(next) && x !in touched ==> x in next && next[x] == old(next)[x]
      requires forall x :: x in old(prev) && x !in touched ==> x in prev && prev[x] == old(prev)[x]
      ensures OthersKept(touched)
    {
      forall d | old(IsCycle(d)) && Nodes(d) !! touched
        ensures IsCycle(d)
      {
        assert forall x :: x in d ==> x in Nodes(d);
        Elsewhere(old(next), old(prev), next, prev, touched, d);
      }
    }

    /** rt_list_insert_after: `n` follows `l`, which is item `i` of the cycle or the head. */
    method InsertAfter(l: Node, n: Node, ghost c: seq<Node>, ghost i: nat)
      requires IsCycle(c) && i < |c| && c[i] == l && n !in c
      modifies this
      ensures IsCycle(Inserted(c, i, n)) && OthersKept(Nodes(c + [n]))
    {
      assert LinkedAt(next, prev, c, i) && After(c, i) in c;
      InsertLinks(next, prev, c, i, n);
      prev := prev[next[l] := n];
      next := next[n := next[l]];
      next := next[l := n];
      prev := prev[n := l];
      OthersStay(Nodes(c + [n]));
    }

    /** rt_list_insert_before: before the head of a list is behind its last item. */
    method InsertBefore(l: Node, n: Node, ghost c: seq<Node>, ghost i: nat)
      requires IsCycle(c) && i < |c| && After(c, i) == l && n !in c
      modifies this
      ensures IsCycle(Inserted(c, i, n)) && OthersKept(Nodes(c + [n]))
    {
      assert LinkedAt(next, prev, c, i) && After(c, i) in c && c[i] in c;
      InsertLinks(next, prev, c, i, n);
      ghost var next1, prev1 := next[n := After(c, i)][c[i] := n], prev[After(c, i) := n][n := c[i]];
      var p := prev[l];
      next := next[p := n];
      prev := prev[n := p];
      prev := prev[l := n];
      next := next[n := l];
      assert next == next1 && prev == prev1;
      OthersStay(Nodes(c + [n]));
    }

    /** rt_list_remove of an item: it becomes a list of its own. */
    method Remove(n: Node, ghost c: seq<Node>, ghost i: nat)
      requires IsCycle(c) && 0 < i < |c| && c[i] == n
      modifies this
      ensures IsCycle(c[..i] + c[i + 1..]) && IsCycle([n]) && OthersKept(Nodes(c))
    {
      assert c[i - 1] in c && After(c, i) in c && c[i] in c;
      RemoveLinks(next, prev, c, i);
      var p, s := prev[n], next[n];
      prev := prev[s := p];
      next := next[p := s];
      next, prev := next[n := n], prev[n := n];
      OthersStay(Nodes(c));
    }

    /** Removing a node that is in no list changes nothing. */
    method RemoveAlone(n: Node)
      requires IsCycle([n])
      modifies this
      ensures next == old(next) && prev == old(prev)
    {
      assert LinkedAt(next, prev, [n], 0);
      var p, s := prev[n], next[n];
      prev := prev[s := p];
      next := next[p := s];
      next, prev := next[n := n], prev[n := n];
    }

    /** rt_list_isempty. */
    method IsEmpty(l: Node, ghost c: seq<Node>) returns (empty: bool)
      requires IsCycle(c) && c[0] == l
      ensures empty <==> |c| == 1
    {
      assert LinkedAt(next, prev, c, 0);
      return next[l] == l;
    }
  }
}
