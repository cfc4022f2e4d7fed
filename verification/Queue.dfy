/**
 The intrusive circular list of queue.h.  A queue is a header node and the nodes
 linked behind it; a node that is in no queue is a queue of its own.
 */
module Queue {
  class Node {
    var next: Node
    var prev: Node

    /** uv__queue_init on a new node. */
    constructor ()
      ensures next == this && prev == this
    {
      next, prev := this, this;
    }
  }

  predicate Distinct(s: seq<Node>) {
    forall i, j :: 0 <= i < j < |s| ==> s[i] != s[j]
  }

  /** The node after the i-th, all around. */
  function After(s: seq<Node>, i: nat): Node
    requires i < |s|
  {
    if i + 1 < |s| then s[i + 1] else s[0]
  }

  predicate LinkAt(s: seq<Node>, i: nat)
    requires i < |s|
    reads s[i], After(s, i)
  {
    s[i].next == After(s, i) && After(s, i).prev == s[i]
  }

  /** s is a circle: a header followed by its elements. */
  predicate Circle(s: seq<Node>)
    reads s
  {
    Distinct(s) && forall i :: 0 <= i < |s| ==> LinkAt(s, i)
  }

  lemma {:induction false} DistinctInsert(h: Node, q: Node, s: seq<Node>)
    requires Distinct([h] + s) && q !in [h] + s
    ensures Distinct([h] + ([q] + s))
  {
    var c, d := [h] + s, [h] + ([q] + s);
    forall i, j | 0 <= i < j < |d| ensures d[i] != d[j] {
      if i != 1 && j != 1 { assert d[i] == c[if i == 0 then 0 else i - 1] && d[j] == c[if j == 0 then 0 else j - 1]; }
      else { assert d[i] == q || d[i] in c; assert d[j] == q || d[j] in c; }
    }
  }

  lemma {:induction false} DistinctSplit(a: seq<Node>, b: seq<Node>, n: Node)
    requires Distinct(a + b) && n !in a + b
    ensures Distinct(a) && Distinct([n] + b)
  {
    var c, e := a + b, [n] + b;
    forall i, j | 0 <= i < j < |a| ensures a[i] != a[j] { assert a[i] == c[i] && a[j] == c[j]; }
    forall i, j | 0 <= i < j < |e| ensures e[i] != e[j] {
      assert e[j] == c[|a| + j - 1];
      if i > 0 { assert e[i] == c[|a| + i - 1]; }
    }
  }

  lemma {:induction false} DistinctDrop(c: seq<Node>, n: Node, b: seq<Node>)
    requires Distinct(c + ([n] + b))
    ensures Distinct(c + b) && Distinct([n] + b) && forall i, j :: 0 <= i < |c| && 0 <= j < |b| + 1 ==> c[i] != ([n] + b)[j]
  {
    var all, e, d := c + ([n] + b), c + b, [n] + b;
    forall i, j | 0 <= i < j < |e| ensures e[i] != e[j] {
      assert e[i] == all[if i < |c| then i else i + 1] && e[j] == all[if j < |c| then j else j + 1];
    }
    forall i, j | 0 <= i < j < |d| ensures d[i] != d[j] { assert d[i] == all[|c| + i] && d[j] == all[|c| + j]; }
    forall i, j | 0 <= i < |c| && 0 <= j < |b| + 1 ensures c[i] != d[j] { assert c[i] == all[i] && d[j] == all[|c| + j]; }
  }

  /** uv__queue_init. */
  method Init(q: Node)
    modifies q
    ensures Circle([q])
  {
    q.next := q;
    q.prev := q;
    assert LinkAt([q], 0);
  }

  /** uv__queue_empty. */
  method Empty(h: Node, ghost s: seq<Node>) returns (empty: bool)
    requires Circle([h] + s)
    ensures empty <==> s == []
  {
    assert LinkAt([h] + s, 0);
    empty := h == h.next;
  }

  /** uv__queue_head. */
  method Head(h: Node, ghost s: seq<Node>) returns (q: Node)
    requires Circle([h] + s) && s != []
    ensures q == s[0]
  {
    assert LinkAt([h] + s, 0);
    q := h.next;
  }

  /** uv__queue_insert_tail. */
  method InsertTail(h: Node, q: Node, ghost s: seq<Node>)
    requires Circle([h] + s) && q !in [h] + s
    modifies [h] + s, q
    ensures Circle([h] + s + [q])
  {
    ghost var c := [h] + s;
    assert LinkAt(c, |c| - 1);
    q.next := h;
    q.prev := h.prev;
    q.prev.next := q;
    h.prev := q;
    ghost var d := c + [q];
    forall i | 0 <= i < |d| ensures LinkAt(d, i) {
      if i < |c| { assert old(LinkAt(c, i)); }
    }
  }

  /** uv__queue_insert_head. */
  method InsertHead(h: Node, q: Node, ghost s: seq<Node>)
    requires Circle([h] + s) && q !in [h] + s
    modifies [h] + s, q
    ensures Circle([h] + ([q] + s))
  {
    ghost var c := [h] + s;
    assert LinkAt(c, 0);
    q.next := h.next;
    q.prev := h;
    q.next.prev := q;
    h.next := q;
    ghost var d := [h] + ([q] + s);
    DistinctInsert(h, q, s);
    forall i | 0 <= i < |d| ensures LinkAt(d, i) {
      if i >= 2 { assert d[i] == c[i - 1] && old(LinkAt(c, i - 1)); }
    }
  }

  /** uv__queue_remove: the rest is still a circle; q keeps its own links.  On a
      node that is alone nothing changes. */
  method Remove(q: Node, ghost c: seq<Node>, ghost k: nat)
    requires Circle(c) && k < |c| && c[k] == q
    modifies c
    ensures Circle(c[..k] + c[k + 1..])
    ensures |c| == 1 ==> Circle(c)
    ensures q.next == old(q.next) && q.prev == old(q.prev)
  {
    assert LinkAt(c, k) && LinkAt(c, if k > 0 then k - 1 else |c| - 1);
    q.prev.next := q.next;
    q.next.prev := q.prev;
    ghost var d := c[..k] + c[k + 1..];
    forall i | 0 <= i < |d| ensures LinkAt(d, i) {
      var j := if i < k then i else i + 1;
      assert d[i] == c[j] && old(LinkAt(c, j));
    }
  }

  /** uv__queue_split: the elements from q on move behind the header n. */
  method Split(h: Node, q: Node, n: Node, ghost a: seq<Node>, ghost b: seq<Node>)
    requires Circle([h] + a + b) && b != [] && q == b[0] && n !in [h] + a + b
    modifies [h] + a + b, n
    ensures Circle([h] + a) && Circle([n] + b)
  {
    ghost var c := [h] + a + b;
    assert LinkAt(c, |c| - 1) && LinkAt(c, |a|);
    assert c[|a| + 1] == q;
    n.prev := h.prev;
    n.prev.next := n;
    n.next := q;
    h.prev := q.prev;
    h.prev.next := h;
    q.prev := n;
    ghost var d, e := [h] + a, [n] + b;
    DistinctSplit([h] + a, b, n);
    forall i | 0 <= i < |d| ensures LinkAt(d, i) { assert d[i] == c[i] && old(LinkAt(c, i)); }
    forall i | 0 <= i < |e| ensures LinkAt(e, i) {
      if i > 0 { assert e[i] == c[|a| + i] && old(LinkAt(c, |a| + i)); }
    }
  }

  /** uv__queue_move: everything moves behind the header n and h is left empty. */
  method Move(h: Node, n: Node, ghost s: seq<Node>)
    requires Circle([h] + s) && n !in [h] + s
    modifies [h] + s, n
    ensures Circle([h]) && Circle([n] + s)
  {
    var empty := Empty(h, s);
    assert [h] + [] + s == [h] + s && [h] + [] == [h];
    if empty {
      Init(n);
      assert [n] + s == [n];
    } else {
      var first := Head(h, s);
      Split(h, first, n, [], s);
    }
  }

  /** uv__queue_add: the elements behind n join those behind h, at the end. */
  method Add(h: Node, n: Node, ghost a: seq<Node>, ghost b: seq<Node>)
    requires Circle([h] + a) && Circle([n] + b) && Distinct([h] + a + ([n] + b))
    modifies [h] + a, [n] + b
    ensures Circle([h] + a + b)
  {
    ghost var c, d := [h] + a, [n] + b;
    DistinctDrop(c, n, b);
    assert LinkAt(c, |c| - 1) && LinkAt(d, 0) && LinkAt(d, |d| - 1);
    h.prev.next := n.next;
    n.next.prev := h.prev;
    h.prev := n.prev;
    h.prev.next := h;
    ghost var e := c + b;
    forall i | 0 <= i < |e| ensures LinkAt(e, i) {
      if i < |c| {
        assert e[i] == c[i] && old(LinkAt(c, i));
      } else {
        assert e[i] == d[i - |a|] && old(LinkAt(d, i - |a|));
      }
    }
  }
}
